/** The next-output predictor of predict.cpp.

    The program records 31 outputs of rand() in the vector `values` and then
    predicts the next output from the entries 31 and 3 places from the end:
    their sum, or their sum plus one. The sums are kept here as mathematical
    integers; `Wrap32` gives the value the program's `int` variables actually
    hold, and `Mask31` the 31-bit mask that makes the prediction exact.
 */
module Predictor {
  import opened AdditiveFeedback

  datatype Error = InsufficientHistory

  datatype Result<T> = Ok(value: T) | Err(error: Error)

  /** The two possible next outputs: `first` is right unless the dropped low
      bits carry, `second` when they do. */
  datatype Candidates = Candidates(first: int, second: int)

  /** The predictor over the history `values` (oldest first). It reads only the
      entries `Degree` and `Separation` places from the end. */
  function Predict(values: seq<int>): (r: Result<Candidates>)
    ensures r.Err? <==> |values| < Degree
    ensures r.Ok? ==> r.value.second == r.value.first + 1
  {
    if |values| < Degree then Err(InsufficientHistory)
    else
      var sum := values[|values| - Degree] + values[|values| - Separation];
      Ok(Candidates(sum, sum + 1))
  }

  /** Two histories that agree on the two entries the predictor reads get the
      same prediction: no other entry, and not the length, matters. */
  lemma PredictReadsTwoEntries(values: seq<int>, other: seq<int>)
    requires |values| >= Degree && |other| >= Degree
    requires values[|values| - Degree] == other[|other| - Degree]
    requires values[|values| - Separation] == other[|other| - Separation]
    ensures Predict(values) == Predict(other)
  {
  }

  /** With exactly one warmup's worth of history the entries read are 0 and 28. */
  lemma PredictAfterWarmup(values: seq<int>)
    requires |values| == Degree
    ensures Predict(values) == Ok(Candidates(values[0] + values[28], values[0] + values[28] + 1))
  {
  }

  /** `values` are the outputs of `words` from index `start` on, in order. */
  ghost predicate Observed(values: seq<int>, words: seq<int>, start: nat) {
    && start + |values| <= |words|
    && forall i :: 0 <= i < |values| ==> values[i] == Observe(words[start + i])
  }

  /** Candidate sums of 31-bit outputs lie in [0, 2^32 - 1], so they do not fit
      a 32-bit signed `int` once they reach 2^31. */
  lemma CandidateRange(values: seq<int>)
    requires |values| >= Degree
    requires forall i :: 0 <= i < |values| ==> 0 <= values[i] < OutputModulus
    ensures Predict(values).Ok?
    ensures 0 <= Predict(values).value.first <= WordModulus - 2
    ensures 1 <= Predict(values).value.second <= WordModulus - 1
  {
  }

  /** For a history observed from the generator, the next output is the
      second candidate (modulo 2^31) exactly when the low bits dropped from both
      source words are 1, and the first candidate in every other case. */
  lemma NextIsSecondIffCarry(words: seq<int>, start: nat, values: seq<int>)
    requires IsAdditive(words) && Observed(values, words, start)
    requires |values| >= Degree && start + |values| < |words|
    ensures Predict(values).Ok?
    ensures var c, k := Predict(values).value, start + |values|;
      && (Observe(words[k]) == c.second % OutputModulus
          <==> words[k - Degree] % 2 == 1 && words[k - Separation] % 2 == 1)
      && (Observe(words[k]) == c.first % OutputModulus
          <==> !(words[k - Degree] % 2 == 1 && words[k - Separation] % 2 == 1))
  {
    NextOutput(words, start + |values|);
  }

  /** The claim the program prints: the next output is one of the two
      candidates, modulo 2^31. */
  lemma NextIsCandidate(words: seq<int>, start: nat, values: seq<int>)
    requires IsAdditive(words) && Observed(values, words, start)
    requires |values| >= Degree && start + |values| < |words|
    ensures Predict(values).Ok?
    ensures var c, next := Predict(values).value, Observe(words[start + |values|]);
      next == c.first % OutputModulus || next == c.second % OutputModulus
  {
    NextIsSecondIffCarry(words, start, values);
  }

  /** The value a C++ `int` holds after an addition whose mathematical result
      is `x`: two's-complement wrap-around to 32 bits. */
  function Wrap32(x: int): (r: int)
    ensures -OutputModulus <= r < OutputModulus
    ensures (x - r) % WordModulus == 0
  {
    (x + OutputModulus) % WordModulus - OutputModulus
  }

  /** `x & 0x7fffffff` on a 32-bit signed `int`: the low 31 bits. */
  function Mask31(x: int): (r: int)
    requires -OutputModulus <= x < OutputModulus
    ensures 0 <= r < OutputModulus
    ensures (x - r) % OutputModulus == 0
    ensures 0 <= x ==> r == x
  {
    if x < 0 then x + OutputModulus else x
  }

  /** Masking the wrapped `int` recovers the sum modulo 2^31. */
  lemma MaskWrap(x: int)
    ensures Mask31(Wrap32(x)) == x % OutputModulus
  {
  }

  /** The candidates as the program computes and prints them
      (`int prediction1`, `int prediction2`): wrapped to 32-bit `int`. */
  function PrintedCandidates(values: seq<int>): (r: Result<Candidates>)
    ensures r.Err? <==> |values| < Degree
    ensures r.Ok? ==> -OutputModulus <= r.value.first < OutputModulus
    ensures r.Ok? ==> (r.value.first - Predict(values).value.first) % WordModulus == 0
    ensures r.Ok? ==> -OutputModulus <= r.value.second < OutputModulus
    ensures r.Ok? ==> (r.value.second - Predict(values).value.second) % WordModulus == 0
  {
    match Predict(values)
    case Ok(c) => Ok(Candidates(Wrap32(c.first), Wrap32(c.second)))
    case Err(e) => Err(e)
  }

  /** As written, whenever the sum reaches 2^31 both printed candidates are
      negative, so neither is the next output of rand(). */
  lemma PrintedCandidatesMissOnOverflow(words: seq<int>, start: nat, values: seq<int>)
    requires IsAdditive(words) && Observed(values, words, start)
    requires |values| >= Degree && start + |values| < |words|
    requires values[|values| - Degree] + values[|values| - Separation] >= OutputModulus
    ensures PrintedCandidates(values).Ok?
    ensures var p, next := PrintedCandidates(values).value, Observe(words[start + |values|]);
      next != p.first && next != p.second
  {
  }

  /** The arithmetic behind `PrintedHitsIff`: the wrapped sum or the wrapped
      sum plus one is the 31-bit value `(sum + carry) % 2^31` exactly when
      `sum + carry` stays below 2^31. */
  lemma WrappedHitsIff(sum: int, carry: int)
    requires 0 <= sum <= WordModulus - 2 && 0 <= carry <= 1
    ensures var next := (sum + carry) % OutputModulus;
      (next == Wrap32(sum) || next == Wrap32(sum + 1)) <==> sum + carry < OutputModulus
  {
    if sum + carry >= OutputModulus {
      assert (sum + carry) % OutputModulus == sum + carry - OutputModulus;
      if sum >= OutputModulus {
        assert Wrap32(sum) == sum - WordModulus;
        assert Wrap32(sum + 1) == sum + 1 - WordModulus;
      } else {
        assert sum == OutputModulus - 1 && carry == 1;
        assert Wrap32(sum + 1) == -OutputModulus;
      }
    }
  }

  /** As written, the printed candidates contain the next output exactly when
      the sum plus the carry of the dropped low bits stays below 2^31; they
      miss whenever that total reaches 2^31. */
  lemma PrintedHitsIff(words: seq<int>, start: nat, values: seq<int>)
    requires IsAdditive(words) && Observed(values, words, start)
    requires |values| >= Degree && start + |values| < |words|
    ensures PrintedCandidates(values).Ok?
    ensures var p, k := PrintedCandidates(values).value, start + |values|;
      (Observe(words[k]) == p.first || Observe(words[k]) == p.second)
      <==> values[|values| - Degree] + values[|values| - Separation]
           + Carry(words[k - Degree], words[k - Separation]) < OutputModulus
  {
    var k := start + |values|;
    NextOutput(words, k);
    CandidateRange(values);
    var sum := values[|values| - Degree] + values[|values| - Separation];
    WrappedHitsIff(sum, Carry(words[k - Degree], words[k - Separation]));
  }

  /** A word stream on which the printed candidates miss: the outputs 31 and 3
      places back are both 2^30, so the sum is 2^31; the next word is 0. */
  const OverflowWords: seq<int> := seq(32, i => if i == 0 || i == 28 then 0x8000_0000 else 0)
  const OverflowValues: seq<int> := seq(31, i => if i == 0 || i == 28 then 0x4000_0000 else 0)

  lemma OverflowExample()
    ensures IsAdditive(OverflowWords) && Observed(OverflowValues, OverflowWords, 0)
    ensures OverflowValues[0] + OverflowValues[28] == OutputModulus
    ensures PrintedCandidates(OverflowValues) == Ok(Candidates(-OutputModulus, -OutputModulus + 1))
    ensures Observe(OverflowWords[31]) == 0
  {
  }

  /** A word stream on which the printed candidates miss below 2^31: the sum
      of the outputs is 2^31 - 1 and both dropped low bits are 1, so the
      second candidate wraps to -2^31 while the next output is 0. */
  const EdgeWords: seq<int> := seq(32, i => if i == 0 then 0xFFFF_FFFF else if i == 28 then 1 else 0)
  const EdgeValues: seq<int> := seq(31, i => if i == 0 then 0x7FFF_FFFF else 0)

  lemma CarryOverflowExample()
    ensures IsAdditive(EdgeWords) && Observed(EdgeValues, EdgeWords, 0)
    ensures EdgeValues[0] + EdgeValues[28] == OutputModulus - 1
    ensures PrintedCandidates(EdgeValues) == Ok(Candidates(OutputModulus - 1, -OutputModulus))
    ensures Observe(EdgeWords[31]) == 0
  {
  }

  /** The candidates with the intended 31-bit mask applied
      (`(o0 + o28) & 0x7fffffff`): exactly the sums modulo 2^31. */
  function MaskedCandidates(values: seq<int>): (r: Result<Candidates>)
    ensures r.Err? <==> |values| < Degree
    ensures r.Ok? ==> r.value.first == Predict(values).value.first % OutputModulus
    ensures r.Ok? ==> r.value.second == Predict(values).value.second % OutputModulus
  {
    match PrintedCandidates(values)
    case Ok(p) =>
      MaskWrap(Predict(values).value.first);
      MaskWrap(Predict(values).value.second);
      Ok(Candidates(Mask31(p.first), Mask31(p.second)))
    case Err(e) => Err(e)
  }

  /** With the mask, the next output is exactly one of the two candidates. */
  lemma NextIsMaskedCandidate(words: seq<int>, start: nat, values: seq<int>)
    requires IsAdditive(words) && Observed(values, words, start)
    requires |values| >= Degree && start + |values| < |words|
    ensures MaskedCandidates(values).Ok?
    ensures var m, next := MaskedCandidates(values).value, Observe(words[start + |values|]);
      next == m.first || next == m.second
  {
    NextIsCandidate(words, start, values);
  }

  /** The warmup loop: 31 calls of rand(), each output appended to `values`. */
  method Warmup(src: RandSource) returns (values: seq<int>)
    requires src.Valid() && src.pos + Degree <= |src.words|
    modifies src
    ensures src.Valid() && src.pos == old(src.pos) + Degree
    ensures |values| == Degree && Observed(values, src.words, old(src.pos))
  {
    values := [];
    for i := 0 to Degree
      invariant src.Valid() && src.pos == old(src.pos) + i
      invariant |values| == i && Observed(values, src.words, old(src.pos))
    {
      var value := src.Rand();
      values := values + [value];
    }
  }

  /** The whole program: warm up, predict, then draw the actual next output,
      which is one of the two masked candidates. */
  method Run(src: RandSource) returns (values: seq<int>, candidates: Candidates, actual: int)
    requires src.Valid() && src.pos + Degree < |src.words|
    modifies src
    ensures src.Valid() && src.pos == old(src.pos) + Degree + 1
    ensures |values| == Degree && Observed(values + [actual], src.words, old(src.pos))
    ensures Predict(values) == Ok(candidates)
    ensures PrintedCandidates(values) == Ok(Candidates(Wrap32(candidates.first), Wrap32(candidates.second)))
    ensures MaskedCandidates(values).Ok?
    ensures var m := MaskedCandidates(values).value; actual == m.first || actual == m.second
  {
    ghost var start := src.pos;
    values := Warmup(src);
    candidates := Predict(values).value;
    actual := src.Rand();
    NextIsMaskedCandidate(src.words, start, values);
  }
}
