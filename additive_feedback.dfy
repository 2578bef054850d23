/** The generator behind the C library's default rand(), as an assumption.

    The program never sees the generator's state: it only calls rand(). What
    the prediction relies on is that the default generator is additive
    feedback with a table of 31 words: each new 32-bit word is the sum, modulo
    2^32, of the word 31 places back and the word 3 places back, and the value
    rand() hands out is that word shifted right by one bit. This module states
    that assumption about a sequence of words and proves the one arithmetic
    fact the prediction needs: shifting loses only a carry of 0 or 1.
 */
module AdditiveFeedback {

  /** Internal words are unsigned 32-bit values. */
  const WordModulus: int := 0x1_0000_0000
  /** Outputs of rand() are 31-bit values (RAND_MAX is 2^31 - 1). */
  const OutputModulus: int := 0x8000_0000
  /** The long lag: the length of the generator's table. */
  const Degree: nat := 31
  /** The short lag. */
  const Separation: nat := 3

  predicate IsWord(w: int) {
    0 <= w < WordModulus
  }

  /** The value rand() returns for internal word `w`: `(w >> 1) & 0x7fffffff`.
      Only the low bit of the word is lost. */
  function Observe(w: int): (o: int)
    ensures 0 <= o < OutputModulus
    ensures IsWord(w) ==> w == 2 * o + w % 2
  {
    (w / 2) % OutputModulus
  }

  /** `words` is a stretch of the generator's word stream: every entry is a
      32-bit word and every entry from the 32nd on obeys the recurrence. */
  ghost predicate IsAdditive(words: seq<int>) {
    && (forall k :: 0 <= k < |words| ==> IsWord(words[k]))
    && (forall k :: Degree <= k < |words| ==>
          words[k] == (words[k - Degree] + words[k - Separation]) % WordModulus)
  }

  /** The carry out of adding the low bits of `x` and `y`: the bit their sum
      passes into the part the output keeps. */
  function Carry(x: int, y: int): (c: int)
    ensures x % 2 + y % 2 == 2 * c + (x + y) % 2
  {
    if x % 2 == 1 && y % 2 == 1 then 1 else 0
  }

  /** The output for the sum of two words is the sum of their outputs plus the
      carry out of their dropped low bits, modulo 2^31. */
  lemma ObserveSum(x: int, y: int)
    requires IsWord(x) && IsWord(y)
    ensures Observe((x + y) % WordModulus) == (Observe(x) + Observe(y) + Carry(x, y)) % OutputModulus
  {
  }

  /** The next output of a word stream, given the outputs 31 and 3 places back. */
  lemma NextOutput(words: seq<int>, k: nat)
    requires IsAdditive(words) && Degree <= k < |words|
    ensures Observe(words[k])
         == (Observe(words[k - Degree]) + Observe(words[k - Separation])
             + Carry(words[k - Degree], words[k - Separation])) % OutputModulus
  {
  }

  /** The four possible values of the two dropped low bits. */
  const LowBitPairs: set<(int, int)> := {(0, 0), (0, 1), (1, 0), (1, 1)}

  /** Three of the four combinations of dropped low bits produce no carry. */
  lemma NoCarryInThreeOfFour()
    ensures |set p | p in LowBitPairs && Carry(p.0, p.1) == 0| == 3
  {
    var s := set p | p in LowBitPairs && Carry(p.0, p.1) == 0;
    assert Carry(1, 1) == 1;
    assert s == {(0, 0), (0, 1), (1, 0)};
  }

  /** The hidden state of rand(): the word stream it runs through and how far
      it has got. The stream is fixed by seeding, which is not modelled; it is
      given here as a finite stretch of words obeying the recurrence. */
  class RandSource {
    const words: seq<int>
    var pos: nat

    ghost predicate Valid()
      reads this
    {
      IsAdditive(words) && pos <= |words|
    }

    constructor (words: seq<int>, start: nat)
      requires IsAdditive(words) && start <= |words|
      ensures Valid()
      ensures this.words == words && pos == start
    {
      this.words := words;
      pos := start;
    }

    /** One call of rand(): the output of the current word; the stream advances by one. */
    method Rand() returns (o: int)
      requires Valid() && pos < |words|
      modifies this
      ensures Valid()
      ensures pos == old(pos) + 1
      ensures o == Observe(words[old(pos)])
    {
      o := Observe(words[pos]);
      pos := pos + 1;
    }
  }
}
