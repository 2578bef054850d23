# Next-output prediction for the C library's additive-feedback `rand()`

`predict.cpp` calls `rand()` 31 times and keeps the outputs, in order, in a
vector `values`. It then claims that the next output is one of two candidates:
`values[size-31] + values[size-3]`, or that sum plus one. The claim rests on how
the default generator works. The generator keeps a table of 31 32-bit words.
Each new word is the sum, modulo 2^32, of the words 31 and 3 places back.
`rand()` returns the new word shifted right by one bit. The shift drops each
word's low bit, so the sum of two outputs can fall short of the next output
only by the carry out of those two dropped bits, which is 0 or 1.

The project has two modules:

- `AdditiveFeedback` (`additive_feedback.dfy`) states that generator as an
  assumption about a stretch of words (`IsAdditive`). It defines the output of
  a word (`Observe`, which is `(w >> 1) & 0x7fffffff`) and proves the carry fact
  (`ObserveSum`, `NextOutput`). `RandSource` is the hidden state behind
  `rand()`: a fixed word stream and a cursor that each call advances.
- `Predictor` (`predict.dfy`) holds the program itself. `Warmup` is the loop
  that appends 31 outputs to a sequence. `Predict` is the two-candidate
  prediction, taken over mathematical integers. `Run` is the whole of `main`.
  Lemmas relate the prediction to the generator's next output, both modulo
  2^31 and as the program's 32-bit `int` values.

`Predict` reports `InsufficientHistory` for a history shorter than 31. The
source does not check this: it indexes with `values.size() - 31`, which wraps
around as an unsigned value and reads out of bounds. The source only ever calls
it with exactly 31 entries, where the entries read are 0 and 28. Because
`Predict` is a function of the history value, it cannot modify the history, and
two calls on the same history give the same candidates.

## Model

| member | source | states |
|---|---|---|
| `AdditiveFeedback.Observe` | predict.cpp:11 | an output of `rand()` lies in [0, 2^31); for a 32-bit word it is the word without its low bit (`w == 2*o + w%2`) |
| `AdditiveFeedback.ObserveSum` | predict.cpp:18-19 | the output of the truncated sum of two words equals the sum of their outputs plus the carry of their low bits, modulo 2^31 |
| `AdditiveFeedback.NextOutput` | predict.cpp:18-24 | in a stream obeying the recurrence, output k equals outputs k-31 and k-3 plus the carry of their dropped low bits, modulo 2^31 |
| `AdditiveFeedback.NoCarryInThreeOfFour` | predict.cpp:18-19 | three of the four combinations of the two dropped low bits produce no carry, so the first candidate is right in those three |
| `AdditiveFeedback.Carry` | predict.cpp:18-19 | the carry out of adding the two dropped low bits: their sum is twice the carry plus the low bit of the full sum (that the second candidate is right exactly when this carry is 1 is `Predictor.NextIsSecondIffCarry`) |
| `AdditiveFeedback.RandSource.constructor` | predict.cpp:11 | a generator state positioned at a given point of a stream obeying the recurrence |
| `AdditiveFeedback.RandSource.Rand` | predict.cpp:11 | one call of `rand()` returns the output of the current word and advances the stream by exactly one word |
| `Predictor.Warmup` | predict.cpp:9-14 | after the loop the history holds exactly 31 outputs, and entry i is the i-th output drawn, in order |
| `Predictor.Predict` | predict.cpp:16-19 | a prediction exists exactly when the history has at least 31 entries; the second candidate is always the first plus one |
| `Predictor.PredictReadsTwoEntries` | predict.cpp:16-18 | the prediction depends only on the entries 31 and 3 places from the end, whatever the lengths of the histories |
| `Predictor.PredictAfterWarmup` | predict.cpp:16-19 | with exactly 31 entries the candidates are `values[0] + values[28]` and that plus one |
| `Predictor.CandidateRange` | predict.cpp:18-19 | for 31-bit outputs the first candidate lies in [0, 2^32 - 2] and the second in [1, 2^32 - 1] |
| `Predictor.NextIsSecondIffCarry` | predict.cpp:18-19 | for outputs of the generator, the next output is the second candidate modulo 2^31 exactly when both dropped low bits are 1, and the first candidate exactly otherwise |
| `Predictor.NextIsCandidate` | predict.cpp:18-24 | for outputs of the generator, the next output is congruent modulo 2^31 to one of the two candidates |
| `Predictor.Wrap32` | predict.cpp:18-19 | the value of the C++ `int` sum: in the 32-bit signed range and congruent to the mathematical sum modulo 2^32 |
| `Predictor.Mask31` | predict.cpp:18-19 | `x & 0x7fffffff` on a 32-bit signed `int` lies in [0, 2^31), is congruent to x modulo 2^31 and leaves a non-negative x alone |
| `Predictor.MaskWrap` | predict.cpp:18-19 | masking the wrapped `int` sum gives the mathematical sum modulo 2^31 |
| `Predictor.PrintedCandidates` | predict.cpp:18-22 | both printed candidates (`prediction1`, `prediction2`) are 32-bit signed values, each congruent modulo 2^32 to its mathematical sum |
| `Predictor.PrintedCandidatesMissOnOverflow` | predict.cpp:18-24 | as written, when the sum reaches 2^31 neither printed candidate equals the next output |
| `Predictor.WrappedHitsIff` | predict.cpp:18-24 | for a sum in [0, 2^32 - 2] and a carry of 0 or 1, the wrapped sum or wrapped sum plus one equals `(sum + carry) % 2^31` exactly when `sum + carry < 2^31` |
| `Predictor.PrintedHitsIff` | predict.cpp:18-24 | as written, one of the printed candidates is the next output exactly when the sum plus the carry of the dropped low bits is below 2^31 |
| `Predictor.CarryOverflowExample` | predict.cpp:18-24 | a concrete stream obeying the recurrence whose sum is 2^31 - 1 and whose low bits carry: printed candidates 2^31 - 1 and -2^31, next output 0 |
| `Predictor.OverflowExample` | predict.cpp:18-24 | a concrete stream obeying the recurrence whose printed candidates are -2^31 and -2^31 + 1 while the next output is 0 |
| `Predictor.MaskedCandidates` | predict.cpp:18-19 | the candidates with the 31-bit mask applied are the mathematical sums modulo 2^31 |
| `Predictor.NextIsMaskedCandidate` | predict.cpp:20-24 | for outputs of the generator, the next output equals one of the two masked candidates exactly |
| `Predictor.Run` | predict.cpp:8-25 | `main`: the history is the first 31 outputs, the actual value is the 32nd, the candidates are `Predict` of the history, the printed candidates are their 32-bit wrapped values, and the actual value equals one of the two masked candidates |

## Left out

- `gen_rand.cpp` is not part of this model. It seeds `rand()` from the clock and writes 1000 outputs to a file, which is I/O with no logic of its own.
- The real glibc `random()` and its seeding (`srand`, the table set-up) are foreign code that is not part of this repository. The model assumes only the additive recurrence, as the hypothesis `IsAdditive` on a word stream.
- `AdditiveFeedback.RandSource.Rand`: the word stream is a finite sequence, so `Rand` requires a word to be left; the real generator never runs out.
- All `cout` printing (predict.cpp:13, 16-17, 20-24) is output plumbing. The printed prediction values are modelled by `PrintedCandidates`; the text is not.
- Signed overflow of `int` is undefined behaviour in C++. `Wrap32` takes the usual two's-complement wrap-around.
- The probability that the first candidate is right (about 75%) needs a probability model that the code never states. `NoCarryInThreeOfFour` gives the counting fact behind it.
- Only `predict.cpp` is modelled; `gen_rand.cpp` is covered by the first line of this list; no other part of the repository is modelled.

## Findings

| source | as written | input that shows it | evidently intended | confidence | as-written member | corrected member |
|---|---|---|---|---|---|---|
| predict.cpp:18-24 | the candidates are stored in `int`, so a sum of 2^31 or more wraps to a negative value; the printed candidates then miss the next output of `rand()`, and so do they when the sum is 2^31 - 1 and the low bits carry (the second candidate wraps to -2^31) | outputs 31 and 3 places back both 2^30 with both low bits 0: printed candidates -2^31 and -2^31 + 1, actual next output 0; or outputs 2^31 - 1 and 0 with both low bits 1: printed candidates 2^31 - 1 and -2^31, actual next output 0 | reduce the sum to 31 bits (`& 0x7fffffff`), so that the next output equals one of the candidates exactly | not executed; high, since the sum overflows for about half of all histories | `Predictor.PrintedHitsIff` | `Predictor.NextIsMaskedCandidate` |
