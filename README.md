# Hyperdimensional sequence representation, modelled in Dafny

This project models the core of `HDSequenceRepresentation`, a small
hyperdimensional-computing program. Symbol sequences are encoded as long
binary vectors (hypervectors) and classified by their nearest neighbours:

* **Hypervectors** (`hypervectors.dfy`): the four vector primitives.
  `Permute` is a cyclic shift to higher indices. `XorVectors` binds two
  vectors component by component. `AggregateVectors` bundles vectors by
  strict per-component majority. `HammingDistance` counts differing
  components.
* **Encoder** (`encoder.dfy`): `EncodeSequence` slides a window of width n
  over the sequence. The vector of the window at i XOR-accumulates, for
  every offset j, the value vector of the symbol at i + j shifted by j and
  bound to the position vector of offset j. The window vectors are then
  bundled.
* **Classifier** (`classifier.dfy`): `ClassifySequence` is a k-nearest-neighbour
  vote over Hamming distance. Neighbours go into k slots that start empty
  (-1). Each training vector is inserted before the first slot that is empty
  or holds a strictly farther neighbour, and the last slot falls off. The
  labels of the selected neighbours are counted. The lowest label with the
  highest positive count wins, and -1 means "no label".
  `ClassifySequences` classifies a list of queries.

Each operation of the original is an imperative method over fresh arrays
with loop invariants. Each method's postcondition equates its result with a
pure specification function: `Permuted`, `Xor`, `Bundle`, `Distance`,
`Encode`, `Neighbours`, `Tally`, `LeaderOf` and `Classify`. The lemmas beside
those functions state what the original promises. Examples: shifting back
restores a vector, XOR cancels itself, the bundle is the strict majority,
the distance is 0 exactly for equal vectors, and every encoded component is
a majority of parities. The selected neighbours are proved to be the k
nearest by (distance, index), in ascending order. The prediction is proved
to be the lowest label with the most votes.

Vectors are `seq<bool>` at the method boundaries. The program's fixed
dimension (D = 10000) is the parameter `d`. The random value and position
tables are inputs. Integers are unbounded.

## Model

| member | source | states |
|---|---|---|
| Hypervectors.Permute | src/main/java/hyperdimension/examples/validations/HDSequenceRepresentation.java:93-100 | the result has the input's length, holds component i at index (i + shift) mod length, and equals the input rotated shift times by one place |
| Hypervectors.PermutedAt | src/main/java/hyperdimension/examples/validations/HDSequenceRepresentation.java:97 | the rotation-defined shift moves component i to index (i + shift) mod length |
| Hypervectors.PermutedIndex | src/main/java/hyperdimension/examples/validations/HDSequenceRepresentation.java:97 | index p of the shifted vector holds component (p - shift) mod length |
| Hypervectors.BackIsMod | src/main/java/hyperdimension/examples/validations/HDSequenceRepresentation.java:97 | stepping an index back cyclically shift times is subtracting shift modulo the length |
| Hypervectors.PermuteZero | src/main/java/hyperdimension/examples/validations/HDSequenceRepresentation.java:93-100 | shifting by 0 is the identity |
| Hypervectors.PermuteCompose | src/main/java/hyperdimension/examples/validations/HDSequenceRepresentation.java:93-100 | shifting by s and then by t equals shifting by s + t |
| Hypervectors.PermuteFullTurn | src/main/java/hyperdimension/examples/validations/HDSequenceRepresentation.java:93-100 | shifting by the vector's length is the identity |
| Hypervectors.PermuteRestores | src/main/java/hyperdimension/examples/validations/HDSequenceRepresentation.java:93-100 | shifting by s and then by length - s restores the vector |
| Hypervectors.XorVectors | src/main/java/hyperdimension/examples/validations/HDSequenceRepresentation.java:103-110 | the result has the first vector's length and equals the component-wise XOR |
| Hypervectors.XorSelf | src/main/java/hyperdimension/examples/validations/HDSequenceRepresentation.java:103-110 | a vector XOR itself is all-false |
| Hypervectors.XorCancels | src/main/java/hyperdimension/examples/validations/HDSequenceRepresentation.java:103-110 | XOR with b twice gives back the original vector |
| Hypervectors.XorCommutes | src/main/java/hyperdimension/examples/validations/HDSequenceRepresentation.java:103-110 | XOR of equal-length vectors commutes |
| Hypervectors.XorZeros | src/main/java/hyperdimension/examples/validations/HDSequenceRepresentation.java:75-82 | XOR onto the all-false start vector gives the other operand |
| Hypervectors.AggregateVectors | src/main/java/hyperdimension/examples/validations/HDSequenceRepresentation.java:113-136 | the result has the first vector's dimension and equals the per-component majority bundle |
| Hypervectors.BundleIsStrictMajority | src/main/java/hyperdimension/examples/validations/HDSequenceRepresentation.java:130-133 | a bundled component is true exactly when more than half of the vectors are true there |
| Hypervectors.BundleTieIsFalse | src/main/java/hyperdimension/examples/validations/HDSequenceRepresentation.java:132 | an exact tie gives false |
| Hypervectors.BundleSingle | src/main/java/hyperdimension/examples/validations/HDSequenceRepresentation.java:113-136 | bundling one vector returns it unchanged |
| Hypervectors.TrueCountUnanimous | src/main/java/hyperdimension/examples/validations/HDSequenceRepresentation.java:119-127 | where the vectors agree, the true count is all of them or none |
| Hypervectors.BundleUnanimous | src/main/java/hyperdimension/examples/validations/HDSequenceRepresentation.java:113-136 | where all vectors agree, the bundle keeps their common value |
| Hypervectors.BundleAllTrue | src/main/java/hyperdimension/examples/validations/HDSequenceRepresentation.java:113-136 | bundling all-true vectors gives all-true |
| Hypervectors.BundleCopies | src/main/java/hyperdimension/examples/validations/HDSequenceRepresentation.java:113-136 | bundling copies of one vector gives that vector |
| Hypervectors.XorAllIsParity | src/main/java/hyperdimension/examples/validations/HDSequenceRepresentation.java:78-83 | a component of the accumulated XOR of a list of vectors is true exactly when an odd number of them are true there |
| Hypervectors.HammingDistance | src/main/java/hyperdimension/examples/validations/HDSequenceRepresentation.java:199-207 | the distance is at most the first vector's length and equals the number of differing components |
| Hypervectors.DistanceSymmetric | src/main/java/hyperdimension/examples/validations/HDSequenceRepresentation.java:199-207 | the distance between equal-length vectors is symmetric |
| Hypervectors.DistanceZeroIff | src/main/java/hyperdimension/examples/validations/HDSequenceRepresentation.java:199-207 | the distance between equal-length vectors is 0 exactly when they are equal |
| Hypervectors.DistanceComplement | src/main/java/hyperdimension/examples/validations/HDSequenceRepresentation.java:199-207 | a vector and its complement are at distance equal to the length |
| Encoder.EncodeWindow | src/main/java/hyperdimension/examples/validations/HDSequenceRepresentation.java:75-83 | the window vector has dimension d and is the XOR, over the offsets, of each shifted value vector bound to its position vector |
| Encoder.EncodeSequence | src/main/java/hyperdimension/examples/validations/HDSequenceRepresentation.java:67-90 | the encoding has dimension d and is the majority bundle of the vectors of all length - n + 1 windows |
| Encoder.OddTermsCountsTerms | src/main/java/hyperdimension/examples/validations/HDSequenceRepresentation.java:79-81 | a bound term is true at p exactly when the shifted value bit and the position bit differ there, so counting terms true at p counts those offsets |
| Encoder.NGramIsParity | src/main/java/hyperdimension/examples/validations/HDSequenceRepresentation.java:78-83 | a window component is true exactly when an odd number of its offsets have shifted value bit different from position bit |
| Encoder.TrueCountIsOddWindows | src/main/java/hyperdimension/examples/validations/HDSequenceRepresentation.java:74-89 | the true count of a component over the windows is the number of windows with odd parity there |
| Encoder.EncodeIsMajorityOfParities | src/main/java/hyperdimension/examples/validations/HDSequenceRepresentation.java:67-90 | an encoded component is true exactly when more than half of the windows have odd parity there |
| Encoder.EncodeSingleWindow | src/main/java/hyperdimension/examples/validations/HDSequenceRepresentation.java:67-90 | a sequence exactly n long encodes to its single window vector |
| Encoder.EncodeWithoutOffsets | src/main/java/hyperdimension/examples/validations/HDSequenceRepresentation.java:67-90 | with n <= 0 the encoding is all-false |
| Classifier.MaxLabel | src/main/java/hyperdimension/examples/validations/HDSequenceRepresentation.java:176 | the result is one of the labels and no label exceeds it |
| Classifier.InsertionPoint | src/main/java/hyperdimension/examples/validations/HDSequenceRepresentation.java:166-167 | the slots it skips are filled with neighbours no farther than the candidate; the slot it stops at is empty or strictly farther |
| Classifier.ShiftRight | src/main/java/hyperdimension/examples/validations/HDSequenceRepresentation.java:168 | slots up to j are kept; every later slot takes the old value of the slot below it |
| Classifier.InsertCandidate | src/main/java/hyperdimension/examples/validations/HDSequenceRepresentation.java:166-172 | the new slots are the old ones with the candidate inserted at its insertion point and the last slot dropped, or unchanged without an insertion point |
| Classifier.SelectNeighbours | src/main/java/hyperdimension/examples/validations/HDSequenceRepresentation.java:163-173 | the slots are those of the scan over all training vectors |
| Classifier.InsertKeepsNearestFirst | src/main/java/hyperdimension/examples/validations/HDSequenceRepresentation.java:166-172 | one scan step preserves the nearest-first invariant |
| Classifier.NeighboursStep | src/main/java/hyperdimension/examples/validations/HDSequenceRepresentation.java:165-173 | the scan of one more training vector keeps the nearest-first invariant |
| Classifier.NeighboursNearestFirst | src/main/java/hyperdimension/examples/validations/HDSequenceRepresentation.java:163-173 | after i candidates, the first min(k, i) slots hold distinct candidates in ascending (distance, index) order, every other slot is -1, and every candidate left out is farther than all of a full list |
| Classifier.CountVotes | src/main/java/hyperdimension/examples/validations/HDSequenceRepresentation.java:177-182 | the count of each label is the number of filled slots holding a neighbour with that label |
| Classifier.VotesPositive | src/main/java/hyperdimension/examples/validations/HDSequenceRepresentation.java:178-182 | a label with a vote belongs to a selected neighbour |
| Classifier.VotesOutside | src/main/java/hyperdimension/examples/validations/HDSequenceRepresentation.java:177-182 | a label outside the vote table gets no vote |
| Classifier.VotesOfSlot | src/main/java/hyperdimension/examples/validations/HDSequenceRepresentation.java:178-182 | the label of a selected neighbour has at least one vote |
| Classifier.PickLabel | src/main/java/hyperdimension/examples/validations/HDSequenceRepresentation.java:185-194 | the result is the running leader that a strictly higher count replaces |
| Classifier.LeaderIsFirstMaximum | src/main/java/hyperdimension/examples/validations/HDSequenceRepresentation.java:185-194 | the leader is -1 exactly when all counts are 0; otherwise it has the highest count, that count is positive, and every lower label has fewer votes |
| Classifier.ClassifySequence | src/main/java/hyperdimension/examples/validations/HDSequenceRepresentation.java:153-195 | the prediction is the vote winner among the k nearest training vectors |
| Classifier.ClassifyIsVoteWinner | src/main/java/hyperdimension/examples/validations/HDSequenceRepresentation.java:153-195 | the prediction is -1 exactly when k = 0 or there is no training vector; otherwise it is the lowest label with the most votes, and that count is positive |
| Classifier.ClassifyUniformLabels | src/main/java/hyperdimension/examples/validations/HDSequenceRepresentation.java:153-195 | when all labels are equal and a neighbour is selected, the prediction is that label |
| Classifier.ClassifyOneNearest | src/main/java/hyperdimension/examples/validations/HDSequenceRepresentation.java:153-195 | with k = 1 the prediction is the label of the earliest training vector at minimum distance |
| Classifier.ClassifyOwnVector | src/main/java/hyperdimension/examples/validations/HDSequenceRepresentation.java:153-195 | with k = 1 a query equal to a training vector gets that vector's label, provided every copy of it has the same label |
| Classifier.ClassifySequences | src/main/java/hyperdimension/examples/validations/HDSequenceRepresentation.java:142-148 | one prediction per query, each equal to the single-query classification |

## Left out

- `main` is not modelled. It prints to the console and computes a double-valued accuracy.
- `generateRandomVectors` and the shared `Random` are not modelled. The value and position tables are inputs.
- The constant dimension D = 10000 is the parameter `d`.
- Java's 32-bit `int` arithmetic is not modelled: `i + shift`, the counts and `maxLabel + 1` are unbounded integers. The counts overflow only with over 2^31 vectors, and `i + shift` only with a shift near 2^31. But `maxLabel + 1` overflows on a single label equal to 2^31 - 1. Java then throws NegativeArraySizeException, while `Classify` builds a vote table of 2^31 entries.
- Runtime exceptions are preconditions, not modelled error paths. These include indexes out of bounds, `getAsInt` on no labels and negative array sizes.
- Hypervectors.Permute: the shift is a `nat`. In the original, a negative shift throws on every vector of length 2 or more: Java's `%` keeps the sign, so some target index is negative (length 3, shift -3, i = 1 gives -2). On a vector of length 1 it never throws. The encoder only shifts by offsets j >= 0.
- Encoder.EncodeSequence: every table vector must have exactly dimension d. The original needs less: D <= |value vector| <= |position vector|. The binding of the permuted value vector reads the position vector up to the value vector's length, and the accumulation reads the bound vector up to D. A value vector longer than D is then permuted modulo its own length, not modulo D, which the model does not capture.
- Encoder.EncodeSequence: the window loop is split into `EncodeWindow`, and the start vector is the all-false value rather than a freshly allocated array.
- Classifier.ClassifySequence: every label must be non-negative. The original only fails on a negative label of a selected neighbour, or when the maximum label is below -1.
- Classifier.ClassifySequence: the three phases of the original's body are separate methods. These are the neighbour scan (`SelectNeighbours`, with one step in `InsertCandidate`), the vote count (`CountVotes`) and the arg-max (`PickLabel`).
- The model follows the code: with k = 0 or no training vectors it predicts -1; with n <= 0 it encodes any sequence to all-false without reading a symbol; it needs a position vector for each of the n offsets; with k larger than the training set the trailing neighbour slots stay -1.
