/**
 * Binary hypervectors and the four primitives the encoder and the classifier
 * are built from: the cyclic-shift permutation, XOR binding, strict-majority
 * bundling and the Hamming distance.
 *
 * Each primitive is a pure specification function together with the method
 * that computes it as the original does, by a loop writing into a freshly
 * allocated array; the method's postcondition ties its result to the
 * function, and the lemmas state what the function means.
 */
module Hypervectors {

  /** A hypervector: an ordered sequence of boolean components. */
  type Hypervector = seq<bool>

  /** The all-false hypervector of dimension d. */
  function Zeros(d: nat): (r: Hypervector)
    ensures |r| == d
    ensures forall p :: 0 <= p < d ==> !r[p]
  {
    seq(d, _ => false)
  }

  // ---------------------------------------------------------------------------
  // Euclidean remainders
  // ---------------------------------------------------------------------------

  /** Multiplication distributes over subtraction. */
  lemma MulSub(q: int, q': int, L: int)
    ensures (q - q') * L == q * L - q' * L
  {
  }

  /** A positive multiple of a positive L is at least L. */
  lemma MulAtLeast(c: int, L: int)
    requires c >= 1 && L > 0
    ensures c * L >= L
  {
  }

  /** A remainder is determined by any decomposition a == q * L + r with 0 <= r < L. */
  lemma ModUnique(a: int, L: int, q: int, r: int)
    requires L > 0 && 0 <= r < L && a == q * L + r
    ensures a % L == r
  {
    var q', r' := a / L, a % L;
    assert a == q' * L + r';
    MulSub(q, q', L);
    if q' < q {
      MulAtLeast(q - q', L);
    } else if q' > q {
      MulSub(q', q, L);
      MulAtLeast(q' - q, L);
    }
  }

  /** Adding y after reducing x modulo L gives the same remainder as adding it before. */
  lemma ModAdd(x: int, y: int, L: int)
    requires L > 0
    ensures (x % L + y) % L == (x + y) % L
  {
    var q, w := x / L, x % L + y;
    var s, r := w / L, w % L;
    assert x == q * L + x % L;
    assert w == s * L + r;
    ModUnique(x + y, L, q + s, r);
  }

  // ---------------------------------------------------------------------------
  // Permutation (cyclic shift)
  // ---------------------------------------------------------------------------

  /** One rotation step: every component moves one index up, the last wraps around to index 0. */
  function RotateOnce(v: Hypervector): (r: Hypervector)
    ensures |r| == |v|
  {
    if |v| == 0 then v else [v[|v| - 1]] + v[..|v| - 1]
  }

  /** The cyclic shift by `shift`: `shift` rotation steps. */
  function Permuted(v: Hypervector, shift: nat): (r: Hypervector)
    ensures |r| == |v|
  {
    if shift == 0 then v else RotateOnce(Permuted(v, shift - 1))
  }

  /** Stepping back one index cyclically and then shift - 1 more is stepping back shift indices. */
  lemma StepBack(p: int, shift: int, L: int)
    requires 0 <= p < L && shift >= 1
    ensures ((if p == 0 then L - 1 else p - 1) - (shift - 1)) % L == (p - shift) % L
  {
    var q := if p == 0 then L - 1 else p - 1;
    if p == 0 {
      ModUnique(p - 1, L, -1, q);
    } else {
      ModUnique(p - 1, L, 0, q);
    }
    ModAdd(p - 1, -(shift - 1), L);
  }

  /** The index reached from p by stepping back cyclically `shift` times, within [0, L). */
  function Back(p: int, shift: nat, L: int): (r: int)
    requires 0 <= p < L
    ensures 0 <= r < L
    decreases shift
  {
    if shift == 0 then p else Back(if p == 0 then L - 1 else p - 1, shift - 1, L)
  }

  /** Stepping back `shift` times is subtracting `shift` modulo L. */
  lemma {:induction false} BackIsMod(p: int, shift: nat, L: int)
    requires 0 <= p < L
    ensures Back(p, shift, L) == (p - shift) % L
    decreases shift
  {
    if shift == 0 {
      ModUnique(p, L, 0, p);
    } else {
      var q := if p == 0 then L - 1 else p - 1;
      BackIsMod(q, shift - 1, L);
      StepBack(p, shift, L);
    }
  }

  /** Each rotation step takes index p from the index just below it, cyclically. */
  lemma {:induction false} PermutedBack(v: Hypervector, shift: nat, p: int)
    requires 0 <= p < |v|
    ensures Permuted(v, shift)[p] == v[Back(p, shift, |v|)]
  {
    if shift > 0 {
      var q := if p == 0 then |v| - 1 else p - 1;
      assert Permuted(v, shift)[p] == Permuted(v, shift - 1)[q];
      PermutedBack(v, shift - 1, q);
    }
  }

  /** Index p of the vector shifted by `shift` holds index (p - shift) mod |v| of the original. */
  lemma PermutedIndex(v: Hypervector, shift: nat, p: int)
    requires 0 <= p < |v|
    ensures Permuted(v, shift)[p] == v[(p - shift) % |v|]
  {
    PermutedBack(v, shift, p);
    BackIsMod(p, shift, |v|);
  }

  /** Component i of v lands at index (i + shift) mod |v| of the shifted vector. */
  lemma PermutedAt(v: Hypervector, shift: nat, i: int)
    requires 0 <= i < |v|
    ensures Permuted(v, shift)[(i + shift) % |v|] == v[i]
  {
    PermutedIndex(v, shift, (i + shift) % |v|);
    ModAdd(i + shift, -(shift as int), |v|);
    ModUnique(i, |v|, 0, i);
  }

  /** Two different components never land on the same index. */
  lemma ShiftInjective(i: int, j: int, shift: nat, L: int)
    requires 0 <= i < L && 0 <= j < L
    requires (i + shift) % L == (j + shift) % L
    ensures i == j
  {
    ModAdd(i + shift, -(shift as int), L);
    ModAdd(j + shift, -(shift as int), L);
    ModUnique(i, L, 0, i);
    ModUnique(j, L, 0, j);
  }

  /** Shifting by 0 is the identity. */
  lemma PermuteZero(v: Hypervector)
    ensures Permuted(v, 0) == v
  {
  }

  /** Shifting by s and then by t is shifting by s + t. */
  lemma {:induction false} PermuteCompose(v: Hypervector, s: nat, t: nat)
    ensures Permuted(Permuted(v, s), t) == Permuted(v, s + t)
  {
    if t > 0 {
      PermuteCompose(v, s, t - 1);
    }
  }

  /** Shifting by the full length is the identity. */
  lemma PermuteFullTurn(v: Hypervector)
    ensures Permuted(v, |v|) == v
  {
    forall p | 0 <= p < |v|
      ensures Permuted(v, |v|)[p] == v[p]
    {
      PermutedIndex(v, |v|, p);
      ModUnique(p - |v|, |v|, -1, p);
    }
  }

  /** Shifting by s and then by |v| - s restores the original vector. */
  lemma PermuteRestores(v: Hypervector, s: nat)
    requires s <= |v|
    ensures Permuted(Permuted(v, s), |v| - s) == v
  {
    PermuteCompose(v, s, |v| - s);
    PermuteFullTurn(v);
  }

  /** The index that component i of a vector of the given length moves to. */
  function Target(i: int, shift: nat, length: int): (p: int)
    requires length > 0
    ensures 0 <= p < length
  {
    (i + shift) % length
  }

  /** Components written before index i occupy slots other than the slot of i. */
  lemma TargetsDistinct(i: int, shift: nat, length: int)
    requires 0 <= i < length
    ensures forall t :: 0 <= t < i ==> Target(t, shift, length) != Target(i, shift, length)
  {
    forall t | 0 <= t < i
      ensures Target(t, shift, length) != Target(i, shift, length)
    {
      if Target(t, shift, length) == Target(i, shift, length) {
        ShiftInjective(t, i, shift, length);
      }
    }
  }

  /** A vector that holds each component i of v at its target index is the shifted v. */
  lemma ScatteredIsPermuted(a: Hypervector, v: Hypervector, shift: nat)
    requires |a| == |v|
    requires forall i :: 0 <= i < |v| ==> a[Target(i, shift, |v|)] == v[i]
    ensures a == Permuted(v, shift)
  {
    forall p | 0 <= p < |v|
      ensures a[p] == Permuted(v, shift)[p]
    {
      var i := (p - shift) % |v|;
      PermutedIndex(v, shift, p);
      ModAdd(p - shift, shift, |v|);
      ModUnique(p, |v|, 0, p);
      assert Target(i, shift, |v|) == p;
    }
  }

  /**
   * The permutation as the original computes it: each component i is written
   * to index (i + shift) % length of a fresh array.
   */
  method Permute(vector: Hypervector, shift: nat) returns (permuted: Hypervector)
    ensures |permuted| == |vector|
    ensures forall i :: 0 <= i < |vector| ==> permuted[(i + shift) % |vector|] == vector[i]
    ensures permuted == Permuted(vector, shift)
  {
    var length := |vector|;
    var a := new bool[length];
    for i := 0 to length
      invariant forall t :: 0 <= t < i ==> a[Target(t, shift, length)] == vector[t]
    {
      TargetsDistinct(i, shift, length);
      a[(i + shift) % length] := vector[i];
    }
    permuted := a[..];
    ScatteredIsPermuted(permuted, vector, shift);
  }

  // ---------------------------------------------------------------------------
  // Binding (XOR)
  // ---------------------------------------------------------------------------

  /**
   * Binding: component-wise exclusive or. The result has the length of the
   * first operand; the second is read only up to that length.
   */
  function Xor(a: Hypervector, b: Hypervector): (r: Hypervector)
    requires |a| <= |b|
    ensures |r| == |a|
  {
    seq(|a|, i requires 0 <= i < |a| => a[i] != b[i])
  }

  /** Binding a vector with itself gives the all-false vector. */
  lemma XorSelf(a: Hypervector)
    ensures Xor(a, a) == Zeros(|a|)
  {
  }

  /** Binding is self-inverse: binding with b twice gives back a. */
  lemma XorCancels(a: Hypervector, b: Hypervector)
    requires |a| <= |b|
    ensures Xor(Xor(a, b), b) == a
  {
  }

  /** Binding is commutative on vectors of equal length. */
  lemma XorCommutes(a: Hypervector, b: Hypervector)
    requires |a| == |b|
    ensures Xor(a, b) == Xor(b, a)
  {
  }

  /** The all-false vector is the identity of binding. */
  lemma XorZeros(a: Hypervector)
    ensures Xor(Zeros(|a|), a) == a
  {
  }

  /** Component-wise XOR into a fresh array of the first operand's length. */
  method XorVectors(vector1: Hypervector, vector2: Hypervector) returns (result: Hypervector)
    requires |vector1| <= |vector2|
    ensures |result| == |vector1|
    ensures result == Xor(vector1, vector2)
  {
    var length := |vector1|;
    var a := new bool[length];
    for i := 0 to length
      invariant forall t :: 0 <= t < i ==> a[t] == (vector1[t] != vector2[t])
    {
      a[i] := vector1[i] != vector2[i];
    }
    result := a[..];
  }

  // ---------------------------------------------------------------------------
  // Bundling (strict majority)
  // ---------------------------------------------------------------------------

  /** True when component p exists in every vector of vs. */
  ghost predicate HasComponent(vs: seq<Hypervector>, p: nat)
  {
    forall t :: 0 <= t < |vs| ==> p < |vs[t]|
  }

  /** The number of vectors among the first m of vs whose component p is true. */
  function TrueCount(vs: seq<Hypervector>, p: nat, m: nat): (c: nat)
    requires m <= |vs| && HasComponent(vs, p)
    ensures c <= m
  {
    if m == 0 then 0 else TrueCount(vs, p, m - 1) + (if vs[m - 1][p] then 1 else 0)
  }

  /**
   * What bundling asks of its input: at least one vector (the first fixes the
   * dimension) and no vector shorter than the first.
   */
  predicate Bundleable(vs: seq<Hypervector>)
  {
    |vs| >= 1 && forall t :: 0 <= t < |vs| ==> |vs[0]| <= |vs[t]|
  }

  /**
   * Bundling: component p of the result is true when the number of true
   * components there exceeds half the number of vectors, halved with integer
   * division.
   */
  function Bundle(vs: seq<Hypervector>): (r: Hypervector)
    requires Bundleable(vs)
    ensures |r| == |vs[0]|
  {
    seq(|vs[0]|, p requires 0 <= p < |vs[0]| => TrueCount(vs, p, |vs|) > |vs| / 2)
  }

  /** A component is true exactly when strictly more than half of the vectors are true there. */
  lemma BundleIsStrictMajority(vs: seq<Hypervector>, p: nat)
    requires Bundleable(vs) && p < |vs[0]|
    ensures Bundle(vs)[p] <==> 2 * TrueCount(vs, p, |vs|) > |vs|
  {
  }

  /** An exact half-and-half split resolves to false. */
  lemma BundleTieIsFalse(vs: seq<Hypervector>, p: nat)
    requires Bundleable(vs) && p < |vs[0]|
    requires 2 * TrueCount(vs, p, |vs|) == |vs|
    ensures !Bundle(vs)[p]
  {
  }

  /** Bundling a single vector returns it unchanged. */
  lemma BundleSingle(v: Hypervector)
    ensures Bundleable([v]) && Bundle([v]) == v
  {
  }

  /** When the first m vectors agree at p, the count there is all or nothing. */
  lemma {:induction false} TrueCountUnanimous(vs: seq<Hypervector>, p: nat, m: nat, b: bool)
    requires m <= |vs| && HasComponent(vs, p)
    requires forall t :: 0 <= t < m ==> vs[t][p] == b
    ensures TrueCount(vs, p, m) == if b then m else 0
  {
    if m > 0 {
      TrueCountUnanimous(vs, p, m - 1, b);
    }
  }

  /** Where all vectors agree, bundling keeps their common value. */
  lemma BundleUnanimous(vs: seq<Hypervector>, p: nat, b: bool)
    requires Bundleable(vs) && p < |vs[0]|
    requires forall t :: 0 <= t < |vs| ==> vs[t][p] == b
    ensures Bundle(vs)[p] == b
  {
    TrueCountUnanimous(vs, p, |vs|, b);
  }

  /** Bundling all-true vectors gives the all-true vector. */
  lemma BundleAllTrue(vs: seq<Hypervector>)
    requires Bundleable(vs)
    requires forall t, p :: 0 <= t < |vs| && 0 <= p < |vs[t]| ==> vs[t][p]
    ensures forall p :: 0 <= p < |vs[0]| ==> Bundle(vs)[p]
  {
    forall p | 0 <= p < |vs[0]|
      ensures Bundle(vs)[p]
    {
      BundleUnanimous(vs, p, true);
    }
  }

  /** Bundling copies of one vector gives that vector. */
  lemma BundleCopies(vs: seq<Hypervector>, v: Hypervector)
    requires |vs| >= 1 && forall t :: 0 <= t < |vs| ==> vs[t] == v
    ensures Bundleable(vs) && Bundle(vs) == v
  {
    forall p | 0 <= p < |v|
      ensures Bundle(vs)[p] == v[p]
    {
      BundleUnanimous(vs, p, v[p]);
    }
  }

  /**
   * Bundling as the original computes it: first the true count of every
   * component, then the majority decision per component.
   */
  method AggregateVectors(vectors: seq<Hypervector>) returns (aggregated: Hypervector)
    requires Bundleable(vectors)
    ensures |aggregated| == |vectors[0]|
    ensures aggregated == Bundle(vectors)
  {
    var dimension := |vectors[0]|;
    var numVectors := |vectors|;
    var trueCounts := new nat[dimension];
    for i := 0 to dimension
      invariant forall p :: 0 <= p < i ==> trueCounts[p] == TrueCount(vectors, p, numVectors)
    {
      var count := 0;
      for t := 0 to numVectors
        invariant count == TrueCount(vectors, i, t)
      {
        if vectors[t][i] {
          count := count + 1;
        }
      }
      trueCounts[i] := count;
    }
    var a := new bool[dimension];
    for i := 0 to dimension
      modifies a
      invariant forall p :: 0 <= p < i ==> a[p] == (trueCounts[p] > numVectors / 2)
    {
      a[i] := trueCounts[i] > numVectors / 2;
    }
    aggregated := a[..];
  }

  // ---------------------------------------------------------------------------
  // Accumulated binding
  // ---------------------------------------------------------------------------

  /** The XOR of the first m vectors of vs, accumulated onto the all-false vector of dimension d. */
  function XorAll(vs: seq<Hypervector>, d: nat, m: nat): (r: Hypervector)
    requires m <= |vs| && forall t :: 0 <= t < |vs| ==> |vs[t]| == d
    ensures |r| == d
  {
    if m == 0 then Zeros(d) else Xor(XorAll(vs, d, m - 1), vs[m - 1])
  }

  /** Adding one bit flips the parity of a count exactly when the bit is set. */
  lemma ParityStep(c: nat, b: bool)
    ensures ((c + (if b then 1 else 0)) % 2 == 1) == ((c % 2 == 1) != b)
  {
  }

  /** Component p of an accumulated XOR is true exactly when an odd number of the vectors are true there. */
  lemma {:induction false} XorAllIsParity(vs: seq<Hypervector>, d: nat, p: nat, m: nat)
    requires m <= |vs| && forall t :: 0 <= t < |vs| ==> |vs[t]| == d
    requires p < d
    ensures HasComponent(vs, p)
    ensures XorAll(vs, d, m)[p] <==> TrueCount(vs, p, m) % 2 == 1
  {
    if m > 0 {
      XorAllIsParity(vs, d, p, m - 1);
      ParityStep(TrueCount(vs, p, m - 1), vs[m - 1][p]);
    }
  }

  // ---------------------------------------------------------------------------
  // Hamming distance
  // ---------------------------------------------------------------------------

  /** The number of indices below m at which a and b differ. */
  function Mismatches(a: Hypervector, b: Hypervector, m: nat): (c: nat)
    requires m <= |a| && m <= |b|
    ensures c <= m
  {
    if m == 0 then 0 else Mismatches(a, b, m - 1) + (if a[m - 1] != b[m - 1] then 1 else 0)
  }

  /** The Hamming distance, counted over the components of the first vector. */
  function Distance(a: Hypervector, b: Hypervector): (d: nat)
    requires |a| <= |b|
    ensures d <= |a|
  {
    Mismatches(a, b, |a|)
  }

  lemma {:induction false} MismatchesSymmetric(a: Hypervector, b: Hypervector, m: nat)
    requires m <= |a| && m <= |b|
    ensures Mismatches(a, b, m) == Mismatches(b, a, m)
  {
    if m > 0 {
      MismatchesSymmetric(a, b, m - 1);
    }
  }

  lemma {:induction false} MismatchesZero(a: Hypervector, b: Hypervector, m: nat)
    requires m <= |a| && m <= |b|
    ensures Mismatches(a, b, m) == 0 <==> forall i :: 0 <= i < m ==> a[i] == b[i]
  {
    if m > 0 {
      MismatchesZero(a, b, m - 1);
    }
  }

  lemma {:induction false} MismatchesAll(a: Hypervector, b: Hypervector, m: nat)
    requires m <= |a| && m <= |b|
    requires forall i :: 0 <= i < m ==> a[i] != b[i]
    ensures Mismatches(a, b, m) == m
  {
    if m > 0 {
      MismatchesAll(a, b, m - 1);
    }
  }

  /** The distance is symmetric on vectors of equal length. */
  lemma DistanceSymmetric(a: Hypervector, b: Hypervector)
    requires |a| == |b|
    ensures Distance(a, b) == Distance(b, a)
  {
    MismatchesSymmetric(a, b, |a|);
  }

  /** The distance between vectors of equal length is 0 exactly when they are identical. */
  lemma DistanceZeroIff(a: Hypervector, b: Hypervector)
    requires |a| == |b|
    ensures Distance(a, b) == 0 <==> a == b
  {
    MismatchesZero(a, b, |a|);
  }

  /** A vector and its complement are at the largest possible distance, the length. */
  lemma DistanceComplement(a: Hypervector, b: Hypervector)
    requires |a| == |b|
    requires forall i :: 0 <= i < |a| ==> b[i] == !a[i]
    ensures Distance(a, b) == |a|
  {
    MismatchesAll(a, b, |a|);
  }

  /** The Hamming distance as the original counts it, over the first vector's components. */
  method HammingDistance(vector1: Hypervector, vector2: Hypervector) returns (distance: nat)
    requires |vector1| <= |vector2|
    ensures distance <= |vector1|
    ensures distance == Distance(vector1, vector2)
  {
    distance := 0;
    for i := 0 to |vector1|
      invariant distance == Mismatches(vector1, vector2, i)
    {
      if vector1[i] != vector2[i] {
        distance := distance + 1;
      }
    }
  }
}
