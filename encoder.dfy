/**
 * The n-gram sequence encoder. A window of width n slides over the symbol
 * sequence; the vector of the window starting at i XOR-accumulates, for each
 * offset j, the value vector of the symbol at i + j shifted by j and bound to
 * the position vector of offset j; the window vectors are then bundled by
 * strict majority into one vector of dimension d.
 */
module Encoder {
  import opened Hypervectors

  /** Every vector of the table has dimension d. */
  predicate UniformTable(table: seq<Hypervector>, d: nat)
  {
    forall t :: 0 <= t < |table| ==> |table[t]| == d
  }

  /** Every symbol at an index in [lo, hi) is a key of a value table of the given size. */
  predicate SymbolsIn(sequence: seq<int>, lo: nat, hi: nat, numValues: nat)
    requires lo <= hi <= |sequence|
  {
    forall k :: lo <= k < hi ==> 0 <= sequence[k] < numValues
  }

  /** The number of offsets each window visits: n, or none when n is not positive. */
  function Width(n: int): (w: nat)
    ensures n > 0 ==> w == n
    ensures n <= 0 ==> w == 0
  {
    if n > 0 then n else 0
  }

  /**
   * What encoding asks of its input: at least one window (n <= |sequence|),
   * both tables of dimension d, a position vector per offset, and every
   * symbol a key of the value table whenever a window reads symbols at all.
   */
  predicate Encodable(sequence: seq<int>, values: seq<Hypervector>, positions: seq<Hypervector>, n: int, d: nat)
  {
    && n <= |sequence|
    && UniformTable(values, d)
    && UniformTable(positions, d)
    && Width(n) <= |positions|
    && (n > 0 ==> SymbolsIn(sequence, 0, |sequence|, |values|))
  }

  /**
   * The window starting at i can read its first m offsets: they lie inside
   * the sequence, each has a position vector and each symbol is a key of the
   * value table. A window that reads no offset reads nothing, wherever it starts.
   */
  predicate Readable(sequence: seq<int>, values: seq<Hypervector>, positions: seq<Hypervector>, i: nat, m: nat)
  {
    m == 0 || (i + m <= |sequence| && m <= |positions| && SymbolsIn(sequence, i, i + m, |values|))
  }

  /** Under the encoding precondition, every window reads only what exists. */
  lemma WindowReadable(sequence: seq<int>, values: seq<Hypervector>, positions: seq<Hypervector>, n: int, d: nat, i: nat, m: nat)
    requires Encodable(sequence, values, positions, n, d)
    requires i < |sequence| - n + 1 && m <= Width(n)
    ensures Readable(sequence, values, positions, i, m)
  {
  }

  /** The offset-j term of the window starting at i: the shifted value vector bound to the position vector. */
  function Term(sequence: seq<int>, values: seq<Hypervector>, positions: seq<Hypervector>, d: nat, i: nat, j: nat): (r: Hypervector)
    requires UniformTable(values, d) && UniformTable(positions, d)
    requires i + j < |sequence| && j < |positions| && 0 <= sequence[i + j] < |values|
    ensures |r| == d
  {
    Xor(Permuted(values[sequence[i + j]], j), positions[j])
  }

  /** The terms of the first m offsets of the window starting at i. */
  function Terms(sequence: seq<int>, values: seq<Hypervector>, positions: seq<Hypervector>, d: nat, i: nat, m: nat): (ts: seq<Hypervector>)
    requires UniformTable(values, d) && UniformTable(positions, d)
    requires Readable(sequence, values, positions, i, m)
    ensures |ts| == m && UniformTable(ts, d)
  {
    seq(m, j requires 0 <= j < m => Term(sequence, values, positions, d, i, j))
  }

  /** The vector of the window starting at i over its first m offsets: its terms XOR-accumulated onto all-false. */
  function NGram(sequence: seq<int>, values: seq<Hypervector>, positions: seq<Hypervector>, d: nat, i: nat, m: nat): (r: Hypervector)
    requires UniformTable(values, d) && UniformTable(positions, d)
    requires Readable(sequence, values, positions, i, m)
    ensures |r| == d
  {
    XorAll(Terms(sequence, values, positions, d, i, m), d, m)
  }

  /** The vectors of all |sequence| - n + 1 windows, in order. */
  function Windows(sequence: seq<int>, values: seq<Hypervector>, positions: seq<Hypervector>, n: int, d: nat): (ws: seq<Hypervector>)
    requires Encodable(sequence, values, positions, n, d)
    ensures |ws| == |sequence| - n + 1
    ensures forall i :: 0 <= i < |ws| ==> |ws[i]| == d
  {
    seq(|sequence| - n + 1, i requires 0 <= i < |sequence| - n + 1 => NGram(sequence, values, positions, d, i, Width(n)))
  }

  /** The encoded sequence: the strict-majority bundle of its window vectors. */
  function Encode(sequence: seq<int>, values: seq<Hypervector>, positions: seq<Hypervector>, n: int, d: nat): (r: Hypervector)
    requires Encodable(sequence, values, positions, n, d)
    ensures |r| == d
  {
    Bundle(Windows(sequence, values, positions, n, d))
  }

  // ---------------------------------------------------------------------------
  // What the encoding means
  // ---------------------------------------------------------------------------

  /**
   * The number of offsets j < m at which, in component p, the value vector of
   * the symbol at i + j shifted by j differs from the position vector of offset j.
   */
  function OddTerms(sequence: seq<int>, values: seq<Hypervector>, positions: seq<Hypervector>, d: nat, i: nat, p: nat, m: nat): (c: nat)
    requires UniformTable(values, d) && UniformTable(positions, d) && p < d
    requires Readable(sequence, values, positions, i, m)
    ensures c <= m
  {
    if m == 0 then 0
    else
      assert Readable(sequence, values, positions, i, m - 1);
      OddTerms(sequence, values, positions, d, i, p, m - 1)
      + (if Permuted(values[sequence[i + m - 1]], m - 1)[p] != positions[m - 1][p] then 1 else 0)
  }

  /** Among the first m of the terms of a window, the count of those true at p is OddTerms. */
  lemma {:induction false} OddTermsCountsTerms(sequence: seq<int>, values: seq<Hypervector>, positions: seq<Hypervector>, d: nat, i: nat, p: nat, m: nat, total: nat)
    requires UniformTable(values, d) && UniformTable(positions, d) && p < d
    requires Readable(sequence, values, positions, i, total) && m <= total
    ensures Readable(sequence, values, positions, i, m) && HasComponent(Terms(sequence, values, positions, d, i, total), p)
    ensures TrueCount(Terms(sequence, values, positions, d, i, total), p, m) == OddTerms(sequence, values, positions, d, i, p, m)
  {
    if m > 0 {
      OddTermsCountsTerms(sequence, values, positions, d, i, p, m - 1, total);
      var ts := Terms(sequence, values, positions, d, i, total);
      assert ts[m - 1] == Term(sequence, values, positions, d, i, m - 1);
    }
  }

  /** Component p of a window vector is the parity of its contributing bits. */
  lemma NGramIsParity(sequence: seq<int>, values: seq<Hypervector>, positions: seq<Hypervector>, d: nat, i: nat, p: nat, m: nat)
    requires UniformTable(values, d) && UniformTable(positions, d) && p < d
    requires Readable(sequence, values, positions, i, m)
    ensures NGram(sequence, values, positions, d, i, m)[p] <==> OddTerms(sequence, values, positions, d, i, p, m) % 2 == 1
  {
    var ts := Terms(sequence, values, positions, d, i, m);
    XorAllIsParity(ts, d, p, m);
    OddTermsCountsTerms(sequence, values, positions, d, i, p, m, m);
  }

  /** The number of windows among the first c whose component p has odd parity. */
  function OddWindows(sequence: seq<int>, values: seq<Hypervector>, positions: seq<Hypervector>, n: int, d: nat, p: nat, c: nat): (w: nat)
    requires Encodable(sequence, values, positions, n, d) && p < d && c <= |sequence| - n + 1
    ensures w <= c
  {
    if c == 0 then 0
    else
      OddWindows(sequence, values, positions, n, d, p, c - 1)
      + (if OddTerms(sequence, values, positions, d, c - 1, p, Width(n)) % 2 == 1 then 1 else 0)
  }

  lemma {:induction false} TrueCountIsOddWindows(sequence: seq<int>, values: seq<Hypervector>, positions: seq<Hypervector>, n: int, d: nat, p: nat, c: nat)
    requires Encodable(sequence, values, positions, n, d) && p < d && c <= |sequence| - n + 1
    ensures HasComponent(Windows(sequence, values, positions, n, d), p)
    ensures TrueCount(Windows(sequence, values, positions, n, d), p, c) == OddWindows(sequence, values, positions, n, d, p, c)
  {
    if c > 0 {
      TrueCountIsOddWindows(sequence, values, positions, n, d, p, c - 1);
      WindowReadable(sequence, values, positions, n, d, c - 1, Width(n));
      NGramIsParity(sequence, values, positions, d, c - 1, p, Width(n));
      var ws := Windows(sequence, values, positions, n, d);
      assert ws[c - 1] == NGram(sequence, values, positions, d, c - 1, Width(n));
    }
  }

  /**
   * Component p of the encoding is true exactly when strictly more than half
   * of the windows have odd parity of their contributing bits at p.
   */
  lemma EncodeIsMajorityOfParities(sequence: seq<int>, values: seq<Hypervector>, positions: seq<Hypervector>, n: int, d: nat, p: nat)
    requires Encodable(sequence, values, positions, n, d) && p < d
    ensures Encode(sequence, values, positions, n, d)[p]
        <==> 2 * OddWindows(sequence, values, positions, n, d, p, |sequence| - n + 1) > |sequence| - n + 1
  {
    var ws := Windows(sequence, values, positions, n, d);
    TrueCountIsOddWindows(sequence, values, positions, n, d, p, |ws|);
    BundleIsStrictMajority(ws, p);
  }

  /** A sequence exactly n long has a single window, which bundling passes through unchanged. */
  lemma EncodeSingleWindow(sequence: seq<int>, values: seq<Hypervector>, positions: seq<Hypervector>, n: int, d: nat)
    requires Encodable(sequence, values, positions, n, d) && |sequence| == n
    ensures Encode(sequence, values, positions, n, d) == NGram(sequence, values, positions, d, 0, Width(n))
  {
    var ws := Windows(sequence, values, positions, n, d);
    assert ws == [ws[0]];
    BundleSingle(ws[0]);
  }

  /** With no offsets to visit, every window is all-false and so is the encoding. */
  lemma EncodeWithoutOffsets(sequence: seq<int>, values: seq<Hypervector>, positions: seq<Hypervector>, n: int, d: nat)
    requires Encodable(sequence, values, positions, n, d) && n <= 0
    ensures Encode(sequence, values, positions, n, d) == Zeros(d)
  {
    BundleCopies(Windows(sequence, values, positions, n, d), Zeros(d));
  }

  // ---------------------------------------------------------------------------
  // The encoder as the original computes it
  // ---------------------------------------------------------------------------

  /**
   * The vector of the window starting at i over its first m offsets: the XOR,
   * over each offset j, of the value vector of the symbol at i + j shifted by
   * j and bound to the position vector of offset j, accumulated onto all-false.
   */
  method EncodeWindow(sequence: seq<int>, values: seq<Hypervector>, positions: seq<Hypervector>, d: nat, i: nat, m: nat)
    returns (nGramVector: Hypervector)
    requires UniformTable(values, d) && UniformTable(positions, d)
    requires Readable(sequence, values, positions, i, m)
    ensures |nGramVector| == d
    ensures nGramVector == NGram(sequence, values, positions, d, i, m)
  {
    ghost var terms := Terms(sequence, values, positions, d, i, m);
    nGramVector := Zeros(d);
    for j := 0 to m
      invariant nGramVector == XorAll(terms, d, j)
    {
      var permutedValueVector := Permute(values[sequence[i + j]], j);
      var positionVector := positions[j];
      var combinedVector := XorVectors(permutedValueVector, positionVector);
      assert combinedVector == terms[j];
      nGramVector := XorVectors(nGramVector, combinedVector);
    }
  }

  /**
   * Encodes a sequence: one vector per window, built by XOR-accumulating the
   * bound terms of its offsets, then bundled by strict majority.
   */
  method EncodeSequence(sequence: seq<int>, values: seq<Hypervector>, positions: seq<Hypervector>, n: int, d: nat)
    returns (encoded: Hypervector)
    requires Encodable(sequence, values, positions, n, d)
    ensures |encoded| == d
    ensures encoded == Encode(sequence, values, positions, n, d)
  {
    var length := |sequence|;
    var numGrams := length - n + 1;
    var nGrams := new Hypervector[numGrams];
    for i := 0 to numGrams
      invariant forall t :: 0 <= t < i ==> nGrams[t] == Windows(sequence, values, positions, n, d)[t]
    {
      WindowReadable(sequence, values, positions, n, d, i, Width(n));
      nGrams[i] := EncodeWindow(sequence, values, positions, d, i, Width(n));
    }
    assert nGrams[..] == Windows(sequence, values, positions, n, d);
    encoded := AggregateVectors(nGrams[..]);
  }
}
