/**
 * The k-nearest-neighbour classifier over Hamming distance.
 *
 * The neighbour list has k slots, all empty (-1) at first. The training
 * vectors are scanned in order; each is inserted before the first slot that
 * is empty or holds a strictly farther neighbour, the slots from there on
 * moving one place up and the last one falling off. The labels of the
 * selected neighbours are then counted per label, and the lowest label with
 * the highest positive count wins; -1 stands for "no label" when no
 * neighbour was selected.
 */
module Classifier {
  import opened Hypervectors

  /** The sentinel for an empty neighbour slot, and for "no label". */
  const NONE: int := -1

  /**
   * What classification asks of its input: a non-empty list of labels (its
   * maximum sizes the vote table), one label per training vector, no negative
   * label, and no training vector longer than the query.
   */
  predicate ClassifierInput(train: seq<Hypervector>, labels: seq<int>, test: Hypervector)
  {
    && |labels| >= 1
    && |train| <= |labels|
    && (forall t :: 0 <= t < |labels| ==> labels[t] >= 0)
    && (forall t :: 0 <= t < |train| ==> |train[t]| <= |test|)
  }

  /** The Hamming distance of every training vector to the query, in training order. */
  function Distances(train: seq<Hypervector>, test: Hypervector): (ds: seq<nat>)
    requires forall t :: 0 <= t < |train| ==> |train[t]| <= |test|
    ensures |ds| == |train|
  {
    seq(|train|, t requires 0 <= t < |train| => Distance(train[t], test))
  }

  /** The largest of the first m labels. */
  function MaxLabel(labels: seq<int>, m: nat): (top: int)
    requires 1 <= m <= |labels|
    ensures exists t :: 0 <= t < m && labels[t] == top
    ensures forall t :: 0 <= t < m ==> labels[t] <= top
  {
    if m == 1 then labels[0]
    else
      var rest := MaxLabel(labels, m - 1);
      if labels[m - 1] > rest then labels[m - 1] else rest
  }

  // ---------------------------------------------------------------------------
  // Neighbour selection
  // ---------------------------------------------------------------------------

  /** Every slot is empty or holds an index below bound. */
  predicate Slots(nn: seq<int>, bound: nat)
  {
    forall t :: 0 <= t < |nn| ==> nn[t] == NONE || 0 <= nn[t] < bound
  }

  /** Candidate a is strictly nearer than b: a smaller distance, or the same distance and an earlier index. */
  predicate Nearer(ds: seq<nat>, a: int, b: int)
  {
    && 0 <= a < |ds| && 0 <= b < |ds|
    && (ds[a] < ds[b] || (ds[a] == ds[b] && a < b))
  }

  /** The first slot at or after j that is empty or holds a neighbour strictly farther than candidate i. */
  function InsertionPoint(nn: seq<int>, ds: seq<nat>, i: nat, j: nat): (p: nat)
    requires Slots(nn, |ds|) && i < |ds| && j <= |nn|
    ensures j <= p <= |nn|
    ensures forall t :: j <= t < p ==> nn[t] != NONE && ds[nn[t]] <= ds[i]
    ensures p < |nn| ==> nn[p] == NONE || ds[i] < ds[nn[p]]
    decreases |nn| - j
  {
    if j == |nn| then j
    else if nn[j] == NONE || ds[i] < ds[nn[j]] then j
    else InsertionPoint(nn, ds, i, j + 1)
  }

  /** One scan step: candidate i enters at its insertion point and the last slot falls off; with no such slot, nothing changes. */
  function Insert(nn: seq<int>, ds: seq<nat>, i: nat): (r: seq<int>)
    requires i < |ds| && Slots(nn, i)
    ensures |r| == |nn| && Slots(r, i + 1)
  {
    var p := InsertionPoint(nn, ds, i, 0);
    if p == |nn| then nn
    else seq(|nn|, t requires 0 <= t < |nn| => if t < p then nn[t] else if t == p then i else nn[t - 1])
  }

  /** The k slots after scanning the first i training vectors. */
  function Neighbours(ds: seq<nat>, k: nat, i: nat): (nn: seq<int>)
    requires i <= |ds|
    ensures |nn| == k && Slots(nn, i)
  {
    if i == 0 then seq(k, _ => NONE) else Insert(Neighbours(ds, k, i - 1), ds, i - 1)
  }

  /** The smaller of a and b. */
  function Min(a: nat, b: nat): (m: nat)
  {
    if a < b then a else b
  }

  /**
   * After scanning the first i candidates, the first min(|nn|, i) slots hold
   * distinct candidates in strictly ascending (distance, index) order, the
   * other slots are empty, and a candidate that is missing from the filled
   * slots is only missing because they are all full of nearer ones.
   */
  ghost predicate NearestFirst(nn: seq<int>, ds: seq<nat>, i: nat)
    requires i <= |ds|
  {
    var m := Min(|nn|, i);
    && (forall t :: 0 <= t < m ==> 0 <= nn[t] < i)
    && (forall t :: m <= t < |nn| ==> nn[t] == NONE)
    && (forall s, t :: 0 <= s < t < m ==> Nearer(ds, nn[s], nn[t]))
    && (forall x :: 0 <= x < i && x !in nn[..m] ==> m == |nn| && forall t :: 0 <= t < m ==> Nearer(ds, nn[t], x))
  }

  /** Where each slot of Insert's result comes from. */
  lemma InsertAt(nn: seq<int>, ds: seq<nat>, i: nat)
    requires i < |ds| && Slots(nn, i)
    ensures var p := InsertionPoint(nn, ds, i, 0);
      p < |nn| ==>
        && (forall t :: 0 <= t < p ==> Insert(nn, ds, i)[t] == nn[t])
        && Insert(nn, ds, i)[p] == i
        && (forall t :: p < t < |nn| ==> Insert(nn, ds, i)[t] == nn[t - 1])
  {
  }

  /** The insertion point never lies beyond the filled slots. */
  lemma InsertionPointInFilled(nn: seq<int>, ds: seq<nat>, i: nat)
    requires i < |ds| && Slots(nn, i) && NearestFirst(nn, ds, i)
    ensures InsertionPoint(nn, ds, i, 0) <= Min(|nn|, i)
    ensures InsertionPoint(nn, ds, i, 0) < Min(|nn|, i) ==> Nearer(ds, i, nn[InsertionPoint(nn, ds, i, 0)])
  {
    var m := Min(|nn|, i);
    assert m < |nn| ==> nn[m] == NONE;
  }

  /** A candidate that finds no insertion point changes nothing and stays out. */
  lemma InsertBeyondLast(nn: seq<int>, ds: seq<nat>, i: nat)
    requires i < |ds| && Slots(nn, i) && NearestFirst(nn, ds, i)
    requires InsertionPoint(nn, ds, i, 0) == |nn|
    ensures NearestFirst(Insert(nn, ds, i), ds, i + 1)
  {
    var k := |nn|;
    InsertionPointInFilled(nn, ds, i);
    assert Min(k, i) == k && Min(k, i + 1) == k;
    forall x | 0 <= x < i + 1 && x !in nn[..k]
      ensures forall t :: 0 <= t < k ==> Nearer(ds, nn[t], x)
    {
      if x == i {
        assert forall t :: 0 <= t < k ==> ds[nn[t]] <= ds[i] && nn[t] < i;
      }
    }
  }

  /** After an insertion the filled slots hold candidates below i + 1 and the others stay empty. */
  lemma InsertSlots(nn: seq<int>, ds: seq<nat>, i: nat)
    requires i < |ds| && Slots(nn, i) && NearestFirst(nn, ds, i)
    requires InsertionPoint(nn, ds, i, 0) < |nn|
    ensures var r, m' := Insert(nn, ds, i), Min(|nn|, i + 1);
      && (forall t :: 0 <= t < m' ==> 0 <= r[t] < i + 1)
      && (forall t :: m' <= t < |nn| ==> r[t] == NONE)
  {
    InsertionPointInFilled(nn, ds, i);
    InsertAt(nn, ds, i);
  }

  /** After an insertion the filled slots are still in strictly ascending order. */
  lemma InsertAscending(nn: seq<int>, ds: seq<nat>, i: nat)
    requires i < |ds| && Slots(nn, i) && NearestFirst(nn, ds, i)
    requires InsertionPoint(nn, ds, i, 0) < |nn|
    ensures var r, m' := Insert(nn, ds, i), Min(|nn|, i + 1);
      forall s, t :: 0 <= s < t < m' ==> Nearer(ds, r[s], r[t])
  {
    var p := InsertionPoint(nn, ds, i, 0);
    var r, m' := Insert(nn, ds, i), Min(|nn|, i + 1);
    InsertionPointInFilled(nn, ds, i);
    InsertAt(nn, ds, i);
    InsertSlots(nn, ds, i);
    forall s, t | 0 <= s < t < m'
      ensures Nearer(ds, r[s], r[t])
    {
      if s < p && t > p {
        assert Nearer(ds, nn[s], nn[t - 1]);
      } else if s == p {
        if t - 1 > p {
          assert Nearer(ds, nn[p], nn[t - 1]);
        }
      } else if s > p {
        assert Nearer(ds, nn[s - 1], nn[t - 1]);
      }
    }
  }

  /** Insertion keeps every filled neighbour except the last one of a full list. */
  lemma InsertKeepsOthers(nn: seq<int>, ds: seq<nat>, i: nat)
    requires i < |ds| && Slots(nn, i) && NearestFirst(nn, ds, i)
    requires InsertionPoint(nn, ds, i, 0) < |nn|
    ensures var r, m, m' := Insert(nn, ds, i), Min(|nn|, i), Min(|nn|, i + 1);
      && i in r[..m']
      && forall q :: 0 <= q < m && !(m == |nn| && q == |nn| - 1) ==> nn[q] in r[..m']
  {
    var k, m := |nn|, Min(|nn|, i);
    var p := InsertionPoint(nn, ds, i, 0);
    var r, m' := Insert(nn, ds, i), Min(|nn|, i + 1);
    InsertionPointInFilled(nn, ds, i);
    InsertAt(nn, ds, i);
    assert r[..m'][p] == i;
    forall q | 0 <= q < m && !(m == k && q == k - 1)
      ensures nn[q] in r[..m']
    {
      if q < p {
        assert r[..m'][q] == nn[q];
      } else {
        assert r[..m'][q + 1] == nn[q];
      }
    }
  }

  /** The neighbour evicted from a full list is farther than everything the new list holds. */
  lemma EvictedIsFarther(nn: seq<int>, ds: seq<nat>, i: nat)
    requires i < |ds| && Slots(nn, i) && NearestFirst(nn, ds, i)
    requires InsertionPoint(nn, ds, i, 0) < |nn| && Min(|nn|, i) == |nn|
    ensures forall t :: 0 <= t < |nn| ==> Nearer(ds, Insert(nn, ds, i)[t], nn[|nn| - 1])
  {
    var k := |nn|;
    var p := InsertionPoint(nn, ds, i, 0);
    var r := Insert(nn, ds, i);
    InsertionPointInFilled(nn, ds, i);
    InsertAt(nn, ds, i);
    forall t | 0 <= t < k
      ensures Nearer(ds, r[t], nn[k - 1])
    {
      if t < p {
        assert Nearer(ds, nn[t], nn[k - 1]);
      } else if t == p {
        if p < k - 1 {
          assert Nearer(ds, nn[p], nn[k - 1]);
        }
      } else {
        assert Nearer(ds, nn[t - 1], nn[k - 1]);
      }
    }
  }

  /** A candidate farther than every slot of a full list stays farther after an insertion. */
  lemma MissingStaysFarther(nn: seq<int>, ds: seq<nat>, i: nat, x: int)
    requires i < |ds| && Slots(nn, i) && NearestFirst(nn, ds, i)
    requires InsertionPoint(nn, ds, i, 0) < |nn|
    requires forall t :: 0 <= t < |nn| ==> Nearer(ds, nn[t], x)
    ensures forall t :: 0 <= t < |nn| ==> Nearer(ds, Insert(nn, ds, i)[t], x)
  {
    var p := InsertionPoint(nn, ds, i, 0);
    var r := Insert(nn, ds, i);
    InsertionPointInFilled(nn, ds, i);
    InsertAt(nn, ds, i);
    forall t | 0 <= t < |nn|
      ensures Nearer(ds, r[t], x)
    {
      if t == p {
        assert Nearer(ds, nn[p], x);
      }
    }
  }

  /** After an insertion, candidate x is only left out because the list is full of nearer ones. */
  lemma MissingAfterInsert(nn: seq<int>, ds: seq<nat>, i: nat, x: int)
    requires i < |ds| && Slots(nn, i) && NearestFirst(nn, ds, i)
    requires InsertionPoint(nn, ds, i, 0) < |nn|
    requires 0 <= x < i + 1 && x !in Insert(nn, ds, i)[..Min(|nn|, i + 1)]
    ensures Min(|nn|, i + 1) == |nn|
    ensures forall t :: 0 <= t < |nn| ==> Nearer(ds, Insert(nn, ds, i)[t], x)
  {
    var k, m := |nn|, Min(|nn|, i);
    InsertKeepsOthers(nn, ds, i);
    assert x != i;
    if x in nn[..m] {
      var q :| 0 <= q < m && nn[..m][q] == x;
      assert m == k && q == k - 1;
      EvictedIsFarther(nn, ds, i);
    } else {
      assert x < i && x !in nn[..m];
      assert m == k && forall t :: 0 <= t < m ==> Nearer(ds, nn[t], x);
      MissingStaysFarther(nn, ds, i, x);
    }
  }

  /** After an insertion, a candidate is only left out because the list is full of nearer ones. */
  lemma InsertMissing(nn: seq<int>, ds: seq<nat>, i: nat)
    requires i < |ds| && Slots(nn, i) && NearestFirst(nn, ds, i)
    requires InsertionPoint(nn, ds, i, 0) < |nn|
    ensures var r, m' := Insert(nn, ds, i), Min(|nn|, i + 1);
      forall x :: 0 <= x < i + 1 && x !in r[..m'] ==> m' == |nn| && forall t :: 0 <= t < m' ==> Nearer(ds, r[t], x)
  {
    var r, m' := Insert(nn, ds, i), Min(|nn|, i + 1);
    forall x | 0 <= x < i + 1
      ensures x !in r[..m'] ==> m' == |nn| && forall t :: 0 <= t < m' ==> Nearer(ds, r[t], x)
    {
      if x !in r[..m'] {
        MissingAfterInsert(nn, ds, i, x);
      }
    }
  }

  /** A scan step keeps the nearest-first characterization. */
  lemma InsertKeepsNearestFirst(nn: seq<int>, ds: seq<nat>, i: nat, next: seq<int>)
    requires i < |ds| && Slots(nn, i) && NearestFirst(nn, ds, i)
    requires next == Insert(nn, ds, i)
    ensures NearestFirst(next, ds, i + 1)
  {
    if InsertionPoint(nn, ds, i, 0) == |nn| {
      InsertBeyondLast(nn, ds, i);
    } else {
      InsertSlots(nn, ds, i);
      InsertAscending(nn, ds, i);
      InsertMissing(nn, ds, i);
    }
  }

  /** Before the scan every slot is empty. */
  lemma EmptyNearestFirst(ds: seq<nat>, k: nat)
    ensures NearestFirst(Neighbours(ds, k, 0), ds, 0)
  {
    assert Min(k, 0) == 0;
  }

  /** A scan step in terms of the scan: the invariant after i candidates gives it after j = i + 1. */
  lemma NeighboursStep(ds: seq<nat>, k: nat, i: nat, j: nat)
    requires i < |ds| && j == i + 1
    requires NearestFirst(Neighbours(ds, k, i), ds, i)
    ensures NearestFirst(Neighbours(ds, k, j), ds, j)
  {
    InsertKeepsNearestFirst(Neighbours(ds, k, i), ds, i, Neighbours(ds, k, j));
  }

  /**
   * The scan selects the nearest candidates: after i steps the first
   * min(k, i) slots are the candidates with the smallest (distance, index)
   * pairs, in ascending order, and every other slot is empty.
   */
  lemma {:induction false} NeighboursNearestFirst(ds: seq<nat>, k: nat, i: nat)
    requires i <= |ds|
    ensures NearestFirst(Neighbours(ds, k, i), ds, i)
  {
    if i == 0 {
      EmptyNearestFirst(ds, k);
    } else {
      NeighboursNearestFirst(ds, k, i - 1);
      NeighboursStep(ds, k, i - 1, i);
    }
  }

  /**
   * System.arraycopy(a, j, a, j + 1, a.Length - j - 1): the slots from j on
   * move one place up; slot j keeps its value and the last value is lost.
   */
  method ShiftRight(a: array<int>, j: nat)
    requires j < a.Length
    modifies a
    ensures forall t :: 0 <= t <= j ==> a[t] == old(a[t])
    ensures forall t :: j < t < a.Length ==> a[t] == old(a[t - 1])
  {
    var t := a.Length - 1;
    while t > j
      invariant j <= t < a.Length
      invariant forall s :: 0 <= s <= t ==> a[s] == old(a[s])
      invariant forall s :: t < s < a.Length ==> a[s] == old(a[s - 1])
    {
      a[t] := a[t - 1];
      t := t - 1;
    }
  }

  /** A candidate whose scan runs past the last slot leaves the slots unchanged. */
  lemma NoInsertionPoint(before: seq<int>, ds: seq<nat>, i: nat)
    requires i < |ds| && Slots(before, i)
    requires InsertionPoint(before, ds, i, 0) == InsertionPoint(before, ds, i, |before|)
    ensures Insert(before, ds, i) == before
  {
  }

  /** Shifting the slots from the insertion point up and writing i there computes Insert. */
  lemma ShiftedIsInsert(before: seq<int>, after: seq<int>, ds: seq<nat>, i: nat, j: nat)
    requires i < |ds| && Slots(before, i)
    requires j == InsertionPoint(before, ds, i, 0) && j < |before| && |after| == |before|
    requires forall t :: 0 <= t < j ==> after[t] == before[t]
    requires after[j] == i
    requires forall t :: j < t < |after| ==> after[t] == before[t - 1]
    ensures after == Insert(before, ds, i)
  {
    InsertAt(before, ds, i);
  }

  // ---------------------------------------------------------------------------
  // Voting
  // ---------------------------------------------------------------------------

  /** The number of the first m slots that hold a neighbour with the given label. */
  function Votes(nn: seq<int>, labels: seq<int>, l: int, m: nat): (c: nat)
    requires m <= |nn| && Slots(nn, |labels|)
    ensures c <= m
  {
    if m == 0 then 0
    else Votes(nn, labels, l, m - 1) + (if nn[m - 1] != NONE && labels[nn[m - 1]] == l then 1 else 0)
  }

  /** The vote table: the count of every label below size. */
  function Tally(nn: seq<int>, labels: seq<int>, size: nat): (votes: seq<nat>)
    requires Slots(nn, |labels|)
    ensures |votes| == size
  {
    seq(size, l => Votes(nn, labels, l, |nn|))
  }

  /** The running leader after scanning the first m counts, replaced only by a strictly higher count. */
  function LeaderOf(votes: seq<nat>, m: nat): (r: int)
    requires m <= |votes|
    ensures NONE <= r < m
  {
    if m == 0 then NONE
    else
      var best := LeaderOf(votes, m - 1);
      if votes[m - 1] > (if best == NONE then 0 else votes[best]) then m - 1 else best
  }

  /** The leader is the lowest index with the highest positive count, and none exactly when all counts are 0. */
  lemma {:induction false} LeaderIsFirstMaximum(votes: seq<nat>, m: nat)
    requires m <= |votes|
    ensures LeaderOf(votes, m) == NONE <==> forall l :: 0 <= l < m ==> votes[l] == 0
    ensures var r := LeaderOf(votes, m);
      r != NONE ==>
        && 0 <= r < m && votes[r] > 0
        && (forall l :: 0 <= l < m ==> votes[l] <= votes[r])
        && (forall l :: 0 <= l < r ==> votes[l] < votes[r])
  {
    if m > 0 {
      LeaderIsFirstMaximum(votes, m - 1);
    }
  }

  /** A label with a vote belongs to a selected neighbour. */
  lemma {:induction false} VotesPositive(nn: seq<int>, labels: seq<int>, l: int, m: nat)
    requires m <= |nn| && Slots(nn, |labels|)
    requires Votes(nn, labels, l, m) > 0
    ensures exists t :: 0 <= t < m && nn[t] != NONE && labels[nn[t]] == l
  {
    if Votes(nn, labels, l, m - 1) > 0 {
      VotesPositive(nn, labels, l, m - 1);
    }
  }

  /** The label of a selected neighbour has a vote. */
  lemma {:induction false} VotesOfSlot(nn: seq<int>, labels: seq<int>, t: nat, m: nat)
    requires m <= |nn| && Slots(nn, |labels|)
    requires t < m && nn[t] != NONE
    ensures Votes(nn, labels, labels[nn[t]], m) >= 1
  {
    if t < m - 1 {
      VotesOfSlot(nn, labels, t, m - 1);
    }
  }

  /** A label below 0 or at least size, where size exceeds every label, gets no vote. */
  lemma VotesOutside(nn: seq<int>, labels: seq<int>, size: int)
    requires Slots(nn, |labels|)
    requires forall t :: 0 <= t < |labels| ==> 0 <= labels[t] < size
    ensures forall l :: l < 0 || l >= size ==> Votes(nn, labels, l, |nn|) == 0
  {
    forall l | l < 0 || l >= size
      ensures Votes(nn, labels, l, |nn|) == 0
    {
      if Votes(nn, labels, l, |nn|) > 0 {
        VotesPositive(nn, labels, l, |nn|);
      }
    }
  }

  // ---------------------------------------------------------------------------
  // Classification
  // ---------------------------------------------------------------------------

  /** The predicted label of the query: the vote winner among its k nearest training vectors. */
  function Classify(train: seq<Hypervector>, labels: seq<int>, test: Hypervector, k: nat): (r: int)
    requires ClassifierInput(train, labels, test)
  {
    var nn := Neighbours(Distances(train, test), k, |train|);
    var size := MaxLabel(labels, |labels|) + 1;
    LeaderOf(Tally(nn, labels, size), size)
  }

  /**
   * The prediction is -1 exactly when no neighbour is selected (k is 0 or
   * there is no training vector); otherwise it is the lowest label whose vote
   * count among the selected neighbours is maximal, and that count is positive.
   */
  lemma ClassifyIsVoteWinner(train: seq<Hypervector>, labels: seq<int>, test: Hypervector, k: nat)
    requires ClassifierInput(train, labels, test)
    ensures Classify(train, labels, test, k) == NONE <==> k == 0 || |train| == 0
    ensures var nn := Neighbours(Distances(train, test), k, |train|);
      var r := Classify(train, labels, test, k);
      r != NONE ==>
        && r >= 0 && Votes(nn, labels, r, k) > 0
        && (forall l :: Votes(nn, labels, l, k) <= Votes(nn, labels, r, k))
        && (forall l :: l < r ==> Votes(nn, labels, l, k) < Votes(nn, labels, r, k))
  {
    var ds := Distances(train, test);
    var nn := Neighbours(ds, k, |train|);
    var top := MaxLabel(labels, |labels|);
    var size := top + 1;
    var votes := Tally(nn, labels, size);
    var r := LeaderOf(votes, size);
    LeaderIsFirstMaximum(votes, size);
    NeighboursNearestFirst(ds, k, |train|);
    VotesOutside(nn, labels, size);
    if k > 0 && |train| > 0 {
      assert nn[0] != NONE;
      VotesOfSlot(nn, labels, 0, k);
      assert votes[labels[nn[0]]] >= 1;
    } else {
      forall l | 0 <= l < size
        ensures votes[l] == 0
      {
        if Votes(nn, labels, l, k) > 0 {
          VotesPositive(nn, labels, l, k);
        }
      }
    }
    if r != NONE {
      forall l
        ensures Votes(nn, labels, l, k) <= Votes(nn, labels, r, k)
        ensures l < r ==> Votes(nn, labels, l, k) < Votes(nn, labels, r, k)
      {
        if 0 <= l < size {
          assert votes[l] == Votes(nn, labels, l, k);
        }
      }
    }
  }

  /** When every label is L and at least one neighbour is selected, the prediction is L. */
  lemma ClassifyUniformLabels(train: seq<Hypervector>, labels: seq<int>, test: Hypervector, k: nat, L: int)
    requires ClassifierInput(train, labels, test)
    requires k >= 1 && |train| >= 1
    requires forall t :: 0 <= t < |labels| ==> labels[t] == L
    ensures Classify(train, labels, test, k) == L
  {
    var nn := Neighbours(Distances(train, test), k, |train|);
    ClassifyIsVoteWinner(train, labels, test, k);
    VotesPositive(nn, labels, Classify(train, labels, test, k), k);
  }

  /**
   * With k = 1 the prediction is the label of the earliest training vector
   * at minimum distance from the query.
   */
  lemma ClassifyOneNearest(train: seq<Hypervector>, labels: seq<int>, test: Hypervector)
    requires ClassifierInput(train, labels, test) && |train| >= 1
    ensures exists s ::
      && 0 <= s < |train|
      && Classify(train, labels, test, 1) == labels[s]
      && forall x :: 0 <= x < |train| ==>
           && Distance(train[s], test) <= Distance(train[x], test)
           && (Distance(train[x], test) == Distance(train[s], test) ==> s <= x)
  {
    var ds := Distances(train, test);
    var nn := Neighbours(ds, 1, |train|);
    NeighboursNearestFirst(ds, 1, |train|);
    ClassifyIsVoteWinner(train, labels, test, 1);
    var r := Classify(train, labels, test, 1);
    VotesPositive(nn, labels, r, 1);
    var s := nn[0];
    assert r == labels[s];
    assert Min(1, |train|) == 1 && nn[..1] == [s];
    forall x | 0 <= x < |train|
      ensures Distance(train[s], test) <= Distance(train[x], test)
      ensures Distance(train[x], test) == Distance(train[s], test) ==> s <= x
    {
      if x != s {
        assert x !in nn[..1];
        assert Nearer(ds, s, x);
      }
    }
  }

  /**
   * A query equal to training vector s, classified with k = 1, gets the label
   * of s, provided every training vector equal to it carries the same label:
   * its distance 0 is the smallest there is.
   */
  lemma ClassifyOwnVector(train: seq<Hypervector>, labels: seq<int>, test: Hypervector, s: nat)
    requires ClassifierInput(train, labels, test)
    requires forall t :: 0 <= t < |train| ==> |train[t]| == |test|
    requires s < |train| && train[s] == test
    requires forall t :: 0 <= t < |train| && train[t] == test ==> labels[t] == labels[s]
    ensures Classify(train, labels, test, 1) == labels[s]
  {
    ClassifyOneNearest(train, labels, test);
    var w :| 0 <= w < |train| && Classify(train, labels, test, 1) == labels[w]
      && forall x :: 0 <= x < |train| ==> Distance(train[w], test) <= Distance(train[x], test);
    DistanceZeroIff(train[s], test);
    DistanceZeroIff(train[w], test);
  }

  // ---------------------------------------------------------------------------
  // The classifier as the original computes it
  // ---------------------------------------------------------------------------

  /**
   * One step of the neighbour scan: candidate i is written before the first
   * slot that is empty or holds a strictly farther neighbour, the slots from
   * there on first moving up by one (System.arraycopy); without such a slot
   * nothing changes.
   */
  method InsertCandidate(nearest: array<int>, distances: seq<nat>, i: nat)
    requires i < |distances| && Slots(nearest[..], i)
    modifies nearest
    ensures nearest[..] == Insert(old(nearest[..]), distances, i)
  {
    ghost var before := nearest[..];
    var k := nearest.Length;
    var j := 0;
    while j < k
      invariant 0 <= j <= k
      invariant nearest[..] == before
      invariant InsertionPoint(before, distances, i, j) == InsertionPoint(before, distances, i, 0)
    {
      if nearest[j] == NONE || distances[i] < distances[nearest[j]] {
        ShiftRight(nearest, j);
        nearest[j] := i;
        ShiftedIsInsert(before, nearest[..], distances, i, j);
        return;
      }
      j := j + 1;
    }
    NoInsertionPoint(before, distances, i);
  }

  /** The neighbour scan over all candidates, in training order, into k initially empty slots. */
  method SelectNeighbours(distances: seq<nat>, k: nat) returns (neighbours: seq<int>)
    ensures neighbours == Neighbours(distances, k, |distances|)
  {
    var nearest := new int[k](_ => NONE);
    assert nearest[..] == Neighbours(distances, k, 0);
    for i := 0 to |distances|
      invariant nearest[..] == Neighbours(distances, k, i)
    {
      InsertCandidate(nearest, distances, i);
      assert Neighbours(distances, k, i + 1) == Insert(Neighbours(distances, k, i), distances, i);
    }
    neighbours := nearest[..];
  }

  /** Counts, for every label below size, the slots that hold a neighbour with that label. */
  method CountVotes(neighbours: seq<int>, labels: seq<int>, size: nat) returns (votes: seq<nat>)
    requires Slots(neighbours, |labels|)
    requires forall t :: 0 <= t < |labels| ==> 0 <= labels[t] < size
    ensures votes == Tally(neighbours, labels, size)
  {
    var counts := new nat[size](_ => 0);
    for i := 0 to |neighbours|
      invariant forall l :: 0 <= l < size ==> counts[l] == Votes(neighbours, labels, l, i)
    {
      if neighbours[i] != NONE {
        var neighbourLabel := labels[neighbours[i]];
        counts[neighbourLabel] := counts[neighbourLabel] + 1;
      }
    }
    votes := counts[..];
  }

  /** Scans the counts in increasing label order, keeping the first strictly highest one. */
  method PickLabel(votes: seq<nat>) returns (predicted: int)
    ensures predicted == LeaderOf(votes, |votes|)
  {
    var maxVotes := 0;
    predicted := NONE;
    for i := 0 to |votes|
      invariant predicted == LeaderOf(votes, i)
      invariant maxVotes == if predicted == NONE then 0 else votes[predicted]
    {
      if votes[i] > maxVotes {
        maxVotes := votes[i];
        predicted := i;
      }
    }
  }

  /** Classifies one query by its k nearest training vectors. */
  method ClassifySequence(train: seq<Hypervector>, labels: seq<int>, test: Hypervector, k: nat)
    returns (predicted: int)
    requires ClassifierInput(train, labels, test)
    ensures predicted == Classify(train, labels, test, k)
  {
    var numTrain := |train|;
    var distances := new nat[numTrain];
    for i := 0 to numTrain
      invariant forall t :: 0 <= t < i ==> distances[t] == Distance(train[t], test)
    {
      distances[i] := HammingDistance(train[i], test);
    }
    assert distances[..] == Distances(train, test);
    var nearest := SelectNeighbours(distances[..], k);
    var maxLabel := MaxLabel(labels, |labels|);
    var votes := CountVotes(nearest, labels, maxLabel + 1);
    predicted := PickLabel(votes);
  }

  /** Classifies every query against the same training set, one label per query. */
  method ClassifySequences(train: seq<Hypervector>, labels: seq<int>, tests: seq<Hypervector>, k: nat)
    returns (predicted: seq<int>)
    requires forall i :: 0 <= i < |tests| ==> ClassifierInput(train, labels, tests[i])
    ensures |predicted| == |tests|
    ensures forall i :: 0 <= i < |tests| ==> predicted[i] == Classify(train, labels, tests[i], k)
  {
    var a := new int[|tests|];
    for i := 0 to |tests|
      invariant forall t :: 0 <= t < i ==> a[t] == Classify(train, labels, tests[t], k)
    {
      a[i] := ClassifySequence(train, labels, tests[i], k);
    }
    predicted := a[..];
  }
}
