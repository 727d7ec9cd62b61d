/** querier/querier.c: ranking the documents of a query (`page_rank`), with
    the merge sort (`mergeSort`, `merge`) that orders the `scores` array
    ascending and moves the parallel `idxs` array (docIDs) in lockstep. */
module Ranker {

  /** A (score, docID) pair: one slot of `scores` with the same slot of `idxs`. */
  type Entry = (int, int)

  /** The pairs the two parallel arrays hold, slot by slot. */
  function Zip(s: seq<int>, x: seq<int>): (z: seq<Entry>)
    requires |s| == |x|
    ensures |z| == |s| && forall k :: 0 <= k < |z| ==> z[k] == (s[k], x[k])
  {
    seq(|s|, k requires 0 <= k < |s| => (s[k], x[k]))
  }

  // ---------------------------------------------------------------------------
  // The sort on values

  /** `merge` on values: repeatedly takes the smaller head, the left one on a
      tie (`L[i] <= R[j]`), then copies what is left. */
  function Merge(a: seq<Entry>, b: seq<Entry>): (r: seq<Entry>)
    ensures |r| == |a| + |b|
    decreases |a| + |b|
  {
    if a == [] then b
    else if b == [] then a
    else if a[0].0 <= b[0].0 then [a[0]] + Merge(a[1..], b)
    else [b[0]] + Merge(a, b[1..])
  }

  /** `mergeSort` on values: a segment of at most one entry is left as it is;
      a longer one is split after its first (n + 1) / 2 entries (slots l..m
      with `m = l + (r - l) / 2`), both parts are sorted, and they are merged. */
  function Sort(s: seq<Entry>): (q: seq<Entry>)
    ensures |q| == |s|
    decreases |s|, 1
  {
    if |s| <= 1 then s else SortHalves(s)
  }

  /** The recursive case of `mergeSort`: the merge of the two sorted parts. */
  function SortHalves(s: seq<Entry>): (q: seq<Entry>)
    requires |s| > 1
    ensures |q| == |s|
    decreases |s|, 0
  {
    Merge(Sort(s[..(|s| + 1) / 2]), Sort(s[(|s| + 1) / 2..]))
  }

  predicate SortedByScore(s: seq<Entry>) {
    forall i, j :: 0 <= i < j < |s| ==> s[i].0 <= s[j].0
  }

  /** The entries of score `v`, in their order in `s`. */
  function Filter(s: seq<Entry>, v: int): seq<Entry> {
    if s == [] then [] else (if s[0].0 == v then [s[0]] else []) + Filter(s[1..], v)
  }

  /** Strictly before in the order (score, docID). */
  predicate Before(a: Entry, b: Entry) {
    a.0 < b.0 || (a.0 == b.0 && a.1 < b.1)
  }

  predicate LexSorted(s: seq<Entry>) {
    forall i, j :: 0 <= i < j < |s| ==> Before(s[i], s[j])
  }

  /** The docIDs are consecutive from `c` on, as `page_rank` numbers the
      documents (from 1). */
  predicate IdsFrom(s: seq<Entry>, c: int) {
    forall i :: 0 <= i < |s| ==> s[i].1 == c + i
  }

  /** Merging loses and invents nothing. */
  lemma {:induction false} MergePerm(a: seq<Entry>, b: seq<Entry>)
    ensures multiset(Merge(a, b)) == multiset(a) + multiset(b)
    decreases |a| + |b|
  {
    if a != [] && b != [] {
      if a[0].0 <= b[0].0 {
        MergePerm(a[1..], b);
        assert Merge(a, b) == [a[0]] + Merge(a[1..], b);
        assert a == [a[0]] + a[1..];
      } else {
        MergePerm(a, b[1..]);
        assert Merge(a, b) == [b[0]] + Merge(a, b[1..]);
        assert b == [b[0]] + b[1..];
      }
    }
  }

  /** Every entry of a sorted sequence scores at least its head. */
  lemma HeadIsLeast(s: seq<Entry>, x: Entry)
    requires SortedByScore(s) && s != [] && x in s
    ensures s[0].0 <= x.0
  {
    var k :| 0 <= k < |s| && s[k] == x;
  }

  lemma SortedCons(h: Entry, s: seq<Entry>)
    requires SortedByScore(s)
    requires forall x :: x in s ==> h.0 <= x.0
    ensures SortedByScore([h] + s)
  {
    var r := [h] + s;
    forall i, j | 0 <= i < j < |r| ensures r[i].0 <= r[j].0 {
      if i == 0 {
        assert r[j] == s[j - 1] && r[j] in s;
      } else {
        assert r[i] == s[i - 1] && r[j] == s[j - 1];
      }
    }
  }

  lemma SortedTail(s: seq<Entry>)
    requires SortedByScore(s) && s != []
    ensures SortedByScore(s[1..])
  {
  }

  /** Merging two sorted sequences gives a sorted sequence. */
  lemma {:induction false} MergeSorted(a: seq<Entry>, b: seq<Entry>)
    requires SortedByScore(a) && SortedByScore(b)
    ensures SortedByScore(Merge(a, b))
    decreases |a| + |b|
  {
    if a != [] && b != [] {
      if a[0].0 <= b[0].0 {
        SortedTail(a);
        MergeSorted(a[1..], b);
        var rest := Merge(a[1..], b);
        MergePerm(a[1..], b);
        forall x | x in rest ensures a[0].0 <= x.0 {
          assert x in multiset(rest);
          if x in a[1..] {
            HeadIsLeast(a, x);
          } else {
            HeadIsLeast(b, x);
          }
        }
        SortedCons(a[0], rest);
      } else {
        SortedTail(b);
        MergeSorted(a, b[1..]);
        var rest := Merge(a, b[1..]);
        MergePerm(a, b[1..]);
        forall x | x in rest ensures b[0].0 <= x.0 {
          assert x in multiset(rest);
          if x in a {
            HeadIsLeast(a, x);
          } else {
            HeadIsLeast(b, x);
          }
        }
        SortedCons(b[0], rest);
      }
    }
  }

  lemma {:induction false} FilterAppend(x: seq<Entry>, y: seq<Entry>, v: int)
    ensures Filter(x + y, v) == Filter(x, v) + Filter(y, v)
    decreases |x|
  {
    if x == [] {
      assert x + y == y;
    } else {
      var h := if x[0].0 == v then [x[0]] else [];
      assert (x + y)[0] == x[0] && (x + y)[1..] == x[1..] + y;
      assert Filter(x + y, v) == h + Filter(x[1..] + y, v);
      FilterAppend(x[1..], y, v);
      assert Filter(x, v) == h + Filter(x[1..], v);
      assert h + (Filter(x[1..], v) + Filter(y, v)) == (h + Filter(x[1..], v)) + Filter(y, v);
    }
  }

  /** A sorted sequence whose head scores above `v` has no entry of score `v`. */
  lemma {:induction false} FilterAboveHead(s: seq<Entry>, v: int)
    requires SortedByScore(s) && s != [] && v < s[0].0
    ensures Filter(s, v) == []
    decreases |s|
  {
    if |s| > 1 {
      SortedTail(s);
      FilterAboveHead(s[1..], v);
    }
  }

  /** The merge is stable: among equal scores the left input's entries come
      first, each side in its own order. */
  lemma {:induction false} MergeFilter(a: seq<Entry>, b: seq<Entry>, v: int)
    requires SortedByScore(a)
    ensures Filter(Merge(a, b), v) == Filter(a, v) + Filter(b, v)
    decreases |a| + |b|
  {
    if a == [] {
    } else if b == [] {
    } else if a[0].0 <= b[0].0 {
      SortedTail(a);
      MergeFilter(a[1..], b, v);
      assert Merge(a, b)[1..] == Merge(a[1..], b);
    } else {
      MergeFilter(a, b[1..], v);
      assert Merge(a, b)[1..] == Merge(a, b[1..]);
      if b[0].0 == v {
        FilterAboveHead(a, v);
      }
    }
  }

  /** The entries of a sequence are those of its two parts. */
  lemma SplitMultiset(s: seq<Entry>, h: int)
    requires 0 <= h <= |s|
    ensures multiset(s) == multiset(s[..h]) + multiset(s[h..])
  {
    assert s == s[..h] + s[h..];
  }

  /** The sort is a permutation of its input. */
  lemma {:induction false} SortPerm(s: seq<Entry>)
    ensures multiset(Sort(s)) == multiset(s)
  {
    if |s| > 1 {
      var h := (|s| + 1) / 2;
      SortPerm(s[..h]);
      SortPerm(s[h..]);
      MergePerm(Sort(s[..h]), Sort(s[h..]));
      SplitMultiset(s, h);
    }
  }

  /** The sort orders its input by score. */
  lemma {:induction false} SortSorted(s: seq<Entry>)
    ensures SortedByScore(Sort(s))
  {
    if |s| > 1 {
      var h := (|s| + 1) / 2;
      SortSorted(s[..h]);
      SortSorted(s[h..]);
      MergeSorted(Sort(s[..h]), Sort(s[h..]));
    }
  }

  /** The sort is stable: the entries of each score keep their relative order. */
  lemma {:induction false} SortStable(s: seq<Entry>, v: int)
    ensures Filter(Sort(s), v) == Filter(s, v)
  {
    if |s| > 1 {
      var h := (|s| + 1) / 2;
      var a, b := s[..h], s[h..];
      SortStable(a, v);
      SortStable(b, v);
      SortSorted(a);
      SortParts(s, a, b);
      assert a + b == s;
      StableStep(s, a, b, Sort(a), Sort(b), v);
    }
  }

  /** One merge step of the stability proof, over plain sequences. */
  lemma StableStep(s: seq<Entry>, a: seq<Entry>, b: seq<Entry>, qa: seq<Entry>, qb: seq<Entry>, v: int)
    requires s == a + b && SortedByScore(qa)
    requires Filter(qa, v) == Filter(a, v) && Filter(qb, v) == Filter(b, v)
    ensures Filter(Merge(qa, qb), v) == Filter(s, v)
  {
    MergeFilter(qa, qb, v);
    FilterAppend(a, b, v);
  }

  lemma LexCons(h: Entry, s: seq<Entry>)
    requires LexSorted(s)
    requires forall x :: x in s ==> Before(h, x)
    ensures LexSorted([h] + s)
  {
    var r := [h] + s;
    forall i, j | 0 <= i < j < |r| ensures Before(r[i], r[j]) {
      if i == 0 {
        assert r[j] == s[j - 1] && r[j] in s;
      } else {
        assert r[i] == s[i - 1] && r[j] == s[j - 1];
      }
    }
  }

  lemma LexHead(s: seq<Entry>, x: Entry)
    requires LexSorted(s) && s != [] && x in s && x != s[0]
    ensures Before(s[0], x)
  {
    var k :| 0 <= k < |s| && s[k] == x;
  }

  /** Merging two (score, docID)-sorted sequences whose docIDs on the left are
      all below those on the right gives a (score, docID)-sorted sequence:
      the left wins the ties, and its docIDs are the smaller. */
  lemma {:induction false} MergeLex(a: seq<Entry>, b: seq<Entry>)
    requires LexSorted(a) && LexSorted(b)
    requires forall x, y :: x in a && y in b ==> x.1 < y.1
    ensures LexSorted(Merge(a, b))
    decreases |a| + |b|
  {
    if a != [] && b != [] {
      if a[0].0 <= b[0].0 {
        MergeLex(a[1..], b);
        LeftHeadFirst(a, b);
        LexCons(a[0], Merge(a[1..], b));
      } else {
        MergeLex(a, b[1..]);
        RightHeadFirst(a, b);
        LexCons(b[0], Merge(a, b[1..]));
      }
    }
  }

  /** When the merge takes the left head, it comes before all that follows. */
  lemma LeftHeadFirst(a: seq<Entry>, b: seq<Entry>)
    requires LexSorted(a) && LexSorted(b) && a != [] && b != [] && a[0].0 <= b[0].0
    requires forall x, y :: x in a && y in b ==> x.1 < y.1
    ensures forall x :: x in Merge(a[1..], b) ==> Before(a[0], x)
  {
    var rest := Merge(a[1..], b);
    MergePerm(a[1..], b);
    forall x | x in rest ensures Before(a[0], x) {
      assert x in multiset(rest);
      if x in a[1..] {
        var k :| 0 <= k < |a[1..]| && a[1..][k] == x;
        assert a[k + 1] == x;
      } else if x != b[0] {
        LexHead(b, x);
      }
    }
  }

  /** When the merge takes the right head, it comes before all that follows. */
  lemma RightHeadFirst(a: seq<Entry>, b: seq<Entry>)
    requires LexSorted(a) && LexSorted(b) && a != [] && b != [] && b[0].0 < a[0].0
    ensures forall x :: x in Merge(a, b[1..]) ==> Before(b[0], x)
  {
    var rest := Merge(a, b[1..]);
    MergePerm(a, b[1..]);
    forall x | x in rest ensures Before(b[0], x) {
      assert x in multiset(rest);
      if x in a {
        if x != a[0] {
          LexHead(a, x);
        }
      } else {
        var k :| 0 <= k < |b[1..]| && b[1..][k] == x;
        assert b[k + 1] == x;
      }
    }
  }

  /** A rearrangement of `h` entries numbered from `c` holds docIDs c..c + h - 1 only. */
  lemma IdsWithin(A: seq<Entry>, s: seq<Entry>, c: int)
    requires IdsFrom(s, c) && multiset(A) == multiset(s)
    ensures forall x :: x in A ==> c <= x.1 < c + |s|
  {
    forall x | x in A ensures c <= x.1 < c + |s| {
      assert x in multiset(A);
      assert x in s;
      var k :| 0 <= k < |s| && s[k] == x;
    }
  }

  /** With docIDs numbered consecutively before the sort (as `page_rank` sets
      them up), the sort orders by score and, among equal scores, by docID. */
  lemma {:induction false} SortLex(s: seq<Entry>, c: int)
    requires IdsFrom(s, c)
    ensures LexSorted(Sort(s))
  {
    if |s| > 1 {
      var h := (|s| + 1) / 2;
      SortLex(s[..h], c);
      SortLex(s[h..], c + h);
      SortPerm(s[..h]);
      SortPerm(s[h..]);
      IdsWithin(Sort(s[..h]), s[..h], c);
      IdsWithin(Sort(s[h..]), s[h..], c + h);
      MergeLex(Sort(s[..h]), Sort(s[h..]));
    }
  }

  // ---------------------------------------------------------------------------
  // The sort on the two arrays

  /** The pairs the two arrays hold, slot by slot. */
  function Pairs(scores: array<int>, idxs: array<int>): seq<Entry>
    reads scores, idxs
    requires scores.Length == idxs.Length
  {
    Zip(scores[..], idxs[..])
  }

  /** One step of the merge loop, on the remaining parts of the inputs. */
  lemma MergeUnfold(a: seq<Entry>, b: seq<Entry>, i: nat, j: nat)
    requires i <= |a| && j <= |b|
    ensures i < |a| && j < |b| ==>
      Merge(a[i..], b[j..]) == if a[i].0 <= b[j].0 then [a[i]] + Merge(a[i + 1..], b[j..])
                               else [b[j]] + Merge(a[i..], b[j + 1..])
    ensures i < |a| && j == |b| ==> Merge(a[i..], b[j..]) == [a[i]] + Merge(a[i + 1..], b[j..])
    ensures i == |a| && j < |b| ==> Merge(a[i..], b[j..]) == [b[j]] + Merge(a[i..], b[j + 1..])
  {
    if i < |a| {
      assert a[i..][0] == a[i] && a[i..][1..] == a[i + 1..];
    }
    if j < |b| {
      assert b[j..][0] == b[j] && b[j..][1..] == b[j + 1..];
    }
  }

  lemma TakeHead(M: seq<Entry>, p: nat, x: Entry, rest: seq<Entry>)
    requires p <= |M| && M[p..] == [x] + rest
    ensures p < |M| && M[p] == x && M[p + 1..] == rest
  {
    assert M[p..][0] == M[p] && M[p..][1..] == M[p + 1..];
  }

  /** The merge loop's step on values: the entry written next is the smaller
      head (the left one on a tie), and what remains to write is the merge of
      what remains. */
  lemma MergeAdvance(a: seq<Entry>, b: seq<Entry>, M: seq<Entry>, i0: nat, j0: nat, i: nat, j: nat)
    requires |M| == |a| + |b| && i0 <= |a| && j0 <= |b|
    requires M[i0 + j0..] == Merge(a[i0..], b[j0..])
    requires (i == i0 + 1 && j == j0 && i0 < |a| && (j0 == |b| || a[i0].0 <= b[j0].0)) ||
             (i == i0 && j == j0 + 1 && j0 < |b| && (i0 == |a| || b[j0].0 < a[i0].0))
    ensures i <= |a| && j <= |b| && i0 + j0 < |M|
    ensures M[i0 + j0] == if i == i0 + 1 then a[i0] else b[j0]
    ensures M[i + j..] == Merge(a[i..], b[j..])
  {
    MergeUnfold(a, b, i0, j0);
    if i == i0 + 1 {
      TakeHead(M, i0 + j0, a[i0], Merge(a[i..], b[j..]));
    } else {
      TakeHead(M, i0 + j0, b[j0], Merge(a[i..], b[j..]));
    }
  }

  /** `merge(scores, l, m, r, idxs)`: copies both halves to the temporary
      arrays L/L2 and R/R2, then writes their merge back into slots l..r. */
  method MergeHalves(scores: array<int>, l: int, m: int, r: int, idxs: array<int>)
    requires scores != idxs && scores.Length == idxs.Length
    requires 0 <= l <= m < r < scores.Length
    modifies scores, idxs
    ensures Pairs(scores, idxs)[l..r + 1] == Merge(old(Pairs(scores, idxs))[l..m + 1], old(Pairs(scores, idxs))[m + 1..r + 1])
    ensures SameOutside(old(Pairs(scores, idxs)), Pairs(scores, idxs), l, r)
  {
    ghost var P := Pairs(scores, idxs);
    var len1 := m - l + 1;
    var len2 := r - m;
    var L, L2 := CopyOut(scores, idxs, l, len1);
    var R, R2 := CopyOut(scores, idxs, m + 1, len2);
    ghost var a, b := P[l..m + 1], P[m + 1..r + 1];
    MergeBack(scores, idxs, l, r, L, L2, R, R2, a, b);
    SegmentOf(Pairs(scores, idxs), Merge(a, b), l, r);
  }

  /** A sequence that agrees with `M` slot by slot on l..r holds `M` there. */
  lemma SegmentOf(Q: seq<Entry>, M: seq<Entry>, l: int, r: int)
    requires 0 <= l <= r + 1 <= |Q| && |M| == r + 1 - l
    requires forall t :: l <= t <= r ==> Q[t] == M[t - l]
    ensures Q[l..r + 1] == M
  {
  }

  /** The copy loops of `merge`: fresh temporary arrays holding `len` slots
      of the two arrays from slot `from` on. */
  method CopyOut(scores: array<int>, idxs: array<int>, from: int, len: int) returns (A: array<int>, A2: array<int>)
    requires scores.Length == idxs.Length
    requires 0 <= from && 0 <= len && from + len <= scores.Length
    ensures fresh(A) && fresh(A2) && A.Length == A2.Length == len
    ensures forall t :: 0 <= t < len ==> (A[t], A2[t]) == Pairs(scores, idxs)[from + t]
  {
    A := new int[len];
    A2 := new int[len];
    var i := 0;
    while i < len
      invariant 0 <= i <= len
      invariant forall t :: 0 <= t < i ==> A[t] == scores[from + t] && A2[t] == idxs[from + t]
    {
      A[i] := scores[from + i];
      A2[i] := idxs[from + i];
      i := i + 1;
    }
  }

  /** `Q` agrees with `P` on every slot outside l..r. */
  predicate SameOutside(P: seq<Entry>, Q: seq<Entry>, l: int, r: int) {
    |P| == |Q| && forall t :: 0 <= t < |P| && !(l <= t <= r) ==> Q[t] == P[t]
  }

  /** Q is P with slots l..r (both included) sorted by `Sort` and every
      other slot unchanged. */
  predicate SortedSegment(P: seq<Entry>, Q: seq<Entry>, l: int, r: int) {
    SameOutside(P, Q, l, r) && 0 <= l <= r + 1 <= |P| && Q[l..r + 1] == Sort(P[l..r + 1])
  }

  /** The three merge loops of `merge`: while both halves have entries, the
      smaller head goes to slot k (the left one on a tie); then the rest of
      the left half, then the rest of the right half. */
  method MergeBack(scores: array<int>, idxs: array<int>, l: int, r: int,
                   L: array<int>, L2: array<int>, R: array<int>, R2: array<int>,
                   ghost a: seq<Entry>, ghost b: seq<Entry>)
    requires scores != idxs && scores.Length == idxs.Length
    requires {L, L2, R, R2} !! {scores, idxs}
    requires L.Length == L2.Length == |a| && R.Length == R2.Length == |b|
    requires 0 <= l && r == l + |a| + |b| - 1 && r < scores.Length
    requires forall t :: 0 <= t < |a| ==> (L[t], L2[t]) == a[t]
    requires forall t :: 0 <= t < |b| ==> (R[t], R2[t]) == b[t]
    modifies scores, idxs
    ensures forall t :: l <= t <= r ==> (scores[t], idxs[t]) == Merge(a, b)[t - l]
    ensures forall t :: 0 <= t < scores.Length && !(l <= t <= r) ==> scores[t] == old(scores[t]) && idxs[t] == old(idxs[t])
  {
    var i, j, k := MergeHeads(scores, idxs, l, r, L, L2, R, R2, a, b);
    // one half is used up: what is left to write is the rest of the other
    ghost var M := Merge(a, b);
    assert M[k - l..] == a[i..] + b[j..] by {
      if i == L.Length {
        assert a[i..] == [];
      } else {
        assert b[j..] == [];
      }
    }
    i, k := CopyTail(scores, idxs, L, L2, a, i, l, k, M, b[j..]);
    assert b[j..] == b[j..] + [];
    j, k := CopyTail(scores, idxs, R, R2, b, j, l, k, M, []);
  }

  /** The first merge loop of `merge`: while both halves have entries, the
      smaller head goes to slot k, the left one on a tie. */
  method MergeHeads(scores: array<int>, idxs: array<int>, l: int, r: int,
                    L: array<int>, L2: array<int>, R: array<int>, R2: array<int>,
                    ghost a: seq<Entry>, ghost b: seq<Entry>)
    returns (i: int, j: int, k: int)
    requires scores != idxs && scores.Length == idxs.Length
    requires {L, L2, R, R2} !! {scores, idxs}
    requires L.Length == L2.Length == |a| && R.Length == R2.Length == |b|
    requires 0 <= l && r == l + |a| + |b| - 1 && r < scores.Length
    requires forall t :: 0 <= t < |a| ==> (L[t], L2[t]) == a[t]
    requires forall t :: 0 <= t < |b| ==> (R[t], R2[t]) == b[t]
    modifies scores, idxs
    ensures 0 <= i <= |a| && 0 <= j <= |b| && (i == |a| || j == |b|) && k == l + i + j
    ensures Merge(a, b)[i + j..] == Merge(a[i..], b[j..])
    ensures forall t :: l <= t < k ==> (scores[t], idxs[t]) == Merge(a, b)[t - l]
    ensures forall t :: 0 <= t < scores.Length && !(l <= t < k) ==> scores[t] == old(scores[t]) && idxs[t] == old(idxs[t])
  {
    ghost var M := Merge(a, b);
    var len1, len2 := L.Length, R.Length;
    i, j, k := 0, 0, l;
    while i < len1 && j < len2
      invariant 0 <= i <= len1 && 0 <= j <= len2 && k == l + i + j
      invariant M[i + j..] == Merge(a[i..], b[j..])
      invariant forall t :: l <= t < k ==> (scores[t], idxs[t]) == M[t - l]
      invariant forall t :: 0 <= t < scores.Length && !(l <= t < k) ==> scores[t] == old(scores[t]) && idxs[t] == old(idxs[t])
    {
      ghost var i0, j0 := i, j;
      assert a[i] == (L[i], L2[i]) && b[j] == (R[j], R2[j]);
      if L[i] <= R[j] {
        scores[k] := L[i];
        idxs[k] := L2[i];
        i := i + 1;
      } else {
        scores[k] := R[j];
        idxs[k] := R2[j];
        j := j + 1;
      }
      k := k + 1;
      MergeAdvance(a, b, M, i0, j0, i, j);
    }
  }

  /** The last two loops of `merge`: copies slots i0.. of a temporary array
      pair (holding `c`) into the slots from k0 on, where the merge `M` of
      slots l.. continues with the rest of `c` and then `rest`; no slot
      outside k0..k changes. */
  method CopyTail(scores: array<int>, idxs: array<int>, A: array<int>, A2: array<int>, ghost c: seq<Entry>,
                  i0: int, ghost l: int, k0: int, ghost M: seq<Entry>, ghost rest: seq<Entry>)
    returns (i: int, k: int)
    requires scores != idxs && {A, A2} !! {scores, idxs} && scores.Length == idxs.Length
    requires A.Length == A2.Length == |c| && 0 <= i0 <= |c|
    requires forall t :: 0 <= t < |c| ==> (A[t], A2[t]) == c[t]
    requires 0 <= l <= k0 <= l + |M| && l + |M| <= scores.Length
    requires M[k0 - l..] == c[i0..] + rest
    requires forall t :: l <= t < k0 ==> (scores[t], idxs[t]) == M[t - l]
    modifies scores, idxs
    ensures i == |c| && k == k0 + |c| - i0 && k <= l + |M|
    ensures M[k - l..] == rest
    ensures forall t :: l <= t < k ==> (scores[t], idxs[t]) == M[t - l]
    ensures forall t :: 0 <= t < scores.Length && !(k0 <= t < k) ==> scores[t] == old(scores[t]) && idxs[t] == old(idxs[t])
  {
    i, k := i0, k0;
    while i < A.Length
      invariant i0 <= i <= |c| && k == k0 + i - i0 && k <= l + |M|
      invariant M[k - l..] == c[i..] + rest
      invariant forall t :: l <= t < k ==> (scores[t], idxs[t]) == M[t - l]
      invariant forall t :: 0 <= t < scores.Length && !(k0 <= t < k) ==> scores[t] == old(scores[t]) && idxs[t] == old(idxs[t])
    {
      ConsTail(c, i, rest);
      TakeHead(M, k - l, c[i], c[i + 1..] + rest);
      scores[k] := A[i];
      idxs[k] := A2[i];
      k, i := k + 1, i + 1;
    }
    assert c[i..] == [];
  }

  lemma ConsTail(c: seq<Entry>, i: nat, rest: seq<Entry>)
    requires i < |c|
    ensures c[i..] + rest == [c[i]] + (c[i + 1..] + rest)
  {
    assert c[i..] == [c[i]] + c[i + 1..];
  }


  /** The recursive step of `mergeSort` on values: sorting both halves in
      place and merging them sorts the whole segment, and slots outside it
      never change. */
  lemma SortStep(P0: seq<Entry>, P1: seq<Entry>, P2: seq<Entry>, P3: seq<Entry>, l: nat, m: nat, r: nat)
    requires l <= m < r < |P0| && m == l + (r - l) / 2
    requires SortedSegment(P0, P1, l, m) && SortedSegment(P1, P2, m + 1, r)
    requires SameOutside(P2, P3, l, r) && P3[l..r + 1] == Merge(P2[l..m + 1], P2[m + 1..r + 1])
    ensures SortedSegment(P0, P3, l, r)
  {
    SliceOutside(P0, P1, l, m, m + 1, r + 1);
    SliceOutside(P1, P2, m + 1, r, l, m + 1);
    MergedHalves(P3[l..r + 1], P2[l..m + 1], P2[m + 1..r + 1], P1[l..m + 1], P1[m + 1..r + 1], P0[l..m + 1], P0[m + 1..r + 1]);
    SortSplit(P0, l, m, r);
  }

  /** The segment holds the merge of the sorted halves of the original. */
  lemma MergedHalves(x: seq<Entry>, a2: seq<Entry>, b2: seq<Entry>, a1: seq<Entry>, b1: seq<Entry>, a0: seq<Entry>, b0: seq<Entry>)
    requires x == Merge(a2, b2) && a2 == a1 && a1 == Sort(a0) && b2 == Sort(b1) && b1 == b0
    ensures x == Merge(Sort(a0), Sort(b0))
  {
  }

  /** The sort of slots l..r splits where `mergeSort` does. */
  lemma SortSplit(P: seq<Entry>, l: nat, m: nat, r: nat)
    requires l <= m < r < |P| && m == l + (r - l) / 2
    ensures Sort(P[l..r + 1]) == Merge(Sort(P[l..m + 1]), Sort(P[m + 1..r + 1]))
  {
    SegmentHalves(P, l, m, r);
    SortParts(P[l..r + 1], P[l..m + 1], P[m + 1..r + 1]);
  }

  /** Slots l..m and m + 1..r are the two parts the sort splits slots l..r into. */
  lemma SegmentHalves(P: seq<Entry>, l: nat, m: nat, r: nat)
    requires l <= m < r < |P| && m == l + (r - l) / 2
    ensures P[l..r + 1][..(r + 2 - l) / 2] == P[l..m + 1]
    ensures P[l..r + 1][(r + 2 - l) / 2..] == P[m + 1..r + 1]
  {
  }

  /** One step of the sort's recursion, on the parts it splits into. */
  lemma SortParts(s: seq<Entry>, a: seq<Entry>, b: seq<Entry>)
    requires |s| > 1 && a == s[..(|s| + 1) / 2] && b == s[(|s| + 1) / 2..]
    ensures Sort(s) == Merge(Sort(a), Sort(b))
  {
  }

  /** A slice that lies outside l..r is the same in both sequences. */
  lemma SliceOutside(P: seq<Entry>, Q: seq<Entry>, l: int, r: int, a: nat, b: nat)
    requires SameOutside(P, Q, l, r) && a <= b <= |P|
    requires b <= l || r < a
    ensures Q[a..b] == P[a..b]
  {
    assert forall t :: 0 <= t < b - a ==> Q[a..b][t] == Q[a + t] && P[a..b][t] == P[a + t];
  }

  /** `mergeSort(scores, l, r, idxs)`: sorts slots l..r (both included) by
      score, moving the docIDs along; slots outside l..r are untouched. */
  method MergeSort(scores: array<int>, l: int, r: int, idxs: array<int>)
    requires scores != idxs && scores.Length == idxs.Length
    requires 0 <= l <= r + 1 <= scores.Length
    modifies scores, idxs
    ensures SortedSegment(old(Pairs(scores, idxs)), Pairs(scores, idxs), l, r)
    decreases r - l
  {
    if l < r {
      var m := l + (r - l) / 2;
      ghost var P0 := Pairs(scores, idxs);
      MergeSort(scores, l, m, idxs);
      ghost var P1 := Pairs(scores, idxs);
      MergeSort(scores, m + 1, r, idxs);
      ghost var P2 := Pairs(scores, idxs);
      MergeHalves(scores, l, m, r, idxs);
      SortStep(P0, P1, P2, Pairs(scores, idxs), l, m, r);
    }
  }

  // ---------------------------------------------------------------------------
  // page_rank

  /** What `page_rank` shows: "No documents match", or the (score, docID)
      pairs it prints, in order. */
  datatype Ranking = NoMatch | Ranked(entries: seq<Entry>)

  /** The docIDs `page_rank` puts in `idxs` before sorting: 1, 2, ..., n. */
  function Iota(n: nat): (r: seq<int>)
    ensures |r| == n && forall k :: 0 <= k < n ==> r[k] == k + 1
  {
    seq(n, k requires 0 <= k < n => k + 1)
  }

  /** The printing loop: from slot `i` down, while the score is positive. */
  function Walk(q: seq<Entry>, i: int): (r: seq<Entry>)
    requires i < |q|
    decreases i + 1
  {
    if i < 0 || q[i].0 <= 0 then [] else [q[i]] + Walk(q, i - 1)
  }

  /** The (score, docID) pairs of `page_rank` before the sort. */
  function Numbered(s: seq<int>): (z: seq<Entry>)
    ensures |z| == |s| && forall d :: 0 <= d < |s| ==> z[d] == (s[d], d + 1)
  {
    Zip(s, Iota(|s|))
  }

  /** The pairs after `mergeSort(scores, 0, size - 1, idxs)`. */
  function SortedPairs(s: seq<int>): (q: seq<Entry>)
    ensures |q| == |s|
  {
    Sort(Numbered(s))
  }

  /** `page_rank` on values: "No documents match" when there are no
      documents or the top score after the sort is 0; otherwise the entries
      from the top down while the score is positive. */
  function Rank(s: seq<int>): Ranking {
    var q := SortedPairs(s);
    if |s| == 0 || q[|s| - 1].0 == 0 then NoMatch else Ranked(Walk(q, |s| - 1))
  }

  /** The sorted pairs are the numbered scores, rearranged in (score, docID)
      order. */
  lemma SortedPairsSpec(s: seq<int>)
    ensures multiset(SortedPairs(s)) == multiset(Numbered(s))
    ensures SortedByScore(SortedPairs(s)) && LexSorted(SortedPairs(s))
  {
    var z := Numbered(s);
    SortPerm(z);
    SortSorted(z);
    SortLex(z, 1);
  }

  /** The walk takes the slots i, i - 1, ... while their score is positive;
      on a sorted sequence, those are all the positive slots up to `i`. */
  lemma {:induction false} WalkSpec(q: seq<Entry>, i: int)
    requires -1 <= i < |q| && SortedByScore(q)
    ensures |Walk(q, i)| <= i + 1
    ensures forall t :: 0 <= t < |Walk(q, i)| ==> Walk(q, i)[t] == q[i - t] && q[i - t].0 > 0
    ensures forall k :: 0 <= k <= i && q[k].0 > 0 ==> i - k < |Walk(q, i)|
    decreases i + 1
  {
    if i >= 0 && q[i].0 > 0 {
      WalkSpec(q, i - 1);
      var w := Walk(q, i - 1);
      assert Walk(q, i) == [q[i]] + w;
      forall t | 0 <= t < |w| + 1 ensures ([q[i]] + w)[t] == q[i - t] && q[i - t].0 > 0 {
        if t > 0 {
          assert ([q[i]] + w)[t] == w[t - 1];
        }
      }
      assert |Walk(q, i)| == |w| + 1;
      forall k | 0 <= k <= i && q[k].0 > 0 ensures i - k < |Walk(q, i)| {
        if k < i {
          assert i - 1 - k < |w|;
        }
      }
    } else if i >= 0 {
      assert Walk(q, i) == [];
      forall k | 0 <= k <= i ensures q[k].0 <= 0 {
        assert q[k].0 <= q[i].0;
      }
    }
  }

  /** The largest score after the sort is the largest score. */
  lemma TopIsMax(s: seq<int>)
    requires |s| > 0
    ensures var top := SortedPairs(s)[|s| - 1].0;
      (exists d :: 0 <= d < |s| && s[d] == top) && forall d :: 0 <= d < |s| ==> s[d] <= top
  {
    var z := Numbered(s);
    var q := SortedPairs(s);
    SortedPairsSpec(s);
    var n := |s| - 1;
    assert q[n] in multiset(z);
    var top :| 0 <= top < |s| && z[top] == q[n];
    forall d | 0 <= d < |s| ensures s[d] <= q[n].0 {
      assert z[d] in multiset(q);
      var k :| 0 <= k < |q| && q[k] == z[d];
    }
  }

  /** `page_rank` says "No documents match" exactly when there are no
      documents or the largest score is 0. */
  lemma RankNoMatch(s: seq<int>)
    ensures Rank(s).NoMatch? <==>
      |s| == 0 || ((exists d :: 0 <= d < |s| && s[d] == 0) && forall d :: 0 <= d < |s| ==> s[d] <= 0)
  {
    if |s| > 0 {
      TopIsMax(s);
    }
  }

  /** Otherwise `page_rank` prints from the highest score down, equal scores
      from the highest docID down. */
  lemma RankOrder(s: seq<int>)
    requires Rank(s).Ranked?
    ensures forall i, j :: 0 <= i < j < |Rank(s).entries| ==> Before(Rank(s).entries[j], Rank(s).entries[i])
  {
    var q := SortedPairs(s);
    var n := |s| - 1;
    var w := Walk(q, n);
    assert Rank(s).entries == w;
    SortSorted(Numbered(s));
    SortLex(Numbered(s), 1);
    WalkSpec(q, n);
    forall i, j | 0 <= i < j < |w| ensures Before(w[j], w[i]) {
      assert w[i] == q[n - i] && w[j] == q[n - j];
    }
  }

  /** ... and it prints every document of positive score, and nothing else. */
  lemma RankMembers(s: seq<int>)
    requires Rank(s).Ranked?
    ensures forall e :: e in Rank(s).entries <==> 1 <= e.1 <= |s| && e.0 == s[e.1 - 1] && e.0 > 0
  {
    var z := Numbered(s);
    var q := SortedPairs(s);
    assert Rank(s).entries == Walk(q, |q| - 1);
    SortPerm(z);
    SortSorted(z);
    WalkExactly(q, z);
    forall e ensures e in z <==> 1 <= e.1 <= |s| && e.0 == s[e.1 - 1] {
      if e in z {
        var d :| 0 <= d < |z| && z[d] == e;
      }
    }
  }

  /** On a sorted rearrangement `q` of `z`, the walk from the top takes
      exactly the entries of `z` of positive score. */
  lemma WalkExactly(q: seq<Entry>, z: seq<Entry>)
    requires |q| > 0 && SortedByScore(q) && multiset(q) == multiset(z)
    ensures forall e :: e in Walk(q, |q| - 1) <==> e in z && e.0 > 0
  {
    forall e ensures e in Walk(q, |q| - 1) <==> e in z && e.0 > 0 {
      if e in Walk(q, |q| - 1) {
        WalkedFrom(q, z, e);
      }
      if e in z && e.0 > 0 {
        PositiveWalked(q, z, e);
      }
    }
  }

  /** On a sorted rearrangement `q` of `z`, the walk from the top takes
      entries of `z` of positive score only. */
  lemma WalkedFrom(q: seq<Entry>, z: seq<Entry>, e: Entry)
    requires |q| > 0 && SortedByScore(q) && multiset(q) == multiset(z)
    requires e in Walk(q, |q| - 1)
    ensures e in z && e.0 > 0
  {
    var n := |q| - 1;
    var w := Walk(q, n);
    WalkSpec(q, n);
    var t :| 0 <= t < |w| && w[t] == e;
    assert q[n - t] == e && q[n - t] in multiset(q);
  }

  /** On a sorted rearrangement `q` of `z`, the walk from the top takes every
      entry of `z` of positive score. */
  lemma PositiveWalked(q: seq<Entry>, z: seq<Entry>, e: Entry)
    requires |q| > 0 && SortedByScore(q) && multiset(q) == multiset(z)
    requires e in z && e.0 > 0
    ensures e in Walk(q, |q| - 1)
  {
    var n := |q| - 1;
    var w := Walk(q, n);
    WalkSpec(q, n);
    assert e in multiset(q);
    var k :| 0 <= k < |q| && q[k] == e;
    assert w[n - k] == e;
  }

  /** `page_rank(scores, size, ...)` without the file reads: numbers the
      documents 1..size in `idxs`, sorts, answers "No documents match" when the
      top score is 0, otherwise walks down from the top while the score is
      positive. Unlike the source, the walk tests `i >= 0` before reading
      `scores[i]`, and an empty array is "No documents match". */
  method PageRank(scores: array<int>) returns (result: Ranking)
    modifies scores
    ensures result == Rank(old(scores[..]))
    ensures scores[..] == Scores(SortedPairs(old(scores[..])))
  {
    var size := scores.Length;
    var idxs := NumberDocs(size);
    ghost var z := Pairs(scores, idxs);
    assert z == Numbered(old(scores[..]));
    MergeSort(scores, 0, size - 1, idxs);
    ghost var q := Pairs(scores, idxs);
    assert q == SortedPairs(old(scores[..])) by {
      assert q[0..size] == q && z[0..size] == z;
    }
    assert scores[..] == Scores(q);
    // check if empty results
    if size == 0 || scores[size - 1] == 0 {
      return NoMatch;
    }
    var entries := WalkDown(scores, idxs);
    return Ranked(entries);
  }

  /** The first loop of `page_rank`: a fresh `idxs` array holding the docIDs
      1, 2, ..., size. */
  method NumberDocs(size: nat) returns (idxs: array<int>)
    ensures fresh(idxs) && idxs[..] == Iota(size)
  {
    idxs := new int[size];
    var i := 0;
    while i < size
      invariant 0 <= i <= size
      invariant forall t :: 0 <= t < i ==> idxs[t] == t + 1
    {
      idxs[i] := i + 1;
      i := i + 1;
    }
  }

  /** The printing loop of `page_rank`: from the top slot down while the
      score is positive, the (score, docID) pairs in the order they are
      printed. */
  method WalkDown(scores: array<int>, idxs: array<int>) returns (entries: seq<Entry>)
    requires scores.Length == idxs.Length > 0
    ensures entries == Walk(Pairs(scores, idxs), scores.Length - 1)
  {
    ghost var q := Pairs(scores, idxs);
    var i := scores.Length - 1;
    entries := [];
    while i >= 0 && scores[i] > 0
      invariant -1 <= i < scores.Length
      invariant entries + Walk(q, i) == Walk(q, scores.Length - 1)
    {
      assert q[i] == (scores[i], idxs[i]);
      entries := entries + [(scores[i], idxs[i])];
      i := i - 1;
    }
  }

  /** The score column of a sequence of pairs. */
  function Scores(q: seq<Entry>): (r: seq<int>)
    ensures |r| == |q| && forall k :: 0 <= k < |q| ==> r[k] == q[k].0
  {
    seq(|q|, k requires 0 <= k < |q| => q[k].0)
  }

  // ---------------------------------------------------------------------------
  // Which slots of the sorted `scores` array `page_rank` reads

  /** The loop guard as written, `scores[i] > 0 && i >= 0`: slot `i` is read
      before `i` is checked, so the walk reads slot -1 when every slot down to
      0 is positive (the read of slot -1 is the last one recorded). */
  function AsWrittenWalkReads(q: seq<int>, i: int): (r: seq<int>)
    requires -1 <= i < |q|
    decreases i + 1
  {
    if i < 0 then [i]
    else if q[i] > 0 then [i] + AsWrittenWalkReads(q, i - 1)
    else [i]
  }

  /** The slots `page_rank` reads as written: slot size - 1 for the "no
      match" test (slot -1 when there are no documents), then the walk. */
  function AsWrittenReads(q: seq<int>): (r: seq<int>)
  {
    if |q| == 0 then [-1]
    else if q[|q| - 1] == 0 then [|q| - 1]
    else [|q| - 1] + AsWrittenWalkReads(q, |q| - 1)
  }

  /** The walk as written reads slot -1 exactly when every slot down to 0 is positive. */
  lemma {:induction false} AsWrittenWalkReadsBelow(q: seq<int>, i: int)
    requires -1 <= i < |q|
    ensures -1 in AsWrittenWalkReads(q, i) <==> forall k :: 0 <= k <= i ==> q[k] > 0
    ensures forall x :: x in AsWrittenWalkReads(q, i) ==> -1 <= x <= i
    decreases i + 1
  {
    if i >= 0 && q[i] > 0 {
      AsWrittenWalkReadsBelow(q, i - 1);
      assert AsWrittenWalkReads(q, i) == [i] + AsWrittenWalkReads(q, i - 1);
    }
  }

  /** As written, `page_rank` reads outside the array exactly when there are
      no documents, or when the top score is not 0 and every score is positive. */
  lemma AsWrittenReadsOutside(q: seq<int>)
    ensures -1 in AsWrittenReads(q) <==>
      |q| == 0 || (q[|q| - 1] != 0 && forall k :: 0 <= k < |q| ==> q[k] > 0)
  {
    if |q| > 0 && q[|q| - 1] != 0 {
      AsWrittenWalkReadsBelow(q, |q| - 1);
    }
  }

  /** Two inputs that show it: no documents at all, and one document of score 3. */
  lemma AsWrittenReadsExamples()
    ensures AsWrittenReads([]) == [-1]
    ensures AsWrittenReads([3]) == [0, 0, -1]
  {
    assert AsWrittenWalkReads([3], 0) == [0] + AsWrittenWalkReads([3], -1);
  }

  /** The walk with the guard in the intended order, `i >= 0 && scores[i] > 0`. */
  function WalkReads(q: seq<int>, i: int): (r: seq<int>)
    requires -1 <= i < |q|
    decreases i + 1
  {
    if i < 0 then []
    else if q[i] > 0 then [i] + WalkReads(q, i - 1)
    else [i]
  }

  /** The slots `PageRank` reads: none when there are no documents, slot
      size - 1 for the "no match" test, then the walk. */
  function Reads(q: seq<int>): (r: seq<int>)
  {
    if |q| == 0 then []
    else if q[|q| - 1] == 0 then [|q| - 1]
    else [|q| - 1] + WalkReads(q, |q| - 1)
  }

  lemma {:induction false} WalkReadsWithin(q: seq<int>, i: int)
    requires -1 <= i < |q|
    ensures forall x :: x in WalkReads(q, i) ==> 0 <= x <= i
    decreases i + 1
  {
    if i >= 0 && q[i] > 0 {
      WalkReadsWithin(q, i - 1);
      assert WalkReads(q, i) == [i] + WalkReads(q, i - 1);
    }
  }

  /** With the guard in the intended order and the empty case checked first,
      every slot read is inside the array. */
  lemma ReadsWithin(q: seq<int>)
    ensures forall x :: x in Reads(q) ==> 0 <= x < |q|
  {
    if |q| > 0 && q[|q| - 1] != 0 {
      WalkReadsWithin(q, |q| - 1);
    }
  }
}
