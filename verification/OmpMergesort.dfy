/** The recursive merge sort over arrays of src/Eval/omp_mergesort.h. Every method works on
    the slice [lo, lo + size) of `a` and uses the slice [tlo, tlo + size) of `temp`. */
module OmpMergesort {

  const SMALL := 32

  ghost predicate StrictWeakOrder<T(!new)>(lt: (T, T) -> bool) {
    && (forall x :: !lt(x, x))
    && (forall x, y, z :: lt(x, y) && lt(y, z) ==> lt(x, z))
    && (forall x, y, z :: !lt(x, y) && !lt(y, z) ==> !lt(x, z))
  }

  ghost predicate Sorted<T>(s: seq<T>, lt: (T, T) -> bool) {
    forall i, j :: 0 <= i < j < |s| ==> !lt(s[j], s[i])
  }

  /** `a` and `b` agree outside [lo, hi). */
  ghost predicate SameOutside<T>(a: seq<T>, b: seq<T>, lo: nat, hi: nat) {
    |a| == |b| && forall i :: 0 <= i < |a| && !(lo <= i < hi) ==> a[i] == b[i]
  }

  ghost predicate SortedPermutation<T>(s: seq<T>, t: seq<T>, lt: (T, T) -> bool) {
    Sorted(s, lt) && multiset(s) == multiset(t)
  }

  function MergeSeqs<T>(s: seq<T>, t: seq<T>, lt: (T, T) -> bool): seq<T> {
    if s == [] then t
    else if t == [] then s
    else if lt(s[0], t[0]) then [s[0]] + MergeSeqs(s[1..], t, lt)
    else [t[0]] + MergeSeqs(s, t[1..], lt)
  }

  lemma {:induction false} MergeSeqsPermutes<T>(s: seq<T>, t: seq<T>, lt: (T, T) -> bool)
    ensures multiset(MergeSeqs(s, t, lt)) == multiset(s) + multiset(t)
    ensures |MergeSeqs(s, t, lt)| == |s| + |t|
  {
    if s == [] || t == [] {
    } else if lt(s[0], t[0]) {
      assert s == [s[0]] + s[1..];
      assert multiset(s) == multiset{s[0]} + multiset(s[1..]);
      MergeSeqsPermutes(s[1..], t, lt);
    } else {
      assert t == [t[0]] + t[1..];
      assert multiset(t) == multiset{t[0]} + multiset(t[1..]);
      MergeSeqsPermutes(s, t[1..], lt);
    }
  }

  lemma {:induction false} PrependSorted<T(!new)>(x: T, r: seq<T>, lt: (T, T) -> bool)
    requires Sorted(r, lt)
    requires forall y :: y in r ==> !lt(y, x)
    ensures Sorted([x] + r, lt)
  {
    var s := [x] + r;
    forall i, j | 0 <= i < j < |s| ensures !lt(s[j], s[i]) {
      assert s[j] == r[j - 1] && r[j - 1] in r;
      if i > 0 {
        assert s[i] == r[i - 1];
      }
    }
  }

  lemma {:induction false} MergeSeqsSorted<T(!new)>(s: seq<T>, t: seq<T>, lt: (T, T) -> bool)
    requires StrictWeakOrder(lt) && Sorted(s, lt) && Sorted(t, lt)
    ensures Sorted(MergeSeqs(s, t, lt), lt)
    decreases |s| + |t|
  {
    if s == [] || t == [] {
    } else if lt(s[0], t[0]) {
      var r := MergeSeqs(s[1..], t, lt);
      MergeSeqsSorted(s[1..], t, lt);
      MergeSeqsPermutes(s[1..], t, lt);
      forall y | y in r ensures !lt(y, s[0]) {
        assert y in multiset(r);
        if y in s[1..] {
          var k :| 0 <= k < |s| - 1 && s[1..][k] == y;
          assert s[k + 1] == y;
        } else {
          assert y in t;
          assert !lt(y, t[0]);
        }
      }
      PrependSorted(s[0], r, lt);
    } else {
      var r := MergeSeqs(s, t[1..], lt);
      MergeSeqsSorted(s, t[1..], lt);
      MergeSeqsPermutes(s, t[1..], lt);
      forall y | y in r ensures !lt(y, t[0]) {
        assert y in multiset(r);
        if y in t[1..] {
          var k :| 0 <= k < |t| - 1 && t[1..][k] == y;
          assert t[k + 1] == y;
        } else {
          assert y in s;
          assert !lt(y, s[0]);
        }
      }
      PrependSorted(t[0], r, lt);
    }
  }

  /** The element-by-element copies of the algorithm: the two drain loops and std::copy. */
  method CopyRun<T>(src: array<T>, from: nat, to: nat, dst: array<T>, at: nat)
    requires src != dst && from <= to <= src.Length && at + (to - from) <= dst.Length
    modifies dst
    ensures forall k :: at <= k < at + (to - from) ==> dst[k] == src[k - at + from]
    ensures SameOutside(dst[..], old(dst[..]), at, at + (to - from))
  {
    for i := from to to
      invariant forall k :: at <= k < at + (i - from) ==> dst[k] == src[k - at + from]
      invariant forall k :: 0 <= k < dst.Length && !(at <= k < at + (i - from)) ==> dst[k] == old(dst[k])
    {
      dst[at + (i - from)] := src[i];
    }
  }

  /** `goal` from position j on is what remains to be merged of s from p on and t from q on. */
  ghost predicate Remains<T>(goal: seq<T>, j: nat, s: seq<T>, p: nat, t: seq<T>, q: nat, lt: (T, T) -> bool) {
    && p <= |s| && q <= |t| && j == p + q && |goal| == |s| + |t|
    && goal[j..] == MergeSeqs(s[p..], t[q..], lt)
  }

  lemma RemainsAtStart<T>(goal: seq<T>, s: seq<T>, t: seq<T>, lt: (T, T) -> bool)
    requires goal == MergeSeqs(s, t, lt)
    ensures Remains(goal, 0, s, 0, t, 0, lt) && |goal| == |s| + |t|
  {
    MergeSeqsPermutes(s, t, lt);
    assert s[0..] == s && t[0..] == t && goal[0..] == goal;
  }

  /** One round of the first loop of merge. */
  lemma MergeStep<T>(goal: seq<T>, j: nat, s: seq<T>, p: nat, t: seq<T>, q: nat, lt: (T, T) -> bool)
    requires Remains(goal, j, s, p, t, q, lt) && p < |s| && q < |t|
    ensures lt(s[p], t[q]) ==> goal[j] == s[p] && Remains(goal, j + 1, s, p + 1, t, q, lt)
    ensures !lt(s[p], t[q]) ==> goal[j] == t[q] && Remains(goal, j + 1, s, p, t, q + 1, lt)
  {
    assert s[p..][1..] == s[p + 1..];
    assert t[q..][1..] == t[q + 1..];
    assert goal[j..][1..] == goal[j + 1..];
  }

  /** When one half is used up, the other half is the remainder. */
  lemma MergeRest<T>(goal: seq<T>, j: nat, s: seq<T>, p: nat, t: seq<T>, q: nat, lt: (T, T) -> bool)
    requires Remains(goal, j, s, p, t, q, lt) && (p == |s| || q == |t|)
    ensures |goal| == |s| + |t|
    ensures forall k :: p <= k < |s| ==> s[k] == goal[k + q]
    ensures forall k :: q <= k < |t| ==> t[k] == goal[k + |s|]
  {
    var rest := s[p..] + t[q..];
    assert goal[j..] == rest;
    forall k | p <= k < |s| ensures s[k] == goal[k + q] {
      assert goal[j..][k - p] == rest[k - p];
    }
    forall k | q <= k < |t| ensures t[k] == goal[k + |s|] {
      assert goal[j..][k - q + (|s| - p)] == rest[k - q + (|s| - p)];
    }
  }

  /** The first loop of merge: takes the smaller head while both halves last. */
  method MergeHeads<T>(a: array<T>, lo: nat, mid: nat, hi: nat, temp: array<T>, tlo: nat,
                       ghost s: seq<T>, ghost t: seq<T>, ghost goal: seq<T>, lt: (T, T) -> bool)
    returns (i1: nat, i2: nat)
    requires a != temp && lo <= mid <= hi <= a.Length && tlo + (hi - lo) <= temp.Length
    requires |s| == mid - lo && forall k :: lo <= k < mid ==> a[k] == s[k - lo]
    requires |t| == hi - mid && forall k :: mid <= k < hi ==> a[k] == t[k - mid]
    requires Remains(goal, 0, s, 0, t, 0, lt) && |goal| == |s| + |t|
    modifies temp
    ensures lo <= i1 <= mid <= i2 <= hi && (i1 == mid || i2 == hi)
    ensures forall k :: tlo <= k < tlo + (i1 - lo) + (i2 - mid) ==> temp[k] == goal[k - tlo]
    ensures Remains(goal, (i1 - lo) + (i2 - mid), s, i1 - lo, t, i2 - mid, lt)
    ensures SameOutside(temp[..], old(temp[..]), tlo, tlo + (hi - lo))
  {
    hide MergeSeqs, Remains;
    i1, i2 := lo, mid;
    var k := tlo;
    while i1 < mid && i2 < hi
      invariant lo <= i1 <= mid <= i2 <= hi && k == tlo + (i1 - lo) + (i2 - mid)
      invariant Remains(goal, k - tlo, s, i1 - lo, t, i2 - mid, lt)
      invariant forall i :: tlo <= i < k ==> temp[i] == goal[i - tlo]
      invariant forall i :: 0 <= i < temp.Length && !(tlo <= i < k) ==> temp[i] == old(temp[i])
    {
      MergeStep(goal, k - tlo, s, i1 - lo, t, i2 - mid, lt);
      var left := lt(a[i1], a[i2]);
      temp[k] := if left then a[i1] else a[i2];
      if left {
        i1 := i1 + 1;
      } else {
        i2 := i2 + 1;
      }
      k := k + 1;
    }
  }

  /** The two loops that copy what is left of the halves. */
  method Drain<T>(a: array<T>, i1: nat, mid: nat, i2: nat, hi: nat, temp: array<T>, at: nat)
    requires a != temp && i1 <= mid <= i2 <= hi <= a.Length && at + (mid - i1) + (hi - i2) <= temp.Length
    modifies temp
    ensures forall k :: at <= k < at + (mid - i1) ==> temp[k] == a[k - at + i1]
    ensures forall k :: at + (mid - i1) <= k < at + (mid - i1) + (hi - i2) ==> temp[k] == a[k - at - (mid - i1) + i2]
    ensures SameOutside(temp[..], old(temp[..]), at, at + (mid - i1) + (hi - i2))
  {
    CopyRun(a, i1, mid, temp, at);
    CopyRun(a, i2, hi, temp, at + (mid - i1));
  }

  method MergeTo<T>(a: array<T>, lo: nat, mid: nat, hi: nat, temp: array<T>, tlo: nat,
                    ghost s: seq<T>, ghost t: seq<T>, ghost goal: seq<T>, lt: (T, T) -> bool)
    requires a != temp && lo <= mid <= hi <= a.Length && tlo + (hi - lo) <= temp.Length
    requires |s| == mid - lo && forall k :: lo <= k < mid ==> a[k] == s[k - lo]
    requires |t| == hi - mid && forall k :: mid <= k < hi ==> a[k] == t[k - mid]
    requires Remains(goal, 0, s, 0, t, 0, lt) && |goal| == |s| + |t|
    modifies a, temp
    ensures |goal| == hi - lo && forall k :: lo <= k < hi ==> a[k] == goal[k - lo]
    ensures SameOutside(a[..], old(a[..]), lo, hi)
    ensures SameOutside(temp[..], old(temp[..]), tlo, tlo + (hi - lo))
  {
    hide MergeSeqs, Remains;
    var i1, i2 := MergeHeads(a, lo, mid, hi, temp, tlo, s, t, goal, lt);
    MergeRest(goal, (i1 - lo) + (i2 - mid), s, i1 - lo, t, i2 - mid, lt);
    Drain(a, i1, mid, i2, hi, temp, tlo + (i1 - lo) + (i2 - mid));
    assert forall k :: tlo <= k < tlo + (hi - lo) ==> temp[k] == goal[k - tlo];
    CopyRun(temp, tlo, tlo + (hi - lo), a, lo);
  }

  lemma MergedIsSortedPermutation<T(!new)>(s: seq<T>, t: seq<T>, lt: (T, T) -> bool)
    requires StrictWeakOrder(lt) && Sorted(s, lt) && Sorted(t, lt)
    ensures SortedPermutation(MergeSeqs(s, t, lt), s + t, lt) && |MergeSeqs(s, t, lt)| == |s| + |t|
  {
    hide StrictWeakOrder, Sorted;
    MergeSeqsSorted(s, t, lt);
    MergeSeqsPermutes(s, t, lt);
  }

  lemma SliceIs<T>(s: seq<T>, lo: nat, hi: nat, t: seq<T>)
    requires lo <= hi <= |s| && |t| == hi - lo && forall k :: lo <= k < hi ==> s[k] == t[k - lo]
    ensures s[lo..hi] == t
  {
  }

  method Merge<T(!new)>(a: array<T>, lo: nat, mid: nat, hi: nat, temp: array<T>, tlo: nat, lt: (T, T) -> bool)
    requires a != temp && lo <= mid <= hi <= a.Length && tlo + (hi - lo) <= temp.Length
    requires StrictWeakOrder(lt) && Sorted(a[lo..mid], lt) && Sorted(a[mid..hi], lt)
    modifies a, temp
    ensures SortedPermutation(a[lo..hi], old(a[lo..hi]), lt)
    ensures SameOutside(a[..], old(a[..]), lo, hi)
    ensures SameOutside(temp[..], old(temp[..]), tlo, tlo + (hi - lo))
  {
    hide MergeSeqs, StrictWeakOrder, Remains, Sorted, SameOutside, SortedPermutation;
    ghost var s, t := a[lo..mid], a[mid..hi];
    ghost var goal := MergeSeqs(s, t, lt);
    assert s + t == a[lo..hi];
    MergedIsSortedPermutation(s, t, lt);
    RemainsAtStart(goal, s, t, lt);
    MergeTo(a, lo, mid, hi, temp, tlo, s, t, goal, lt);
    SliceIs(a[..], lo, hi, goal);
    assert a[lo..hi] == a[..][lo..hi];
  }

  /** What one round of insertion sort does to the slice: element i moves down to position p. */
  ghost predicate Inserted<T>(s: seq<T>, p: nat, i: nat, r: seq<T>) {
    && p <= i < |s| == |r|
    && (forall k :: 0 <= k < p || i < k < |s| ==> r[k] == s[k])
    && r[p] == s[i]
    && (forall k :: p < k <= i ==> r[k] == s[k - 1])
  }

  lemma MoveFront<T>(a: seq<T>, b: seq<T>, x: T, c: seq<T>)
    ensures multiset(a + b + [x] + c) == multiset(a + [x] + b + c)
  {
  }

  lemma InsertedPermutes<T>(s: seq<T>, p: nat, i: nat, r: seq<T>)
    requires Inserted(s, p, i, r)
    ensures multiset(r) == multiset(s)
  {
    var a, b, x, c := s[..p], s[p..i], s[i], s[i + 1..];
    assert s == a + b + [x] + c;
    assert |a + [x] + b + c| == |r|;
    forall k | 0 <= k < |r| ensures (a + [x] + b + c)[k] == r[k] {
    }
    assert r == a + [x] + b + c;
    MoveFront(a, b, x, c);
  }

  lemma {:induction false} InsertedSorted<T(!new)>(s: seq<T>, p: nat, i: nat, r: seq<T>, lt: (T, T) -> bool)
    requires Inserted(s, p, i, r) && StrictWeakOrder(lt)
    requires forall x, y :: 0 <= x < y < i ==> !lt(s[y], s[x])
    requires p > 0 ==> lt(s[p - 1], s[i])
    requires forall k :: p <= k < i ==> !lt(s[k], s[i])
    ensures forall x, y :: 0 <= x < y < i + 1 ==> !lt(r[y], r[x])
  {
    forall k | 0 <= k < p ensures !lt(s[i], s[k]) {
      assert k < p - 1 ==> !lt(s[p - 1], s[k]);
    }
    forall x, y | 0 <= x < y < i + 1 ensures !lt(r[y], r[x]) {
      if x < p {
        assert r[x] == s[x];
      } else if x > p {
        assert r[x] == s[x - 1] && r[y] == s[y - 1];
      }
    }
  }

  /** The inner loop of insertion sort: shifts the larger elements up by one and returns the hole. */
  method ShiftUp<T>(a: array<T>, lo: nat, i: nat, v: T, lt: (T, T) -> bool) returns (p: nat)
    requires lo <= i < a.Length
    modifies a
    ensures lo <= p <= i
    ensures p > lo ==> lt(old(a[p - 1]), v)
    ensures forall k :: p <= k < i ==> !lt(old(a[k]), v)
    ensures forall k :: p < k <= i ==> a[k] == old(a[k - 1])
    ensures forall k :: 0 <= k < a.Length && !(p < k <= i) ==> a[k] == old(a[k])
  {
    var j: int := i - 1;
    while j >= lo && !lt(a[j], v)
      invariant lo - 1 <= j < i
      invariant forall k :: j < k < i ==> !lt(old(a[k]), v)
      invariant forall k :: j + 1 < k <= i ==> a[k] == old(a[k - 1])
      invariant forall k :: 0 <= k < a.Length && !(j + 1 < k <= i) ==> a[k] == old(a[k])
    {
      a[j + 1] := a[j];
      j := j - 1;
    }
    p := j + 1;
  }

  ghost function Moved<T>(s: seq<T>, p: nat, i: nat): (r: seq<T>)
    requires p <= i < |s|
    ensures Inserted(s, p, i, r)
  {
    s[..p] + [s[i]] + s[p..i] + s[i + 1..]
  }

  /** One round of the outer loop of insertion sort. */
  method InsertNext<T(!new)>(a: array<T>, lo: nat, i: nat, hi: nat, ghost s: seq<T>, lt: (T, T) -> bool)
    returns (ghost r: seq<T>)
    requires lo <= i < hi <= a.Length && StrictWeakOrder(lt)
    requires |s| == hi - lo && forall k :: lo <= k < hi ==> a[k] == s[k - lo]
    requires forall x, y :: 0 <= x < y < i - lo ==> !lt(s[y], s[x])
    modifies a
    ensures |r| == hi - lo && forall k :: lo <= k < hi ==> a[k] == r[k - lo]
    ensures forall x, y :: 0 <= x < y < i + 1 - lo ==> !lt(r[y], r[x])
    ensures multiset(r) == multiset(s)
    ensures forall k :: 0 <= k < a.Length && !(lo <= k < hi) ==> a[k] == old(a[k])
  {
    hide StrictWeakOrder;
    var v := a[i];
    var p := ShiftUp(a, lo, i, v, lt);
    a[p] := v;
    r := Moved(s, p - lo, i - lo);
    InsertedPermutes(s, p - lo, i - lo, r);
    forall k | p - lo <= k < i - lo ensures !lt(s[k], v) {
      assert s[k] == old(a[k + lo]);
    }
    InsertedSorted(s, p - lo, i - lo, r, lt);
  }

  method InsertionSort<T(!new)>(a: array<T>, lo: nat, hi: nat, lt: (T, T) -> bool)
    requires lo <= hi <= a.Length && StrictWeakOrder(lt)
    modifies a
    ensures SortedPermutation(a[lo..hi], old(a[lo..hi]), lt)
    ensures SameOutside(a[..], old(a[..]), lo, hi)
  {
    hide StrictWeakOrder;
    var i := lo;
    ghost var s := a[lo..hi];
    while i < hi
      invariant lo <= i <= hi
      invariant |s| == hi - lo && forall k :: lo <= k < hi ==> a[k] == s[k - lo]
      invariant forall x, y :: 0 <= x < y < i - lo ==> !lt(s[y], s[x])
      invariant multiset(s) == multiset(old(a[lo..hi]))
      invariant forall k :: 0 <= k < a.Length && !(lo <= k < hi) ==> a[k] == old(a[k])
    {
      s := InsertNext(a, lo, i, hi, s, lt);
      i := i + 1;
    }
    assert a[lo..hi] == s;
  }

  /** Sorting two adjacent slices permutes their concatenation. */
  lemma HalvesPermuted<T>(l: seq<T>, r: seq<T>, l': seq<T>, r': seq<T>, whole: seq<T>, whole': seq<T>)
    requires multiset(l) == multiset(l') && multiset(r) == multiset(r')
    requires whole == l + r && whole' == l' + r'
    ensures multiset(whole) == multiset(whole')
  {
  }

  /** Merges two halves that were sorted from s and t. */
  method MergeHalves<T(!new)>(a: array<T>, lo: nat, mid: nat, hi: nat, temp: array<T>, tlo: nat, lt: (T, T) -> bool,
                              ghost s: seq<T>, ghost t: seq<T>)
    requires a != temp && lo <= mid <= hi <= a.Length && tlo + (hi - lo) <= temp.Length && StrictWeakOrder(lt)
    requires SortedPermutation(a[lo..mid], s, lt) && SortedPermutation(a[mid..hi], t, lt)
    modifies a, temp
    ensures SortedPermutation(a[lo..hi], s + t, lt)
    ensures SameOutside(a[..], old(a[..]), lo, hi)
    ensures SameOutside(temp[..], old(temp[..]), tlo, tlo + (hi - lo))
  {
    hide Sorted, StrictWeakOrder, SameOutside;
    assert a[lo..hi] == a[lo..mid] + a[mid..hi];
    HalvesPermuted(s, t, a[lo..mid], a[mid..hi], s + t, a[lo..hi]);
    Merge(a, lo, mid, hi, temp, tlo, lt);
  }

  method MergesortSerial<T(!new)>(a: array<T>, lo: nat, hi: nat, temp: array<T>, tlo: nat, lt: (T, T) -> bool)
    requires a != temp && lo <= hi <= a.Length && tlo + (hi - lo) <= temp.Length && StrictWeakOrder(lt)
    modifies a, temp
    ensures SortedPermutation(a[lo..hi], old(a[lo..hi]), lt)
    ensures SameOutside(a[..], old(a[..]), lo, hi)
    ensures SameOutside(temp[..], old(temp[..]), tlo, tlo + (hi - lo))
    decreases hi - lo, 1
  {
    hide SortedPermutation, StrictWeakOrder;
    var size := hi - lo;
    if size < SMALL {
      InsertionSort(a, lo, hi, lt);
    } else {
      var mid := lo + size / 2;
      ghost var s, t := a[lo..mid], a[mid..hi];
      assert a[lo..hi] == s + t;
      SortHalves(a, lo, mid, hi, temp, tlo, lt);
      MergeHalves(a, lo, mid, hi, temp, tlo, lt, s, t);
    }
  }

  /** The two recursive calls of the serial sort. */
  method SortHalves<T(!new)>(a: array<T>, lo: nat, mid: nat, hi: nat, temp: array<T>, tlo: nat, lt: (T, T) -> bool)
    requires a != temp && lo < mid < hi <= a.Length && tlo + (hi - lo) <= temp.Length && StrictWeakOrder(lt)
    modifies a, temp
    ensures SortedPermutation(a[lo..mid], old(a[lo..mid]), lt)
    ensures SortedPermutation(a[mid..hi], old(a[mid..hi]), lt)
    ensures SameOutside(a[..], old(a[..]), lo, hi)
    ensures SameOutside(temp[..], old(temp[..]), tlo, tlo + (hi - lo))
    decreases hi - lo, 0
  {
    hide SortedPermutation, StrictWeakOrder;
    ghost var t := a[mid..hi];
    MergesortSerial(a, lo, mid, temp, tlo, lt);
    ghost var s' := a[lo..mid];
    assert a[mid..hi] == t;
    MergesortSerial(a, mid, hi, temp, tlo, lt);
    assert a[lo..mid] == s';
  }

  method MergesortParallel<T(!new)>(a: array<T>, lo: nat, hi: nat, temp: array<T>, tlo: nat, threads: nat,
                                    lt: (T, T) -> bool)
    requires a != temp && lo <= hi <= a.Length && tlo + (hi - lo) <= temp.Length && StrictWeakOrder(lt)
    requires threads >= 1
    modifies a, temp
    ensures SortedPermutation(a[lo..hi], old(a[lo..hi]), lt)
    ensures SameOutside(a[..], old(a[..]), lo, hi)
    ensures SameOutside(temp[..], old(temp[..]), tlo, tlo + (hi - lo))
    decreases threads, 1
  {
    hide SortedPermutation, StrictWeakOrder;
    if threads == 1 {
      MergesortSerial(a, lo, hi, temp, tlo, lt);
    } else {
      var mid := lo + (hi - lo) / 2;
      ghost var s, t := a[lo..mid], a[mid..hi];
      assert a[lo..hi] == s + t;
      ParallelSections(a, lo, mid, hi, temp, tlo, threads, lt);
      MergeHalves(a, lo, mid, hi, temp, tlo, lt, s, t);
    }
  }

  /** The two parallel sections, in either order: each keeps to its own half of `a` and its own
      half of `temp`, and gets at least one thread. */
  method ParallelSections<T(!new)>(a: array<T>, lo: nat, mid: nat, hi: nat, temp: array<T>, tlo: nat, threads: nat,
                                   lt: (T, T) -> bool)
    requires a != temp && lo <= mid <= hi <= a.Length && tlo + (hi - lo) <= temp.Length && StrictWeakOrder(lt)
    requires threads > 1
    modifies a, temp
    ensures SortedPermutation(a[lo..mid], old(a[lo..mid]), lt)
    ensures SortedPermutation(a[mid..hi], old(a[mid..hi]), lt)
    ensures SameOutside(a[..], old(a[..]), lo, hi)
    ensures SameOutside(temp[..], old(temp[..]), tlo, tlo + (hi - lo))
    decreases threads, 0
  {
    hide SortedPermutation, StrictWeakOrder;
    ghost var s, t := a[lo..mid], a[mid..hi];
    if * {
      MergesortParallel(a, lo, mid, temp, tlo, threads / 2, lt);
      assert a[mid..hi] == t;
      ghost var s' := a[lo..mid];
      MergesortParallel(a, mid, hi, temp, tlo + (mid - lo), threads - threads / 2, lt);
      assert a[lo..mid] == s';
    } else {
      MergesortParallel(a, mid, hi, temp, tlo + (mid - lo), threads - threads / 2, lt);
      assert a[lo..mid] == s;
      ghost var t' := a[mid..hi];
      MergesortParallel(a, lo, mid, temp, tlo, threads / 2, lt);
      assert a[mid..hi] == t';
    }
  }
}
