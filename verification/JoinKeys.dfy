/** Join keys: the comparisons of src/Eval/Join.h and the sort of src/Eval/EvalSubgoal.cc. */
module JoinKeys {
  import opened KBLiterals
  import opened OmpMergesort
  import ParallelFilter

  ghost predicate InBounds(indices: seq<nat>, terms: seq<nat>) {
    forall k :: 0 <= k < |indices| ==> indices[k] < |terms|
  }

  /** The values of a row in the columns `indices`. */
  function KeyOf(indices: seq<nat>, terms: seq<nat>): seq<nat> {
    seq(|indices|, k requires 0 <= k < |indices| => if indices[k] < |terms| then terms[indices[k]] else 0)
  }

  predicate LexLess(a: seq<nat>, b: seq<nat>) {
    if a == [] || b == [] then a == [] && b != []
    else a[0] < b[0] || (a[0] == b[0] && LexLess(a[1..], b[1..]))
  }

  predicate LexLeq(a: seq<nat>, b: seq<nat>) { !LexLess(b, a) }

  lemma LexTotal(a: seq<nat>, b: seq<nat>)
    ensures LexLess(a, b) || LexLess(b, a) || a == b
    ensures !(LexLess(a, b) && LexLess(b, a)) && !LexLess(a, a)
  {
    if a != [] && b != [] {
      LexTotal(a[1..], b[1..]);
      if a[0] == b[0] && a[1..] == b[1..] {
        assert a == [a[0]] + a[1..] == b;
      }
    }
    if a != [] {
      LexTotal(a[1..], a[1..]);
    }
  }

  lemma LexTransitive(a: seq<nat>, b: seq<nat>, c: seq<nat>)
    ensures LexLess(a, b) && LexLess(b, c) ==> LexLess(a, c)
  {
    if a != [] && b != [] && c != [] {
      LexTransitive(a[1..], b[1..], c[1..]);
    }
  }

  lemma LexLeqTransitive(a: seq<nat>, b: seq<nat>, c: seq<nat>)
    ensures LexLeq(a, b) && LexLeq(b, c) ==> LexLeq(a, c)
  {
    LexTotal(a, b);
    LexTotal(b, c);
    LexTransitive(c, a, b);
    LexTransitive(c, b, a);
    LexTransitive(b, c, a);
    LexTotal(a, c);
  }

  /** The first position where two keys differ decides their order. */
  lemma {:induction false} LexAt(a: seq<nat>, b: seq<nat>, k: nat)
    requires k < |a| && k < |b| && a[k] != b[k]
    requires forall j :: 0 <= j < k ==> a[j] == b[j]
    ensures LexLess(a, b) <==> a[k] < b[k]
    ensures a != b
  {
    if k > 0 {
      assert forall j :: 0 <= j < k - 1 ==> a[1..][j] == a[j + 1] && b[1..][j] == b[j + 1];
      LexAt(a[1..], b[1..], k - 1);
    }
  }

  // ---------------------------------------------------------------- sorting a relation

  /** The key order on rows of any kind. */
  ghost predicate SortedByKey<T>(rows: seq<T>, key: T -> seq<nat>) {
    forall i, j :: 0 <= i < j < |rows| ==> LexLeq(key(rows[i]), key(rows[j]))
  }

  lemma KeyOrderIsWeak<T(!new)>(key: T -> seq<nat>)
    ensures StrictWeakOrder((x: T, y: T) => LexLess(key(x), key(y)))
  {
    forall x: T ensures !LexLess(key(x), key(x)) {
      LexTotal(key(x), key(x));
    }
    forall x: T, y: T, z: T
      ensures LexLess(key(x), key(y)) && LexLess(key(y), key(z)) ==> LexLess(key(x), key(z))
      ensures !LexLess(key(x), key(y)) && !LexLess(key(y), key(z)) ==> !LexLess(key(x), key(z))
    {
      LexTransitive(key(x), key(y), key(z));
      LexLeqTransitive(key(z), key(y), key(x));
    }
  }

  method SortRelation<T(!new)>(relation: seq<T>, key: T -> seq<nat>, threads: nat) returns (sorted: seq<T>)
    requires threads >= 1
    ensures multiset(sorted) == multiset(relation) && SortedByKey(sorted, key)
  {
    var lt := (x: T, y: T) => LexLess(key(x), key(y));
    KeyOrderIsWeak(key);
    var a := new T[|relation|](i requires 0 <= i < |relation| => relation[i]);
    var temp := new T[|relation|](i requires 0 <= i < |relation| => relation[i]);
    assert a[..] == relation && a[0..a.Length] == relation;
    if |relation| < ParallelFilter.MtFactNumThreshold {
      MergesortSerial(a, 0, a.Length, temp, 0, lt);
    } else {
      MergesortParallel(a, 0, a.Length, temp, 0, threads, lt);
    }
    sorted := a[0..a.Length];
    forall i, j | 0 <= i < j < |sorted| ensures LexLeq(key(sorted[i]), key(sorted[j])) {
      assert !lt(sorted[j], sorted[i]);
    }
  }

  // ---------------------------------------------------------------- Join

  /** The columns to compare: leftIndices[k] of the left row with rightIndices[k] of the right row. */
  datatype Join = Join(leftIndices: seq<nat>, rightIndices: seq<nat>) {
    ghost predicate Fits(l: seq<nat>, r: seq<nat>) {
      |leftIndices| == |rightIndices| && InBounds(leftIndices, l) && InBounds(rightIndices, r)
    }

    ghost function LeftKey(l: seq<nat>): seq<nat> {
      KeyOf(leftIndices, l)
    }

    ghost function RightKey(r: seq<nat>): seq<nat> {
      KeyOf(rightIndices, r)
    }

    /** A null on either side matches anything. */
    ghost predicate MatchesWithNull(l: seq<nat>, r: seq<nat>)
      requires Fits(l, r)
    {
      forall k :: 0 <= k < |leftIndices| ==>
        l[leftIndices[k]] == r[rightIndices[k]] || l[leftIndices[k]] == NULL_VAL || r[rightIndices[k]] == NULL_VAL
    }

    method JoinableWithoutNull(l: seq<nat>, r: seq<nat>) returns (b: bool)
      requires Fits(l, r)
      ensures b <==> LeftKey(l) == RightKey(r)
    {
      for k := 0 to |leftIndices|
        invariant forall j :: 0 <= j < k ==> l[leftIndices[j]] == r[rightIndices[j]]
      {
        if l[leftIndices[k]] != r[rightIndices[k]] {
          assert LeftKey(l)[k] != RightKey(r)[k];
          return false;
        }
      }
      return true;
    }

    /** The version that lets a null on either side match anything. */
    method Joinable(l: seq<nat>, r: seq<nat>) returns (b: bool)
      requires Fits(l, r)
      ensures b <==> MatchesWithNull(l, r)
      ensures NullFree(l) && NullFree(r) ==> (b <==> LeftKey(l) == RightKey(r))
    {
      b := true;
      for k := 0 to |leftIndices|
        invariant forall j :: 0 <= j < k ==>
          l[leftIndices[j]] == r[rightIndices[j]] || l[leftIndices[j]] == NULL_VAL || r[rightIndices[j]] == NULL_VAL
      {
        if l[leftIndices[k]] != r[rightIndices[k]] && l[leftIndices[k]] != NULL_VAL && r[rightIndices[k]] != NULL_VAL {
          assert LeftKey(l)[k] != RightKey(r)[k];
          return false;
        }
      }
    }

    method CompareWithoutNull(l: seq<nat>, r: seq<nat>) returns (c: int)
      requires Fits(l, r)
      ensures c == if LeftKey(l) == RightKey(r) then 0 else if LexLess(LeftKey(l), RightKey(r)) then -1 else 1
    {
      for k := 0 to |leftIndices|
        invariant forall j :: 0 <= j < k ==> LeftKey(l)[j] == RightKey(r)[j]
      {
        if l[leftIndices[k]] != r[rightIndices[k]] {
          LexAt(LeftKey(l), RightKey(r), k);
          return if l[leftIndices[k]] < r[rightIndices[k]] then -1 else 1;
        }
      }
      return 0;
    }

    method Compare(l: seq<nat>, r: seq<nat>) returns (c: int)
      requires Fits(l, r)
      ensures c == 0 <==> MatchesWithNull(l, r)
      ensures NullFree(l) && NullFree(r) ==>
        c == if LeftKey(l) == RightKey(r) then 0 else if LexLess(LeftKey(l), RightKey(r)) then -1 else 1
    {
      for k := 0 to |leftIndices|
        invariant forall j :: 0 <= j < k ==>
          l[leftIndices[j]] == r[rightIndices[j]] || l[leftIndices[j]] == NULL_VAL || r[rightIndices[j]] == NULL_VAL
        invariant NullFree(l) && NullFree(r) ==> forall j :: 0 <= j < k ==> LeftKey(l)[j] == RightKey(r)[j]
      {
        if l[leftIndices[k]] != r[rightIndices[k]] && l[leftIndices[k]] != NULL_VAL && r[rightIndices[k]] != NULL_VAL {
          if NullFree(l) && NullFree(r) {
            LexAt(LeftKey(l), RightKey(r), k);
          }
          return if l[leftIndices[k]] < r[rightIndices[k]] then -1 else 1;
        }
      }
      return 0;
    }
  }
}
