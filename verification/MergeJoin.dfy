/** The sort-merge joins of src/Eval/EvalSubgoal.cc. At a pair of equal keys the scan emits an
    L shape -- the rest of the left group against the current right row, the rest of the right group
    against the current left row -- and then moves on in both tables. */
module MergeJoin {
  import opened TruthValues
  import opened Sequences
  import opened KBLiterals
  import opened JoinKeys
  import opened Projections

  /** A row selected on the right, and whether its value satisfies the literal's constraint. */
  datatype Candidate = Candidate(tuple: KBTuple, matches: bool)

  /** Where an output row comes from. */
  datatype Origin = Matched(l: nat, r: nat) | Unmatched(l: nat)

  type Keys = seq<seq<nat>>

  ghost predicate SortedKeys(k: Keys) {
    forall i, j :: 0 <= i < j < |k| ==> LexLeq(k[i], k[j])
  }

  // ---------------------------------------------------------------- what the joins should produce

  /** The pairs of the nested-loop join that pass the constraint. */
  ghost predicate Joined(lk: Keys, rk: Keys, flags: seq<bool>, x: Origin) {
    x.Matched? && x.l < |lk| && x.r < |rk| == |flags| && lk[x.l] == rk[x.r] && flags[x.r]
  }

  /** A left row without partner. The scan sees it only if it does not lie below the first right key. */
  ghost predicate Complemented(lk: Keys, rk: Keys, x: Origin) {
    && x.Unmatched? && x.l < |lk| && lk[x.l] !in rk
    && (rk == [] || LexLeq(rk[0], lk[x.l]))
  }

  /** What the unknown-aware join should produce. */
  ghost predicate JoinedOrComplemented(lk: Keys, rk: Keys, flags: seq<bool>, onlyUnknown: bool, x: Origin) {
    (Joined(lk, rk, flags, x) && !onlyUnknown) || Complemented(lk, rk, x)
  }

  /** The part of it that the scan has reached at (i, j). */
  ghost predicate Behind(i: nat, j: nat, x: Origin) {
    x.l < i || (x.Matched? && x.r < j)
  }

  ghost predicate SafeState(lk: Keys, rk: Keys, flags: seq<bool>, i: nat, j: nat, o: seq<Origin>) {
    Distinct(o) && forall x :: x in o <==> Joined(lk, rk, flags, x) && Behind(i, j, x)
  }

  ghost predicate UnknownState(lk: Keys, rk: Keys, flags: seq<bool>, onlyUnknown: bool, i: nat, j: nat,
                               o: seq<Origin>) {
    && Distinct(o)
    && (forall x :: x in o <==> JoinedOrComplemented(lk, rk, flags, onlyUnknown, x) && Behind(i, j, x))
    && (0 < j <= |rk| && i < |lk| ==> LexLeq(rk[j - 1], lk[i]))
  }

  // ---------------------------------------------------------------- the equal case

  /** The rows from lo on whose key is `key` end at hi. */
  ghost predicate Group(k: Keys, key: seq<nat>, lo: nat, hi: nat) {
    && lo < hi <= |k|
    && (forall p :: lo <= p < hi ==> k[p] == key)
    && (hi < |k| ==> k[hi] != key)
  }

  /** Beyond a group all keys are greater. */
  lemma GroupEnds(k: Keys, key: seq<nat>, lo: nat, hi: nat, p: nat)
    requires SortedKeys(k) && Group(k, key, lo, hi) && hi <= p < |k|
    ensures k[p] != key
  {
    LexTotal(k[hi - 1], k[hi]);
    if hi < p {
      LexTotal(k[hi], k[p]);
    }
  }

  ghost function Down(i: nat, a: nat, j: nat, flags: seq<bool>): seq<Origin>
    requires i <= a && j < |flags|
  {
    if i == a then [] else Down(i, a - 1, j, flags) + if flags[j] then [Matched(a - 1, j)] else []
  }

  ghost function Across(i: nat, j: nat, b: nat, flags: seq<bool>): seq<Origin>
    requires j <= b <= |flags|
  {
    if j == b then [] else Across(i, j, b - 1, flags) + if flags[b - 1] then [Matched(i, b - 1)] else []
  }

  /** The L shape, in the order of emission, without the rows the constraint rejects. */
  ghost function LShape(i: nat, a: nat, j: nat, b: nat, flags: seq<bool>): seq<Origin>
    requires i < a && j < b <= |flags|
  {
    Down(i, a, j, flags) + Across(i, j + 1, b, flags)
  }

  lemma DownMembers(i: nat, a: nat, j: nat, flags: seq<bool>)
    requires i <= a && j < |flags|
    ensures Distinct(Down(i, a, j, flags))
    ensures forall x :: x in Down(i, a, j, flags) <==> x.Matched? && i <= x.l < a && x.r == j && flags[j]
  {
    if i < a {
      DownMembers(i, a - 1, j, flags);
    }
  }

  lemma AcrossMembers(i: nat, j: nat, b: nat, flags: seq<bool>)
    requires j <= b <= |flags|
    ensures Distinct(Across(i, j, b, flags))
    ensures forall x :: x in Across(i, j, b, flags) <==> x.Matched? && x.l == i && j <= x.r < b && flags[x.r]
  {
    if j < b {
      AcrossMembers(i, j, b - 1, flags);
    }
  }

  lemma LShapeMembers(i: nat, a: nat, j: nat, b: nat, flags: seq<bool>)
    requires i < a && j < b <= |flags|
    ensures Distinct(LShape(i, a, j, b, flags))
    ensures forall x :: x in LShape(i, a, j, b, flags) <==>
      x.Matched? && ((i <= x.l < a && x.r == j) || (x.l == i && j <= x.r < b)) && flags[x.r]
  {
    DownMembers(i, a, j, flags);
    AcrossMembers(i, j + 1, b, flags);
    DistinctConcat(Down(i, a, j, flags), Across(i, j + 1, b, flags));
  }

  /** The L shape is exactly what (i + 1, j + 1) has behind it and (i, j) has not. */
  lemma LShapeIsNew(lk: Keys, rk: Keys, flags: seq<bool>, i: nat, a: nat, j: nat, b: nat, x: Origin)
    requires SortedKeys(lk) && SortedKeys(rk) && j < |rk| == |flags|
    requires Group(lk, rk[j], i, a) && Group(rk, rk[j], j, b)
    ensures x in LShape(i, a, j, b, flags) <==>
      Joined(lk, rk, flags, x) && Behind(i + 1, j + 1, x) && !Behind(i, j, x)
  {
    LShapeMembers(i, a, j, b, flags);
    if x.Matched? && a <= x.l < |lk| {
      GroupEnds(lk, rk[j], i, a, x.l);
    }
    if x.Matched? && b <= x.r < |rk| {
      GroupEnds(rk, rk[j], j, b, x.r);
    }
  }

  lemma SafeEqual(lk: Keys, rk: Keys, flags: seq<bool>, i: nat, a: nat, j: nat, b: nat, o: seq<Origin>)
    requires SortedKeys(lk) && SortedKeys(rk) && j < |rk| == |flags|
    requires Group(lk, rk[j], i, a) && Group(rk, rk[j], j, b)
    requires SafeState(lk, rk, flags, i, j, o)
    ensures SafeState(lk, rk, flags, i + 1, j + 1, o + LShape(i, a, j, b, flags))
  {
    LShapeMembers(i, a, j, b, flags);
    forall x ensures x in LShape(i, a, j, b, flags) <==>
      Joined(lk, rk, flags, x) && Behind(i + 1, j + 1, x) && !Behind(i, j, x)
    {
      LShapeIsNew(lk, rk, flags, i, a, j, b, x);
    }
    DistinctConcat(o, LShape(i, a, j, b, flags));
  }

  // ---------------------------------------------------------------- the unequal cases

  lemma SafeLess(lk: Keys, rk: Keys, flags: seq<bool>, i: nat, j: nat, o: seq<Origin>)
    requires SortedKeys(lk) && SortedKeys(rk) && i < |lk| && j < |rk|
    requires SafeState(lk, rk, flags, i, j, o) && lk[i] != rk[j]
    ensures LexLess(rk[j], lk[i]) ==> SafeState(lk, rk, flags, i, j + 1, o)
    ensures LexLess(lk[i], rk[j]) ==> SafeState(lk, rk, flags, i + 1, j, o)
  {
    LexTotal(lk[i], rk[j]);
    forall x ensures Joined(lk, rk, flags, x) && !Behind(i, j, x) ==>
      (LexLess(rk[j], lk[i]) ==> x.r != j) && (LexLess(lk[i], rk[j]) ==> x.l != i)
    {
      if Joined(lk, rk, flags, x) && !Behind(i, j, x) {
        assert i < x.l ==> LexLeq(lk[i], lk[x.l]);
        assert j < x.r ==> LexLeq(rk[j], rk[x.r]);
      }
    }
  }

  // ---------------------------------------------------------------- the unknown-aware scan

  /** The test against the previous right row finds out whether left row i has a partner. */
  lemma NoPartner(lk: Keys, rk: Keys, i: nat, j: nat)
    requires SortedKeys(lk) && SortedKeys(rk) && i < |lk| && j <= |rk|
    requires j < |rk| ==> LexLess(lk[i], rk[j])
    requires 0 < j ==> LexLeq(rk[j - 1], lk[i])
    ensures Complemented(lk, rk, Unmatched(i)) <==> (j > 0 && lk[i] != rk[j - 1]) || rk == []
  {
    if lk[i] in rk {
      var q :| 0 <= q < |rk| && rk[q] == lk[i];
      LexTotal(lk[i], lk[i]);
      if q >= j {
        assert j < q ==> LexLeq(rk[j], rk[q]);
      } else {
        assert q < j - 1 ==> LexLeq(rk[q], rk[j - 1]);
        LexTotal(rk[j - 1], lk[i]);
      }
    }
    if j > 0 {
      assert 0 < j - 1 ==> LexLeq(rk[0], rk[j - 1]);
      LexLeqTransitive(rk[0], rk[j - 1], lk[i]);
    }
  }

  lemma UnknownLess(lk: Keys, rk: Keys, flags: seq<bool>, onlyUnknown: bool, i: nat, j: nat, o: seq<Origin>)
    requires SortedKeys(lk) && SortedKeys(rk) && i < |lk| && j < |rk|
    requires UnknownState(lk, rk, flags, onlyUnknown, i, j, o) && lk[i] != rk[j]
    ensures LexLess(rk[j], lk[i]) ==> UnknownState(lk, rk, flags, onlyUnknown, i, j + 1, o)
    ensures LexLess(lk[i], rk[j]) ==> UnknownState(lk, rk, flags, onlyUnknown, i + 1, j,
      if j > 0 && lk[i] != rk[j - 1] then o + [Unmatched(i)] else o)
  {
    LexTotal(lk[i], rk[j]);
    if LexLess(rk[j], lk[i]) {
      forall x ensures x in o <==> JoinedOrComplemented(lk, rk, flags, onlyUnknown, x) && Behind(i, j + 1, x) {
        if x.Matched? && !Behind(i, j, x) && x.l < |lk| {
          assert i < x.l ==> LexLeq(lk[i], lk[x.l]);
        }
      }
    } else {
      var o' := if j > 0 && lk[i] != rk[j - 1] then o + [Unmatched(i)] else o;
      NoPartner(lk, rk, i, j);
      forall x ensures x in o' <==> JoinedOrComplemented(lk, rk, flags, onlyUnknown, x) && Behind(i + 1, j, x) {
        if x.Matched? && !Behind(i, j, x) && x.r < |rk| {
          assert j < x.r ==> LexLeq(rk[j], rk[x.r]);
        }
      }
      assert Unmatched(i) !in o;
      if j > 0 && i + 1 < |lk| {
        LexLeqTransitive(rk[j - 1], lk[i], lk[i + 1]);
      }
    }
  }

  lemma UnknownEqual(lk: Keys, rk: Keys, flags: seq<bool>, onlyUnknown: bool, i: nat, a: nat, j: nat, b: nat,
                     o: seq<Origin>)
    requires SortedKeys(lk) && SortedKeys(rk) && j < |rk| == |flags|
    requires Group(lk, rk[j], i, a) && Group(rk, rk[j], j, b)
    requires UnknownState(lk, rk, flags, onlyUnknown, i, j, o)
    ensures UnknownState(lk, rk, flags, onlyUnknown, i + 1, j + 1,
                         if onlyUnknown then o else o + LShape(i, a, j, b, flags))
  {
    var o' := if onlyUnknown then o else o + LShape(i, a, j, b, flags);
    LShapeMembers(i, a, j, b, flags);
    forall x ensures x in o' <==> JoinedOrComplemented(lk, rk, flags, onlyUnknown, x) && Behind(i + 1, j + 1, x) {
      LShapeIsNew(lk, rk, flags, i, a, j, b, x);
      assert lk[i] == rk[j] && rk[j] in rk;
    }
    if !onlyUnknown {
      DistinctConcat(o, LShape(i, a, j, b, flags));
    }
    assert i + 1 < |lk| ==> LexLeq(lk[i], lk[i + 1]);
  }

  /** When the right table is exhausted, the next left row is complemented unless it has a partner. */
  lemma UnknownTail(lk: Keys, rk: Keys, flags: seq<bool>, onlyUnknown: bool, i: nat, o: seq<Origin>)
    requires SortedKeys(lk) && SortedKeys(rk) && i < |lk| && |rk| == |flags|
    requires UnknownState(lk, rk, flags, onlyUnknown, i, |rk|, o)
    ensures UnknownState(lk, rk, flags, onlyUnknown, i + 1, |rk|,
      if rk == [] || lk[i] != rk[|rk| - 1] then o + [Unmatched(i)] else o)
  {
    var o' := if rk == [] || lk[i] != rk[|rk| - 1] then o + [Unmatched(i)] else o;
    NoPartner(lk, rk, i, |rk|);
    forall x ensures x in o' <==> JoinedOrComplemented(lk, rk, flags, onlyUnknown, x) && Behind(i + 1, |rk|, x) {
    }
    assert Unmatched(i) !in o;
    if rk != [] && i + 1 < |lk| {
      LexLeqTransitive(rk[|rk| - 1], lk[i], lk[i + 1]);
    }
  }

  // ---------------------------------------------------------------- the nested loops

  /** Row l of the left table against the rows of the right table below m. */
  ghost function InnerLoop(lk: Keys, rk: Keys, flags: seq<bool>, l: nat, m: nat): seq<Origin>
    requires l < |lk| && m <= |rk| == |flags|
  {
    if m == 0 then [] else
      InnerLoop(lk, rk, flags, l, m - 1) + if lk[l] == rk[m - 1] && flags[m - 1] then [Matched(l, m - 1)] else []
  }

  ghost function LoopBody(lk: Keys, rk: Keys, flags: seq<bool>, pairs: bool, complements: bool, l: nat): seq<Origin>
    requires l < |lk| && |rk| == |flags|
  {
    (if pairs then InnerLoop(lk, rk, flags, l, |rk|) else [])
    + if complements && Complemented(lk, rk, Unmatched(l)) then [Unmatched(l)] else []
  }

  /** The join without sorting and scanning: for each left row its partners, and the row itself
      if it is to be complemented. */
  ghost function NestedLoop(lk: Keys, rk: Keys, flags: seq<bool>, pairs: bool, complements: bool, n: nat): seq<Origin>
    requires n <= |lk| && |rk| == |flags|
  {
    if n == 0 then [] else
      NestedLoop(lk, rk, flags, pairs, complements, n - 1) + LoopBody(lk, rk, flags, pairs, complements, n - 1)
  }

  /** What the nested loops are to find. */
  ghost predicate Sought(lk: Keys, rk: Keys, flags: seq<bool>, pairs: bool, complements: bool, x: Origin) {
    (pairs && Joined(lk, rk, flags, x)) || (complements && Complemented(lk, rk, x))
  }

  lemma {:induction false} InnerLoopMembers(lk: Keys, rk: Keys, flags: seq<bool>, l: nat, m: nat)
    requires l < |lk| && m <= |rk| == |flags|
    ensures Distinct(InnerLoop(lk, rk, flags, l, m))
    ensures forall x :: x in InnerLoop(lk, rk, flags, l, m) <==> Joined(lk, rk, flags, x) && x.l == l && x.r < m
  {
    if m > 0 {
      InnerLoopMembers(lk, rk, flags, l, m - 1);
    }
  }

  lemma LoopBodyMembers(lk: Keys, rk: Keys, flags: seq<bool>, pairs: bool, complements: bool, l: nat)
    requires l < |lk| && |rk| == |flags|
    ensures Distinct(LoopBody(lk, rk, flags, pairs, complements, l))
    ensures forall x :: x in LoopBody(lk, rk, flags, pairs, complements, l) <==>
      x.l == l && Sought(lk, rk, flags, pairs, complements, x)
  {
    InnerLoopMembers(lk, rk, flags, l, |rk|);
  }

  lemma {:induction false} NestedLoopMembers(lk: Keys, rk: Keys, flags: seq<bool>, pairs: bool, complements: bool,
                                             n: nat)
    requires n <= |lk| && |rk| == |flags|
    ensures Distinct(NestedLoop(lk, rk, flags, pairs, complements, n))
    ensures forall x :: x in NestedLoop(lk, rk, flags, pairs, complements, n) <==>
      x.l < n && Sought(lk, rk, flags, pairs, complements, x)
  {
    hide Sought, LoopBody;
    if n > 0 {
      NestedLoopMembers(lk, rk, flags, pairs, complements, n - 1);
      LoopBodyMembers(lk, rk, flags, pairs, complements, n - 1);
      DistinctConcat(NestedLoop(lk, rk, flags, pairs, complements, n - 1),
                     LoopBody(lk, rk, flags, pairs, complements, n - 1));
    }
  }

  // ---------------------------------------------------------------- the scans

  /** The row an origin gives rise to. */
  ghost function RowOf(left: seq<KBTuple>, right: seq<Candidate>, ids: seq<JoinId>, isTrue: bool, x: Origin): KBTuple {
    match x
    case Matched(l, r) =>
      if l < |left| && r < |right| then
        KBTuple(Projected(ids, left[l].terms, right[r].tuple.terms),
                ResolveTruthValue(Conjunction(left[l].value, right[r].tuple.value), isTrue))
      else KBTuple([], Unknown)
    case Unmatched(l) =>
      if l < |left| then KBTuple(Projected(ids, left[l].terms, []), ResolveTruthValue(left[l].value, isTrue))
      else KBTuple([], Unknown)
  }

  ghost predicate RowsOf(left: seq<KBTuple>, right: seq<Candidate>, ids: seq<JoinId>, isTrue: bool,
                         o: seq<Origin>, rows: seq<KBTuple>) {
    |rows| == |o| && forall k :: 0 <= k < |o| ==> rows[k] == RowOf(left, right, ids, isTrue, o[k])
  }

  ghost function RowsFrom(left: seq<KBTuple>, right: seq<Candidate>, ids: seq<JoinId>, isTrue: bool,
                          o: seq<Origin>): seq<KBTuple> {
    seq(|o|, k requires 0 <= k < |o| => RowOf(left, right, ids, isTrue, o[k]))
  }

  lemma RowsFromSplit(left: seq<KBTuple>, right: seq<Candidate>, ids: seq<JoinId>, isTrue: bool, o: seq<Origin>, k: nat)
    requires k < |o|
    ensures multiset(RowsFrom(left, right, ids, isTrue, o))
         == multiset(RowsFrom(left, right, ids, isTrue, o[..k] + o[k + 1..]))
            + multiset{RowOf(left, right, ids, isTrue, o[k])}
  {
    hide RowOf;
    var rows, rest := RowsFrom(left, right, ids, isTrue, o), o[..k] + o[k + 1..];
    var rows' := RowsFrom(left, right, ids, isTrue, rest);
    forall p | 0 <= p < |rest| ensures rows'[p] == (rows[..k] + rows[k + 1..])[p] {
      assert rest[p] == if p < k then o[p] else o[p + 1];
    }
    assert rows' == rows[..k] + rows[k + 1..];
    WithoutMember(rows, k);
  }

  /** The same origins in another order give the same rows in another order. */
  lemma {:induction false} RowsFromPermuted(left: seq<KBTuple>, right: seq<Candidate>, ids: seq<JoinId>, isTrue: bool,
                                            o: seq<Origin>, o': seq<Origin>)
    requires multiset(o) == multiset(o')
    ensures multiset(RowsFrom(left, right, ids, isTrue, o)) == multiset(RowsFrom(left, right, ids, isTrue, o'))
    decreases |o|
  {
    hide RowOf, RowsFrom;
    assert o == [] ==> o' == [] by { Permuted(o, o'); }
    if o != [] {
      var k := MatchingMember(o, o');
      RowsFromPermuted(left, right, ids, isTrue, o[1..], o'[..k] + o'[k + 1..]);
      assert o[..0] + o[1..] == o[1..];
      RowsFromSplit(left, right, ids, isTrue, o, 0);
      RowsFromSplit(left, right, ids, isTrue, o', k);
    }
  }

  ghost function LeftKeys(join: Join, left: seq<KBTuple>): Keys {
    seq(|left|, k requires 0 <= k < |left| => join.LeftKey(left[k].terms))
  }

  ghost function RightKeys(join: Join, right: seq<Candidate>): Keys {
    seq(|right|, k requires 0 <= k < |right| => join.RightKey(right[k].tuple.terms))
  }

  ghost function Flags(right: seq<Candidate>): seq<bool> {
    seq(|right|, k requires 0 <= k < |right| => right[k].matches)
  }

  /** The rows a scan should give, up to their order. */
  ghost function NestedLoopRows(left: seq<KBTuple>, right: seq<Candidate>, join: Join, ids: seq<JoinId>, isTrue: bool,
                                pairs: bool, complements: bool): seq<KBTuple> {
    RowsFrom(left, right, ids, isTrue,
             NestedLoop(LeftKeys(join, left), RightKeys(join, right), Flags(right), pairs, complements, |left|))
  }

  /** Distinct origins with the right members give the rows of the nested loops. */
  lemma RowsAreNestedLoop(left: seq<KBTuple>, right: seq<Candidate>, join: Join, ids: seq<JoinId>, isTrue: bool,
                          pairs: bool, complements: bool, o: seq<Origin>, rows: seq<KBTuple>)
    requires RowsOf(left, right, ids, isTrue, o, rows) && Distinct(o)
    requires forall x :: x in o <==>
      Sought(LeftKeys(join, left), RightKeys(join, right), Flags(right), pairs, complements, x)
    ensures multiset(rows) == multiset(NestedLoopRows(left, right, join, ids, isTrue, pairs, complements))
  {
    var lk, rk, flags := LeftKeys(join, left), RightKeys(join, right), Flags(right);
    var loop := NestedLoop(lk, rk, flags, pairs, complements, |left|);
    NestedLoopMembers(lk, rk, flags, pairs, complements, |left|);
    SameMembers(o, loop);
    RowsFromPermuted(left, right, ids, isTrue, o, loop);
    assert rows == RowsFrom(left, right, ids, isTrue, o);
  }

  lemma RowsConcat(left: seq<KBTuple>, right: seq<Candidate>, ids: seq<JoinId>, isTrue: bool,
                   o: seq<Origin>, rows: seq<KBTuple>, o': seq<Origin>, rows': seq<KBTuple>)
    requires RowsOf(left, right, ids, isTrue, o, rows) && RowsOf(left, right, ids, isTrue, o', rows')
    ensures RowsOf(left, right, ids, isTrue, o + o', rows + rows')
  {
  }

  /** The tables a scan accepts: sorted by the join key, without null, with the columns it reads. */
  ghost predicate Joinable(left: seq<KBTuple>, right: seq<Candidate>, join: Join, ids: seq<JoinId>) {
    && SortedKeys(LeftKeys(join, left)) && SortedKeys(RightKeys(join, right))
    && (forall l, r :: 0 <= l < |left| && 0 <= r < |right| ==>
      join.Fits(left[l].terms, right[r].tuple.terms) && Fits(ids, |left[l].terms|, |right[r].tuple.terms|))
    && (forall l :: 0 <= l < |left| ==> NullFree(left[l].terms))
    && (forall r :: 0 <= r < |right| ==> NullFree(right[r].tuple.terms))
  }

  method SameKey(left: seq<KBTuple>, right: seq<Candidate>, join: Join, ids: seq<JoinId>, p: nat, q: nat)
    returns (same: bool)
    requires Joinable(left, right, join, ids) && p < |left| && q < |right|
    ensures same <==> LeftKeys(join, left)[p] == RightKeys(join, right)[q]
  {
    same := join.JoinableWithoutNull(left[p].terms, right[q].tuple.terms);
  }

  method MatchedRow(left: seq<KBTuple>, right: seq<Candidate>, join: Join, ids: seq<JoinId>, isTrue: bool, p: nat,
                    q: nat)
    returns (row: KBTuple)
    requires Joinable(left, right, join, ids) && p < |left| && q < |right|
    ensures row == RowOf(left, right, ids, isTrue, Matched(p, q))
  {
    var terms := ProjectJoined(ids, left[p].terms, right[q].tuple.terms);
    row := KBTuple(terms, ResolveTruthValue(Conjunction(left[p].value, right[q].tuple.value), isTrue));
  }

  method UnmatchedRow(left: seq<KBTuple>, right: seq<Candidate>, join: Join, ids: seq<JoinId>, isTrue: bool, p: nat,
                      ghost rightArity: nat) returns (row: KBTuple)
    requires Joinable(left, right, join, ids) && p < |left| && LeftColumnsLow(ids)
    requires Fits(ids, |left[p].terms|, rightArity)
    ensures row == RowOf(left, right, ids, isTrue, Unmatched(p))
  {
    var terms := LeftComplement(ids, left[p].terms, rightArity);
    row := KBTuple(terms, ResolveTruthValue(left[p].value, isTrue));
  }

  /** The long side of the L: left rows i, i + 1, ... against right row j. */
  method EmitDown(left: seq<KBTuple>, right: seq<Candidate>, join: Join, ids: seq<JoinId>, isTrue: bool, i: nat, j: nat)
    returns (rows: seq<KBTuple>, ghost a: nat)
    requires Joinable(left, right, join, ids) && i < |left| && j < |right|
    requires LeftKeys(join, left)[i] == RightKeys(join, right)[j]
    ensures Group(LeftKeys(join, left), RightKeys(join, right)[j], i, a)
    ensures RowsOf(left, right, ids, isTrue, Down(i, a, j, Flags(right)), rows)
  {
    rows := [];
    if right[j].matches {
      var row := MatchedRow(left, right, join, ids, isTrue, i, j);
      rows := [row];
    }
    var p := i + 1;
    while p < |left|
      invariant i < p <= |left|
      invariant forall k :: i <= k < p ==> LeftKeys(join, left)[k] == RightKeys(join, right)[j]
      invariant RowsOf(left, right, ids, isTrue, Down(i, p, j, Flags(right)), rows)
    {
      var same := SameKey(left, right, join, ids, p, j);
      if !same { break; }
      if right[j].matches {
        var row := MatchedRow(left, right, join, ids, isTrue, p, j);
        rows := rows + [row];
      }
      p := p + 1;
    }
    a := p;
  }

  /** The short side: left row i against right rows j + 1, j + 2, ... */
  method EmitAcross(left: seq<KBTuple>, right: seq<Candidate>, join: Join, ids: seq<JoinId>, isTrue: bool, i: nat,
                    j: nat)
    returns (rows: seq<KBTuple>, ghost b: nat)
    requires Joinable(left, right, join, ids) && i < |left| && j < |right|
    requires LeftKeys(join, left)[i] == RightKeys(join, right)[j]
    ensures Group(RightKeys(join, right), RightKeys(join, right)[j], j, b)
    ensures RowsOf(left, right, ids, isTrue, Across(i, j + 1, b, Flags(right)), rows)
  {
    rows := [];
    var q := j + 1;
    while q < |right|
      invariant j < q <= |right|
      invariant forall k :: j <= k < q ==> RightKeys(join, right)[k] == RightKeys(join, right)[j]
      invariant RowsOf(left, right, ids, isTrue, Across(i, j + 1, q, Flags(right)), rows)
    {
      var same := SameKey(left, right, join, ids, i, q);
      if !same { break; }
      if right[q].matches {
        var row := MatchedRow(left, right, join, ids, isTrue, i, q);
        rows := rows + [row];
      }
      q := q + 1;
    }
    b := q;
  }

  /** Emits the L shape at (i, j). */
  method EmitGroup(left: seq<KBTuple>, right: seq<Candidate>, join: Join, ids: seq<JoinId>, isTrue: bool, i: nat,
                   j: nat)
    returns (rows: seq<KBTuple>, ghost a: nat, ghost b: nat)
    requires Joinable(left, right, join, ids) && i < |left| && j < |right|
    requires LeftKeys(join, left)[i] == RightKeys(join, right)[j]
    ensures Group(LeftKeys(join, left), RightKeys(join, right)[j], i, a)
    ensures Group(RightKeys(join, right), RightKeys(join, right)[j], j, b)
    ensures RowsOf(left, right, ids, isTrue, LShape(i, a, j, b, Flags(right)), rows)
  {
    var down, a' := EmitDown(left, right, join, ids, isTrue, i, j);
    var across, b' := EmitAcross(left, right, join, ids, isTrue, i, j);
    a, b, rows := a', b', down + across;
    RowsConcat(left, right, ids, isTrue, Down(i, a, j, Flags(right)), down, Across(i, j + 1, b, Flags(right)), across);
  }

  /** The scan for literals that do not accept unknown. */
  method MergeJoinSafe(left: seq<KBTuple>, right: seq<Candidate>, join: Join, ids: seq<JoinId>, isTrue: bool)
    returns (rows: seq<KBTuple>, ghost o: seq<Origin>)
    requires Joinable(left, right, join, ids)
    ensures RowsOf(left, right, ids, isTrue, o, rows) && Distinct(o)
    ensures forall x :: x in o <==> Joined(LeftKeys(join, left), RightKeys(join, right), Flags(right), x)
    ensures multiset(rows) == multiset(NestedLoopRows(left, right, join, ids, isTrue, true, false))
  {
    ghost var lk, rk, flags := LeftKeys(join, left), RightKeys(join, right), Flags(right);
    var i, j := 0, 0;
    rows, o := [], [];
    while i < |left| && j < |right|
      invariant i <= |left| && j <= |right|
      invariant RowsOf(left, right, ids, isTrue, o, rows) && SafeState(lk, rk, flags, i, j, o)
      decreases |left| - i + |right| - j
    {
      var c := join.Compare(left[i].terms, right[j].tuple.terms);
      if c == 1 {
        LexTotal(lk[i], rk[j]);
        SafeLess(lk, rk, flags, i, j, o);
        j := j + 1;
      } else if c == -1 {
        SafeLess(lk, rk, flags, i, j, o);
        i := i + 1;
      } else {
        var more, a, b := EmitGroup(left, right, join, ids, isTrue, i, j);
        RowsConcat(left, right, ids, isTrue, o, rows, LShape(i, a, j, b, flags), more);
        SafeEqual(lk, rk, flags, i, a, j, b, o);
        rows, o := rows + more, o + LShape(i, a, j, b, flags);
        i, j := i + 1, j + 1;
      }
    }
    RowsAreNestedLoop(left, right, join, ids, isTrue, true, false, o, rows);
  }

  /** The state of the unknown-aware scan: what was emitted is what lies behind (i, j). */
  ghost predicate Scanned(left: seq<KBTuple>, right: seq<Candidate>, join: Join, ids: seq<JoinId>, isTrue: bool,
                          onlyUnknown: bool, i: nat, j: nat, o: seq<Origin>, rows: seq<KBTuple>) {
    && i <= |left| && j <= |right|
    && RowsOf(left, right, ids, isTrue, o, rows)
    && UnknownState(LeftKeys(join, left), RightKeys(join, right), Flags(right), onlyUnknown, i, j, o)
  }

  /** The case of a left row below the current right row. */
  method PassLeft(left: seq<KBTuple>, right: seq<Candidate>, join: Join, ids: seq<JoinId>, isTrue: bool,
                  onlyUnknown: bool,
                  ghost rightArity: nat, i: nat, j: nat, ghost o: seq<Origin>, rows: seq<KBTuple>)
    returns (rows': seq<KBTuple>, ghost o': seq<Origin>)
    requires Joinable(left, right, join, ids) && LeftColumnsLow(ids) && i < |left| && j < |right|
    requires Fits(ids, |left[i].terms|, rightArity)
    requires Scanned(left, right, join, ids, isTrue, onlyUnknown, i, j, o, rows)
    requires LexLess(LeftKeys(join, left)[i], RightKeys(join, right)[j])
    ensures Scanned(left, right, join, ids, isTrue, onlyUnknown, i + 1, j, o', rows')
  {
    hide UnknownState, LexLess;
    LexTotal(LeftKeys(join, left)[i], RightKeys(join, right)[j]);
    UnknownLess(LeftKeys(join, left), RightKeys(join, right), Flags(right), onlyUnknown, i, j, o);
    rows', o' := rows, o;
    if j > 0 {
      var partner := SameKey(left, right, join, ids, i, j - 1);
      if !partner {
        var row := UnmatchedRow(left, right, join, ids, isTrue, i, rightArity);
        rows', o' := rows + [row], o + [Unmatched(i)];
      }
    }
  }

  /** Where the group of `key` that starts at lo ends. */
  ghost function GroupEnd(k: Keys, key: seq<nat>, lo: nat): (hi: nat)
    requires lo < |k| && k[lo] == key
    ensures Group(k, key, lo, hi)
    decreases |k| - lo
  {
    if lo + 1 < |k| && k[lo + 1] == key then GroupEnd(k, key, lo + 1) else lo + 1
  }

  /** The case of equal keys. */
  method PassBoth(left: seq<KBTuple>, right: seq<Candidate>, join: Join, ids: seq<JoinId>, isTrue: bool,
                  onlyUnknown: bool,
                  i: nat, j: nat, ghost o: seq<Origin>, rows: seq<KBTuple>)
    returns (rows': seq<KBTuple>, ghost o': seq<Origin>)
    requires Joinable(left, right, join, ids) && i < |left| && j < |right|
    requires Scanned(left, right, join, ids, isTrue, onlyUnknown, i, j, o, rows)
    requires LeftKeys(join, left)[i] == RightKeys(join, right)[j]
    ensures Scanned(left, right, join, ids, isTrue, onlyUnknown, i + 1, j + 1, o', rows')
  {
    ghost var lk, rk, flags := LeftKeys(join, left), RightKeys(join, right), Flags(right);
    if onlyUnknown {
      ghost var a, b := GroupEnd(lk, rk[j], i), GroupEnd(rk, rk[j], j);
      UnknownEqual(lk, rk, flags, onlyUnknown, i, a, j, b, o);
      return rows, o;
    }
    var more, a, b := EmitGroup(left, right, join, ids, isTrue, i, j);
    RowsConcat(left, right, ids, isTrue, o, rows, LShape(i, a, j, b, flags), more);
    UnknownEqual(lk, rk, flags, onlyUnknown, i, a, j, b, o);
    return rows + more, o + LShape(i, a, j, b, flags);
  }

  /** Skips the left rows that have a partner in the last right group. */
  method SkipPartners(left: seq<KBTuple>, right: seq<Candidate>, join: Join, ids: seq<JoinId>, isTrue: bool,
                      onlyUnknown: bool,
                      start: nat, ghost o: seq<Origin>, ghost rows: seq<KBTuple>) returns (i: nat)
    requires Joinable(left, right, join, ids) && |right| > 0
    requires Scanned(left, right, join, ids, isTrue, onlyUnknown, start, |right|, o, rows)
    ensures Scanned(left, right, join, ids, isTrue, onlyUnknown, i, |right|, o, rows)
    ensures i < |left| ==> LeftKeys(join, left)[i] != RightKeys(join, right)[|right| - 1]
  {
    i := start;
    while i < |left|
      invariant Scanned(left, right, join, ids, isTrue, onlyUnknown, i, |right|, o, rows)
    {
      var partner := SameKey(left, right, join, ids, i, |right| - 1);
      if !partner { break; }
      UnknownTail(LeftKeys(join, left), RightKeys(join, right), Flags(right), onlyUnknown, i, o);
      i := i + 1;
    }
  }

  method ComplementOne(left: seq<KBTuple>, right: seq<Candidate>, join: Join, ids: seq<JoinId>, isTrue: bool,
                       onlyUnknown: bool,
                       ghost rightArity: nat, i: nat, ghost o: seq<Origin>, rows: seq<KBTuple>)
    returns (rows': seq<KBTuple>, ghost o': seq<Origin>)
    requires Joinable(left, right, join, ids) && LeftColumnsLow(ids) && i < |left|
    requires Fits(ids, |left[i].terms|, rightArity)
    requires Scanned(left, right, join, ids, isTrue, onlyUnknown, i, |right|, o, rows)
    requires right != [] ==> LeftKeys(join, left)[i] != RightKeys(join, right)[|right| - 1]
    ensures Scanned(left, right, join, ids, isTrue, onlyUnknown, i + 1, |right|, o', rows')
  {
    UnknownTail(LeftKeys(join, left), RightKeys(join, right), Flags(right), onlyUnknown, i, o);
    var row := UnmatchedRow(left, right, join, ids, isTrue, i, rightArity);
    rows', o' := rows + [row], o + [Unmatched(i)];
  }

  /** A left row above the last right row is followed by left rows above it. */
  lemma StaysAbove(lk: Keys, rk: Keys, i: nat)
    requires SortedKeys(lk) && i < |lk|
    ensures rk != [] && LexLeq(rk[|rk| - 1], lk[i]) && lk[i] != rk[|rk| - 1] && i + 1 < |lk| ==>
      lk[i + 1] != rk[|rk| - 1]
  {
    if rk != [] && i + 1 < |lk| {
      LexTotal(rk[|rk| - 1], lk[i]);
      assert LexLeq(lk[i], lk[i + 1]);
    }
  }

  /** Complements all left rows that remain. */
  method ComplementRest(left: seq<KBTuple>, right: seq<Candidate>, join: Join, ids: seq<JoinId>, isTrue: bool,
                        onlyUnknown: bool,
                        ghost rightArity: nat, start: nat, ghost o0: seq<Origin>, rows0: seq<KBTuple>)
    returns (rows: seq<KBTuple>, ghost o: seq<Origin>)
    requires Joinable(left, right, join, ids) && LeftColumnsLow(ids)
    requires forall l :: 0 <= l < |left| ==> Fits(ids, |left[l].terms|, rightArity)
    requires Scanned(left, right, join, ids, isTrue, onlyUnknown, start, |right|, o0, rows0)
    requires start < |left| && right != [] ==> LeftKeys(join, left)[start] != RightKeys(join, right)[|right| - 1]
    ensures Scanned(left, right, join, ids, isTrue, onlyUnknown, |left|, |right|, o, rows)
  {
    ghost var lk, rk := LeftKeys(join, left), RightKeys(join, right);
    var i := start;
    rows, o := rows0, o0;
    while i < |left|
      invariant Scanned(left, right, join, ids, isTrue, onlyUnknown, i, |right|, o, rows)
      invariant i < |left| && rk != [] ==> lk[i] != rk[|rk| - 1]
    {
      StaysAbove(lk, rk, i);
      rows, o := ComplementOne(left, right, join, ids, isTrue, onlyUnknown, rightArity, i, o, rows);
      i := i + 1;
    }
  }

  lemma BehindAll(lk: Keys, rk: Keys, flags: seq<bool>, onlyUnknown: bool, j: nat, o: seq<Origin>)
    requires UnknownState(lk, rk, flags, onlyUnknown, |lk|, j, o)
    ensures forall x :: x in o <==> JoinedOrComplemented(lk, rk, flags, onlyUnknown, x)
  {
  }

  /** The scan for literals that accept unknown. */
  method MergeJoinUnknown(left: seq<KBTuple>, right: seq<Candidate>, join: Join, ids: seq<JoinId>, isTrue: bool,
                          onlyUnknown: bool,
                          ghost rightArity: nat)
    returns (rows: seq<KBTuple>, ghost o: seq<Origin>)
    requires Joinable(left, right, join, ids) && LeftColumnsLow(ids)
    requires forall l :: 0 <= l < |left| ==> Fits(ids, |left[l].terms|, rightArity)
    ensures RowsOf(left, right, ids, isTrue, o, rows) && Distinct(o)
    ensures forall x :: x in o <==>
      JoinedOrComplemented(LeftKeys(join, left), RightKeys(join, right), Flags(right), onlyUnknown, x)
    ensures multiset(rows) == multiset(NestedLoopRows(left, right, join, ids, isTrue, !onlyUnknown, true))
  {
    var i, j := 0, 0;
    rows, o := [], [];
    while i < |left| && j < |right|
      invariant Scanned(left, right, join, ids, isTrue, onlyUnknown, i, j, o, rows)
      decreases |left| - i + |right| - j
    {
      var c := join.CompareWithoutNull(left[i].terms, right[j].tuple.terms);
      if c == 1 {
        LexTotal(LeftKeys(join, left)[i], RightKeys(join, right)[j]);
        UnknownLess(LeftKeys(join, left), RightKeys(join, right), Flags(right), onlyUnknown, i, j, o);
        j := j + 1;
      } else if c == -1 {
        rows, o := PassLeft(left, right, join, ids, isTrue, onlyUnknown, rightArity, i, j, o, rows);
        i := i + 1;
      } else {
        rows, o := PassBoth(left, right, join, ids, isTrue, onlyUnknown, i, j, o, rows);
        i, j := i + 1, j + 1;
      }
    }
    if i < |left| {
      // the right table is exhausted
      if j > 0 {
        i := SkipPartners(left, right, join, ids, isTrue, onlyUnknown, i, o, rows);
      }
      rows, o := ComplementRest(left, right, join, ids, isTrue, onlyUnknown, rightArity, i, o, rows);
    }
    BehindAll(LeftKeys(join, left), RightKeys(join, right), Flags(right), onlyUnknown, j, o);
    RowsAreNestedLoop(left, right, join, ids, isTrue, !onlyUnknown, true, o, rows);
  }
}
