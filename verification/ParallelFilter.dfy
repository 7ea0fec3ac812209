/** The filter of src/Eval/EvalSubgoal.cc: sequential, or a parallel count, a prefix sum and a
    parallel scatter into the places the counts reserve. */
module ParallelFilter {

  function Filtered<T, R>(s: seq<T>, pred: T -> bool, f: T -> R): seq<R> {
    if s == [] then []
    else Filtered(s[..|s| - 1], pred, f) + (if pred(s[|s| - 1]) then [f(s[|s| - 1])] else [])
  }

  /** What a filter result holds. */
  lemma FilteredOne<T, R>(x: T, pred: T -> bool, f: T -> R)
    ensures Filtered([x], pred, f) == if pred(x) then [f(x)] else []
  {
    assert [x][..0] == [];
  }

  /** The filter keeps the order: it may be applied to the parts of a table. */
  lemma {:induction false} FilteredConcat<T, R>(s: seq<T>, t: seq<T>, pred: T -> bool, f: T -> R)
    ensures Filtered(s + t, pred, f) == Filtered(s, pred, f) + Filtered(t, pred, f)
    decreases |t|
  {
    if t == [] {
      assert s + t == s;
    } else {
      var l, x := t[..|t| - 1], t[|t| - 1];
      FilteredConcat(s, l, pred, f);
      assert (s + t)[..|s + t| - 1] == s + l && (s + t)[|s + t| - 1] == x;
    }
  }

  lemma {:induction false} FilteredMembers<T, R>(s: seq<T>, pred: T -> bool, f: T -> R, x: R)
    ensures x in Filtered(s, pred, f) <==> exists i :: 0 <= i < |s| && pred(s[i]) && f(s[i]) == x
  {
    if s != [] {
      var l, e := s[..|s| - 1], s[|s| - 1];
      FilteredMembers(l, pred, f, x);
      if x in Filtered(l, pred, f) {
        var i :| 0 <= i < |l| && pred(l[i]) && f(l[i]) == x;
        assert pred(s[i]) && f(s[i]) == x;
      }
      if i :| 0 <= i < |s| && pred(s[i]) && f(s[i]) == x {
        assert i < |l| ==> l[i] == s[i];
      }
    }
  }

  /** A filter result has no repetition when the images of the elements have none. */
  lemma {:induction false} FilteredDistinct<T, R>(s: seq<T>, pred: T -> bool, f: T -> R)
    requires forall i, j :: 0 <= i < j < |s| && pred(s[i]) && pred(s[j]) ==> f(s[i]) != f(s[j])
    ensures forall i, j :: 0 <= i < j < |Filtered(s, pred, f)| ==> Filtered(s, pred, f)[i] != Filtered(s, pred, f)[j]
  {
    if s != [] {
      var l, e := s[..|s| - 1], s[|s| - 1];
      FilteredDistinct(l, pred, f);
      forall x | x in Filtered(l, pred, f) && pred(e) ensures x != f(e) {
        FilteredMembers(l, pred, f, x);
        var i :| 0 <= i < |l| && pred(l[i]) && f(l[i]) == x;
        assert l[i] == s[i];
      }
      var r, r' := Filtered(l, pred, f), Filtered(s, pred, f);
      forall i, j | 0 <= i < j < |r'| ensures r'[i] != r'[j] {
        assert r'[i] == r[i] && r[i] in r;
        assert j < |r| ==> r'[j] == r[j];
      }
    }
  }

  /** Two filters with the same test select the same elements. */
  lemma {:induction false} FilteredTogether<T, R, Q>(s: seq<T>, pred: T -> bool, f: T -> R, h: T -> Q)
    ensures |Filtered(s, pred, f)| == |Filtered(s, pred, h)|
  {
    if s != [] {
      FilteredTogether(s[..|s| - 1], pred, f, h);
    }
  }

  lemma {:induction false} FilteredSource<T, R, Q>(s: seq<T>, pred: T -> bool, f: T -> R, h: T -> Q, k: nat)
    returns (e: T)
    requires k < |Filtered(s, pred, f)|
    ensures k < |Filtered(s, pred, h)|
    ensures e in s && pred(e) && Filtered(s, pred, f)[k] == f(e) && Filtered(s, pred, h)[k] == h(e)
  {
    var l := s[..|s| - 1];
    FilteredTogether(l, pred, f, h);
    if k == |Filtered(l, pred, f)| {
      e := s[|s| - 1];
    } else {
      e := FilteredSource(l, pred, f, h, k);
      assert forall x :: x in l ==> x in s;
    }
  }

  method SequentialSelect<T, R>(s: seq<T>, pred: T -> bool, f: T -> R) returns (result: seq<R>)
    ensures result == Filtered(s, pred, f)
  {
    result := [];
    for i := 0 to |s|
      invariant result == Filtered(s[..i], pred, f)
    {
      assert s[..i + 1][..i] == s[..i];
      if pred(s[i]) {
        result := result + [f(s[i])];
      }
    }
    assert s[..|s|] == s;
  }

  // ---------------------------------------------------------------- ranks

  /** rank[i] is the number of selected elements before element i, and so its place in the result. */
  ghost predicate IsRank<T, R>(s: seq<T>, pred: T -> bool, f: T -> R, goal: seq<R>, rank: seq<nat>) {
    && |rank| == |s| + 1 && rank[0] == 0 && rank[|s|] == |goal|
    && (forall i :: 0 <= i < |s| ==> rank[i + 1] == rank[i] + if pred(s[i]) then 1 else 0)
    && (forall i :: 0 <= i < |s| && pred(s[i]) ==> rank[i] < |goal| && goal[rank[i]] == f(s[i]))
  }

  lemma {:induction false} RankMonotone<T, R>(s: seq<T>, pred: T -> bool, f: T -> R, goal: seq<R>, rank: seq<nat>,
                                              i: nat, j: nat)
    requires IsRank(s, pred, f, goal, rank) && i <= j <= |s|
    ensures rank[i] <= rank[j]
  {
    if i < j {
      RankMonotone(s, pred, f, goal, rank, i, j - 1);
      assert rank[j - 1 + 1] >= rank[j - 1];
    }
  }

  lemma {:induction false} MakeRank<T, R>(s: seq<T>, pred: T -> bool, f: T -> R) returns (rank: seq<nat>)
    ensures IsRank(s, pred, f, Filtered(s, pred, f), rank)
  {
    if s == [] {
      rank := [0];
    } else {
      var l, n := s[..|s| - 1], |s| - 1;
      var r := MakeRank(l, pred, f);
      rank := r + [|Filtered(s, pred, f)|];
      assert forall i :: 0 <= i < n ==> s[i] == l[i];
    }
  }

  // ---------------------------------------------------------------- the parallel filter

  /** p is a position in block t. */
  ghost predicate InBlock(bounds: seq<nat>, n: nat, t: nat, p: nat) {
    t + 1 < |bounds| && bounds[t] <= p <= bounds[t + 1] <= n
  }

  /** `bounds` cuts 0..n into consecutive blocks, one a thread: the static schedule. */
  ghost predicate Blocks(bounds: seq<nat>, n: nat) {
    && |bounds| >= 2 && bounds[0] == 0 && bounds[|bounds| - 1] == n
    && forall t :: 0 <= t < |bounds| - 1 ==> InBlock(bounds, n, t, bounds[t])
  }

  /** Every thread has looked at its block up to its position. */
  ghost predicate Positions(bounds: seq<nat>, n: nat, pos: seq<nat>) {
    |pos| == |bounds| - 1 && forall t :: 0 <= t < |pos| ==> InBlock(bounds, n, t, pos[t])
  }

  /** The work left to the first n threads. */
  ghost function WorkLeft(bounds: seq<nat>, pos: seq<nat>, n: nat): int
    requires n < |bounds| && n <= |pos|
  {
    if n == 0 then 0 else WorkLeft(bounds, pos, n - 1) + bounds[n] - pos[n - 1]
  }

  /** A step of any thread that is not done leaves less work. */
  lemma StepProgress(bounds: seq<nat>, n: nat, pos: seq<nat>, t: nat, k: nat)
    requires Blocks(bounds, n) && Positions(bounds, n, pos) && t < |pos| && pos[t] < bounds[t + 1] && k <= |pos|
    ensures Positions(bounds, n, pos[t := pos[t] + 1])
    ensures WorkLeft(bounds, pos, k) >= 0
    ensures WorkLeft(bounds, pos[t := pos[t] + 1], k) == WorkLeft(bounds, pos, k) - if t < k then 1 else 0
  {
    if k > 0 {
      StepProgress(bounds, n, pos, t, k - 1);
    }
  }

  /** counts[t] elements are selected in block t before position pos[t]. */
  ghost predicate Counted(bounds: seq<nat>, pos: seq<nat>, counts: seq<nat>, rank: seq<nat>) {
    && |counts| == |pos|
    && forall t :: 0 <= t < |pos| ==>
      t < |bounds| && bounds[t] < |rank| && pos[t] < |rank| && rank[pos[t]] == rank[bounds[t]] + counts[t]
  }

  lemma CountedStep<T, R>(s: seq<T>, bounds: seq<nat>, pos: seq<nat>, counts: seq<nat>, t: nat, c: nat, rank: seq<nat>,
                          goal: seq<R>, pred: T -> bool, f: T -> R)
    requires Counted(bounds, pos, counts, rank) && IsRank(s, pred, f, goal, rank) && t < |pos| && pos[t] < |s|
    requires c == counts[t] + if pred(s[pos[t]]) then 1 else 0
    ensures Counted(bounds, pos[t := pos[t] + 1], counts[t := c], rank)
  {
    var p := pos[t];
    assert rank[p + 1] == rank[p] + if pred(s[p]) then 1 else 0;
    assert rank[p] == rank[bounds[t]] + counts[t];
    var pos', counts' := pos[t := p + 1], counts[t := c];
    forall u | 0 <= u < |pos|
      ensures u < |bounds| && bounds[u] < |rank| && pos'[u] < |rank| && rank[pos'[u]] == rank[bounds[u]] + counts'[u]
    {
      if u != t {
        assert pos'[u] == pos[u] && counts'[u] == counts[u];
      }
    }
    assert |counts'| == |pos'|;
    assert Counted(bounds, pos', counts', rank);
  }

  /** The first pass. The scheduler picks, at every step, any thread that has work left. */
  method CountPass<T, R>(s: seq<T>, bounds: seq<nat>, pred: T -> bool, ghost f: T -> R, ghost goal: seq<R>,
                         ghost rank: seq<nat>)
    returns (counts: seq<nat>)
    requires Blocks(bounds, |s|) && IsRank(s, pred, f, goal, rank)
    ensures Counted(bounds, bounds[1..], counts, rank)
  {
    var n := |bounds| - 1;
    counts := seq(n, t => 0);
    var pos := bounds[..n];
    while exists t :: 0 <= t < n && pos[t] < bounds[t + 1]
      invariant Positions(bounds, |s|, pos) && Counted(bounds, pos, counts, rank)
      decreases WorkLeft(bounds, pos, n)
    {
      var t :| 0 <= t < n && pos[t] < bounds[t + 1];
      StepProgress(bounds, |s|, pos, t, n);
      var c := counts[t] + if pred(s[pos[t]]) then 1 else 0;
      CountedStep(s, bounds, pos, counts, t, c, rank, goal, pred, f);
      counts := counts[t := c];
      pos := pos[t := pos[t] + 1];
    }
    assert pos == bounds[1..];
  }

  /** The sequential prefix sum: afterwards startIndexes[t] is where block t + 1 starts. */
  method PrefixSum(bounds: seq<nat>, n: nat, counts: seq<nat>, ghost rank: seq<nat>)
    returns (startIndexes: seq<nat>, rsize: nat)
    requires Blocks(bounds, n) && |rank| == n + 1 && rank[0] == 0 
    requires Counted(bounds, bounds[1..], counts, rank)
    ensures |startIndexes| == |counts| && rsize == rank[n]
    ensures forall t :: 0 <= t < |counts| ==> bounds[t + 1] <= n && startIndexes[t] == rank[bounds[t + 1]]
  {
    startIndexes, rsize := counts, 0;
    for i := 0 to |counts|
      invariant |startIndexes| == |counts| && bounds[i] <= n && rsize == rank[bounds[i]]
      invariant forall t :: 0 <= t < i ==> bounds[t + 1] <= n && startIndexes[t] == rank[bounds[t + 1]]
      invariant forall t :: i <= t < |counts| ==> startIndexes[t] == counts[t]
    {
      rsize := rsize + startIndexes[i];
      if i > 0 {
        startIndexes := startIndexes[i := startIndexes[i] + startIndexes[i - 1]];
      }
      assert InBlock(bounds, n, i, bounds[i]) && rank[bounds[1..][i]] == rank[bounds[i]] + counts[i];
    }
  }

  /** The places lo to hi hold what they should. */
  ghost predicate Written<R>(table: seq<R>, goal: seq<R>, lo: nat, hi: nat) {
    hi <= |table| == |goal| && forall k :: lo <= k < hi ==> table[k] == goal[k]
  }

  /** Every thread has filled its own range, which starts at rank[bounds[t]], up to rank[pos[t]]. */
  ghost predicate Scattered<R>(bounds: seq<nat>, pos: seq<nat>, rank: seq<nat>, table: seq<R>, goal: seq<R>) {
    forall t :: 0 <= t < |pos| ==>
      t < |bounds| && bounds[t] < |rank| && pos[t] < |rank| && Written(table, goal, rank[bounds[t]], rank[pos[t]])
  }

  /** The place where thread t writes next is the rank of its position. */
  ghost predicate AtRank(place: seq<nat>, pos: seq<nat>, rank: seq<nat>) {
    |place| == |pos| && forall t :: 0 <= t < |pos| ==> pos[t] < |rank| && place[t] == rank[pos[t]]
  }

  /** A step of thread t writes at most one place, and that place lies in its own range. */
  lemma ScatteredStep<T, R>(s: seq<T>, bounds: seq<nat>, pos: seq<nat>, t: nat, rank: seq<nat>, table: seq<R>,
                            goal: seq<R>,
                            place: seq<nat>, pred: T -> bool, f: T -> R)
    requires t < |pos| && InBlock(bounds, |s|, t, pos[t]) && pos[t] < bounds[t + 1] && AtRank(place, pos, rank)
    requires IsRank(s, pred, f, goal, rank) && Scattered(bounds, pos, rank, table, goal) && |table| == |goal|
    ensures AtRank(place[t := place[t] + if pred(s[pos[t]]) then 1 else 0], pos[t := pos[t] + 1], rank)
    ensures !pred(s[pos[t]]) ==> Scattered(bounds, pos[t := pos[t] + 1], rank, table, goal)
    ensures pred(s[pos[t]]) ==>
      && rank[bounds[t]] <= rank[pos[t]] < rank[bounds[t + 1]] <= |goal|
      && Scattered(bounds, pos[t := pos[t] + 1], rank, table[rank[pos[t]] := f(s[pos[t]])], goal)
  {
    var i, pos' := pos[t], pos[t := pos[t] + 1];
    assert rank[i + 1] == rank[i] + if pred(s[i]) then 1 else 0;
    RankMonotone(s, pred, f, goal, rank, bounds[t], i);
    RankMonotone(s, pred, f, goal, rank, i + 1, bounds[t + 1]);
    RankMonotone(s, pred, f, goal, rank, bounds[t + 1], |s|);
    if pred(s[i]) {
      var table' := table[rank[i] := f(s[i])];
      forall u | 0 <= u < |pos|
        ensures u < |bounds| && bounds[u] < |rank| && Written(table', goal, rank[bounds[u]], rank[pos'[u]])
      {
        assert pos[u] < |rank| && Written(table, goal, rank[bounds[u]], rank[pos[u]]);
      }
    }
  }

  /** When no thread has work left, the ranges make up the whole result. */
  lemma {:induction false} ScatteredDone<R>(bounds: seq<nat>, n: nat, rank: seq<nat>, table: seq<R>, goal: seq<R>,
                                            t: nat)
    requires Blocks(bounds, n) && |rank| == n + 1 && rank[0] == 0 && t < |bounds| && |table| == |goal|
    requires Scattered(bounds, bounds[1..], rank, table, goal)
    ensures bounds[t] <= n && Written(table, goal, 0, rank[bounds[t]])
  {
    if t > 0 {
      ScatteredDone(bounds, n, rank, table, goal, t - 1);
      assert InBlock(bounds, n, t - 1, bounds[t - 1]);
      assert Written(table, goal, rank[bounds[t - 1]], rank[bounds[1..][t - 1]]);
    }
  }

  /** The second pass, again under any schedule. */
  method ScatterLoops<T, R>(s: seq<T>, bounds: seq<nat>, start: seq<nat>, pred: T -> bool, f: T -> R, table: array<R>,
                            ghost goal: seq<R>, ghost rank: seq<nat>)
    requires Blocks(bounds, |s|) && IsRank(s, pred, f, goal, rank) && table.Length == |goal|
    requires AtRank(start, bounds[..|bounds| - 1], rank) && forall t :: 0 <= t < |start| ==> start[t] <= |goal|
    modifies table
    ensures table[..] == goal
  {
    var n := |bounds| - 1;
    var place, pos := start, bounds[..n];
    while exists t :: 0 <= t < n && pos[t] < bounds[t + 1]
      invariant Positions(bounds, |s|, pos) && AtRank(place, pos, rank)
      invariant Scattered(bounds, pos, rank, table[..], goal)
      decreases WorkLeft(bounds, pos, n)
    {
      var t :| 0 <= t < n && pos[t] < bounds[t + 1];
      StepProgress(bounds, |s|, pos, t, n);
      ScatteredStep(s, bounds, pos, t, rank, table[..], goal, place, pred, f);
      if pred(s[pos[t]]) {
        ghost var before := table[..];
        table[place[t]] := f(s[pos[t]]);
        assert table[..] == before[place[t] := f(s[pos[t]])];
        place := place[t := place[t] + 1];
      }
      pos := pos[t := pos[t] + 1];
    }
    assert pos == bounds[1..];
    ScatteredDone(bounds, |s|, rank, table[..], goal, n);
  }

  method ScatterPass<T, R(0)>(s: seq<T>, bounds: seq<nat>, startIndexes: seq<nat>, rsize: nat, pred: T -> bool,
                              f: T -> R,
                              ghost goal: seq<R>, ghost rank: seq<nat>) returns (table: array<R>)
    requires Blocks(bounds, |s|) && |startIndexes| == |bounds| - 1 && rsize == |goal|
    requires IsRank(s, pred, f, goal, rank)
    requires forall t :: 0 <= t < |startIndexes| ==> bounds[t + 1] <= |s| && startIndexes[t] == rank[bounds[t + 1]]
    ensures fresh(table) && table[..] == goal
  {
    var n := |bounds| - 1;
    table := new R[rsize];
    var place := seq(n, t requires 0 <= t < n => if t > 0 then startIndexes[t - 1] else 0);
    forall t | 0 <= t < n ensures InBlock(bounds, |s|, t, bounds[t]) && place[t] == rank[bounds[t]] <= rsize {
      assert t > 0 ==> startIndexes[t - 1] == rank[bounds[t - 1 + 1]];
      RankMonotone(s, pred, f, goal, rank, bounds[t], |s|);
    }
    ScatterLoops(s, bounds, place, pred, f, table, goal, rank);
  }

  /** The whole filter: for every block partition and every schedule, the sequential result. */
  method ParallelSelect<T, R(0)>(s: seq<T>, bounds: seq<nat>, pred: T -> bool, f: T -> R) returns (result: seq<R>)
    requires Blocks(bounds, |s|)
    ensures result == Filtered(s, pred, f)
  {
    ghost var goal := Filtered(s, pred, f);
    ghost var rank := MakeRank(s, pred, f);
    var counts := CountPass(s, bounds, pred, f, goal, rank);
    var startIndexes, rsize := PrefixSum(bounds, |s|, counts, rank);
    var table := ScatterPass(s, bounds, startIndexes, rsize, pred, f, goal, rank);
    result := table[..];
  }

  /** The static schedule of the runtime: some cut of 0..n into one block a thread. */
  method ChooseBlocks(n: nat, threads: nat) returns (bounds: seq<nat>)
    requires threads >= 1
    ensures Blocks(bounds, n) && |bounds| == threads + 1
  {
    bounds := [0];
    for t := 1 to threads
      invariant |bounds| == t && bounds[0] == 0 && bounds[t - 1] <= n
      invariant forall u :: 0 <= u < t - 1 ==> InBlock(bounds, n, u, bounds[u])
    {
      var b: nat :| bounds[t - 1] <= b <= n;
      ghost var before := bounds;
      bounds := bounds + [b];
      forall u | 0 <= u < t ensures InBlock(bounds, n, u, bounds[u]) {
        assert u < t - 1 ==> InBlock(before, n, u, before[u]);
      }
    }
    ghost var before := bounds;
    bounds := bounds + [n];
    forall u | 0 <= u < threads ensures InBlock(bounds, n, u, bounds[u]) {
      assert u < threads - 1 ==> InBlock(before, n, u, before[u]);
    }
  }

  /** From this many rows on, filters and sorts use threads. */
  const MtFactNumThreshold := 512

  /** Small tables, and machines with few threads, take the sequential loop. */
  method Select<T, R(0)>(s: seq<T>, threads: nat, pred: T -> bool, f: T -> R) returns (result: seq<R>)
    requires threads >= 1
    ensures result == Filtered(s, pred, f)
  {
    if |s| < MtFactNumThreshold || threads <= 2 {
      result := SequentialSelect(s, pred, f);
    } else {
      var bounds := ChooseBlocks(|s|, threads);
      result := ParallelSelect(s, bounds, pred, f);
    }
  }
}
