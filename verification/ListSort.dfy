/** The list merge sort of the parser generator (merge and msort of thirdparty/lemon/lemon.c). Lists are
    linked nodes whose next pointers are rewritten in place; the bins hold partial results. */
module ListSort {

  const LISTSIZE := 30

  class Node<T> {
    const data: T
    var next: Node?<T>

    constructor (data: T, next: Node?<T>)
      ensures this.data == data && this.next == next
    {
      this.data, this.next := data, next;
    }
  }

  ghost predicate TotalPreorder<T(!new)>(le: (T, T) -> bool) {
    && (forall x, y :: le(x, y) || le(y, x))
    && forall x, y, z :: le(x, y) && le(y, z) ==> le(x, z)
  }

  // ---------------------------------------------------------------- chains of nodes

  /** `nodes` are linked one to the next. */
  ghost predicate Linked<T>(nodes: seq<Node<T>>)
    reads nodes
  {
    forall i :: 0 <= i < |nodes| - 1 ==> nodes[i].next == nodes[i + 1]
  }

  /** The list that begins at head is exactly `nodes`. */
  ghost predicate Chain<T>(head: Node?<T>, nodes: seq<Node<T>>)
    reads nodes
  {
    && Linked(nodes)
    && (nodes == [] ==> head == null)
    && (nodes != [] ==> head == nodes[0] && nodes[|nodes| - 1].next == null)
  }

  /** No node occurs twice. */
  ghost predicate Simple<T>(nodes: multiset<Node<T>>) {
    forall x :: x in nodes ==> nodes[x] == 1
  }

  lemma Apart<T>(x: Node<T>, a: multiset<Node<T>>, b: multiset<Node<T>>)
    requires Simple(a + b) && x in a
    ensures x !in b && a[x] == 1
  {
    assert x in a + b && (a + b)[x] == a[x] + b[x];
  }

  ghost predicate SortedNodes<T>(nodes: seq<Node<T>>, le: (T, T) -> bool) {
    forall i, j :: 0 <= i < j < |nodes| ==> le(nodes[i].data, nodes[j].data)
  }

  ghost function MergeNodes<T>(s: seq<Node<T>>, t: seq<Node<T>>, le: (T, T) -> bool): seq<Node<T>> {
    if s == [] then t
    else if t == [] then s
    else if le(s[0].data, t[0].data) then [s[0]] + MergeNodes(s[1..], t, le)
    else [t[0]] + MergeNodes(s, t[1..], le)
  }

  lemma {:induction false} MergePermutes<T>(s: seq<Node<T>>, t: seq<Node<T>>, le: (T, T) -> bool)
    ensures multiset(MergeNodes(s, t, le)) == multiset(s) + multiset(t)
    ensures |MergeNodes(s, t, le)| == |s| + |t|
  {
    if s == [] || t == [] {
    } else if le(s[0].data, t[0].data) {
      assert s == [s[0]] + s[1..];
      assert multiset(s) == multiset{s[0]} + multiset(s[1..]);
      MergePermutes(s[1..], t, le);
    } else {
      assert t == [t[0]] + t[1..];
      assert multiset(t) == multiset{t[0]} + multiset(t[1..]);
      MergePermutes(s, t[1..], le);
    }
  }

  /** A least node in front of a sorted merge. */
  lemma LeastFirst<T(!new)>(x: Node<T>, rest: seq<Node<T>>, s: seq<Node<T>>, t: seq<Node<T>>, le: (T, T) -> bool)
    requires SortedNodes(rest, le) && multiset(rest) == multiset(s) + multiset(t)
    requires (forall y :: y in s ==> le(x.data, y.data)) && forall y :: y in t ==> le(x.data, y.data)
    ensures SortedNodes([x] + rest, le)
  {
    forall k | 0 <= k < |rest| ensures le(x.data, rest[k].data) {
      assert rest[k] in multiset(rest);
    }
    forall i, j | 0 <= i < j < |[x] + rest| ensures le(([x] + rest)[i].data, ([x] + rest)[j].data) {
      if i > 0 {
        assert le(rest[i - 1].data, rest[j - 1].data);
      }
    }
  }

  lemma {:induction false} MergeSorts<T(!new)>(s: seq<Node<T>>, t: seq<Node<T>>, le: (T, T) -> bool)
    requires TotalPreorder(le) && SortedNodes(s, le) && SortedNodes(t, le)
    ensures SortedNodes(MergeNodes(s, t, le), le)
    decreases |s| + |t|
  {
    if s == [] || t == [] {
    } else if le(s[0].data, t[0].data) {
      MergeSorts(s[1..], t, le);
      MergePermutes(s[1..], t, le);
      assert forall k :: 0 <= k < |t| ==> le(t[0].data, t[k].data);
      LeastFirst(s[0], MergeNodes(s[1..], t, le), s[1..], t, le);
    } else {
      MergeSorts(s, t[1..], le);
      MergePermutes(s, t[1..], le);
      assert forall k :: 0 <= k < |s| ==> le(s[0].data, s[k].data);
      LeastFirst(t[0], MergeNodes(s, t[1..], le), s, t[1..], le);
    }
  }

  // ---------------------------------------------------------------- merge

  /** The loop of merge: done is linked up to ptr, and what is left of the two lists still hangs together. */
  ghost predicate Merging<T>(done: seq<Node<T>>, ptr: Node<T>, a: Node?<T>, ra: seq<Node<T>>, b: Node?<T>,
                             rb: seq<Node<T>>)
    reads done, ra, rb
  {
    && done != [] && ptr == done[|done| - 1] && Linked(done)
    && Chain(a, ra) && Chain(b, rb) && Simple(multiset(done) + (multiset(ra) + multiset(rb)))
  }

  lemma SplitHead<T>(s: seq<Node<T>>)
    requires s != []
    ensures s == [s[0]] + s[1..] && multiset(s) == multiset{s[0]} + multiset(s[1..])
  {
    assert s == [s[0]] + s[1..];
  }

  lemma ChainTail<T>(a: Node<T>, ra: seq<Node<T>>)
    requires Chain(a, ra) && ra != []
    ensures Chain(a.next, ra[1..])
  {
    assert forall i :: 0 <= i < |ra| - 1 ==> ra[1..][i] == ra[i + 1];
  }

  lemma LinkedAppend<T>(done: seq<Node<T>>, a: Node<T>)
    requires Linked(done) && (done != [] ==> done[|done| - 1].next == a)
    ensures Linked(done + [a])
  {
  }

  /** In a simple multiset of nodes no position repeats the last one. */
  lemma SimpleDistinct<T>(done: seq<Node<T>>, others: multiset<Node<T>>)
    requires done != [] && Simple(multiset(done) + others)
    ensures forall i :: 0 <= i < |done| - 1 ==> done[i] != done[|done| - 1]
  {
    var l, x := done[..|done| - 1], done[|done| - 1];
    assert done == l + [x];
    assert multiset(done) == multiset(l) + multiset{x};
    assert x in multiset(done);
    Apart(x, multiset(done), others);
    forall i | 0 <= i < |done| - 1 ensures done[i] != x {
      assert done[i] == l[i] && l[i] in multiset(l);
    }
  }

  /** The last node that is done is neither done before nor pending. */
  lemma NotPending<T>(done: seq<Node<T>>, ptr: Node<T>, a: Node?<T>, ra: seq<Node<T>>, b: Node?<T>, rb: seq<Node<T>>)
    requires Merging(done, ptr, a, ra, b, rb)
    ensures ptr !in ra && ptr !in rb && forall i :: 0 <= i < |done| - 1 ==> done[i] != ptr
  {
    Apart(ptr, multiset(done), multiset(ra) + multiset(rb));
    assert ptr in multiset(done) && ptr !in multiset(ra) && ptr !in multiset(rb);
    SimpleDistinct(done, multiset(ra) + multiset(rb));
  }

  /** Appends the head of a to what is done. */
  method TakeHead<T>(ptr: Node<T>, a: Node<T>, ghost done: seq<Node<T>>, ghost ra: seq<Node<T>>, ghost b: Node?<T>,
                     ghost rb: seq<Node<T>>)
    returns (a': Node?<T>)
    requires Merging(done, ptr, a, ra, b, rb)
    modifies ptr
    ensures ra != [] && a == ra[0] && Merging(done + [a], a, a', ra[1..], b, rb)
    ensures multiset(done + [a]) + (multiset(ra[1..]) + multiset(rb)) == multiset(done) + (multiset(ra) + multiset(rb))
  {
    hide Simple;
    assert ra != [];
    SplitHead(ra);
    NotPending(done, ptr, a, ra, b, rb);
    ptr.next := a;
    assert Chain(a, ra) && Chain(b, rb) && Linked(done);
    a' := a.next;
    ChainTail(a, ra);
    LinkedAppend(done, a);
    assert multiset(done + [a]) + (multiset(ra[1..]) + multiset(rb)) == multiset(done) + (multiset(ra) + multiset(rb));
  }

  method FinishMerge<T>(ptr: Node<T>, rest: Node?<T>, ghost done: seq<Node<T>>, ghost r: seq<Node<T>>)
    requires Merging(done, ptr, rest, r, null, [])
    modifies ptr
    ensures Chain(done[0], done + r)
  {
    ghost var none: seq<Node<T>> := [];
    SimpleDistinct(done, multiset(r) + multiset(none));
    Apart(ptr, multiset(done), multiset(r) + multiset(none));
    assert ptr !in multiset(r);
    ptr.next := rest;
  }

  /** Between two rounds of the loop: done is what the merge begins with. */
  ghost predicate Halfway<T>(goal: seq<Node<T>>, nodes: multiset<Node<T>>, done: seq<Node<T>>, ptr: Node<T>,
                             a: Node?<T>, ra: seq<Node<T>>, b: Node?<T>, rb: seq<Node<T>>, le: (T, T) -> bool)
    reads done, ra, rb
  {
    && Merging(done, ptr, a, ra, b, rb) && goal == done + MergeNodes(ra, rb, le)
    && multiset(done) + (multiset(ra) + multiset(rb)) == nodes
  }

  /** The smaller head is the first node of the merge. */
  lemma FirstNode<T>(a: Node<T>, sa: seq<Node<T>>, b: Node<T>, sb: seq<Node<T>>, le: (T, T) -> bool)
    requires Chain(a, sa) && Chain(b, sb) && Simple(multiset(sa) + multiset(sb))
    ensures sa != [] && sb != []
    ensures var goal, nodes := MergeNodes(sa, sb, le), multiset(sa) + multiset(sb);
            if le(a.data, b.data) then Halfway(goal, nodes, [a], a, a.next, sa[1..], b, sb, le)
            else Halfway(goal, nodes, [b], b, a, sa, b.next, sb[1..], le)
  {
    hide Simple;
    assert sa != [] && sb != [];
    if le(a.data, b.data) {
      SplitHead(sa);
      ChainTail(a, sa);
      assert multiset([a]) + (multiset(sa[1..]) + multiset(sb)) == multiset(sa) + multiset(sb);
    } else {
      SplitHead(sb);
      ChainTail(b, sb);
      assert multiset([b]) + (multiset(sa) + multiset(sb[1..])) == multiset(sa) + multiset(sb);
    }
  }

  lemma MergingSwap<T>(done: seq<Node<T>>, ptr: Node<T>, a: Node?<T>, ra: seq<Node<T>>, b: Node?<T>, rb: seq<Node<T>>)
    requires Merging(done, ptr, a, ra, b, rb)
    ensures Merging(done, ptr, b, rb, a, ra)
  {
    assert multiset(done) + (multiset(ra) + multiset(rb)) == multiset(done) + (multiset(rb) + multiset(ra));
  }

  lemma MergeNextLeft<T>(done: seq<Node<T>>, ra: seq<Node<T>>, rb: seq<Node<T>>, x: Node<T>, y: Node<T>,
                         le: (T, T) -> bool)
    requires ra != [] && rb != [] && x == ra[0] && y == rb[0] && le(x.data, y.data)
    ensures done + MergeNodes(ra, rb, le) == done + [x] + MergeNodes(ra[1..], rb, le)
  {
  }

  lemma MergeNextRight<T>(done: seq<Node<T>>, ra: seq<Node<T>>, rb: seq<Node<T>>, x: Node<T>, y: Node<T>,
                          le: (T, T) -> bool)
    requires ra != [] && rb != [] && x == ra[0] && y == rb[0] && !le(x.data, y.data)
    ensures done + MergeNodes(ra, rb, le) == done + [y] + MergeNodes(ra, rb[1..], le)
  {
  }

  /** One round of the loop. */
  method MergeStep<T(!new)>(ptr: Node<T>, a: Node<T>, b: Node<T>, ghost goal: seq<Node<T>>,
                            ghost nodes: multiset<Node<T>>,
                            ghost done: seq<Node<T>>, ghost ra: seq<Node<T>>, ghost rb: seq<Node<T>>,
                            le: (T, T) -> bool)
    returns (ptr': Node<T>, a': Node?<T>, b': Node?<T>, ghost done': seq<Node<T>>, ghost ra': seq<Node<T>>,
             ghost rb': seq<Node<T>>)
    requires Halfway(goal, nodes, done, ptr, a, ra, b, rb, le)
    modifies ptr
    ensures Halfway(goal, nodes, done', ptr', a', ra', b', rb', le)
    ensures done' != [] && done != [] && done'[0] == done[0] && |ra'| + |rb'| < |ra| + |rb|
  {
    hide Simple, Linked;
    a', b', ra', rb' := a, b, ra, rb;
    if le(a.data, b.data) {
      MergeNextLeft(done, ra, rb, a, b, le);
      a' := TakeHead(ptr, a, done, ra, b, rb);
      ptr', done', ra' := a, done + [a], ra[1..];
    } else {
      MergeNextRight(done, ra, rb, a, b, le);
      MergingSwap(done, ptr, a, ra, b, rb);
      b' := TakeHead(ptr, b, done, rb, a, ra);
      MergingSwap(done + [b], b, b', rb[1..], a, ra);
      ptr', done', rb' := b, done + [b], rb[1..];
      assert multiset(rb') + multiset(ra) == multiset(ra) + multiset(rb');
      assert multiset(rb) + multiset(ra) == multiset(ra) + multiset(rb);
    }
  }

  lemma NullIsEmpty<T>(done: seq<Node<T>>, ptr: Node<T>, a: Node?<T>, ra: seq<Node<T>>, b: Node?<T>, rb: seq<Node<T>>)
    requires Merging(done, ptr, a, ra, b, rb)
    ensures (a == null <==> ra == []) && (b == null <==> rb == [])
  {
  }

  lemma OwnNodes<T>(done: seq<Node<T>>, ptr: Node<T>, a: Node?<T>, ra: seq<Node<T>>, b: Node?<T>, rb: seq<Node<T>>,
                    sa: seq<Node<T>>, sb: seq<Node<T>>)
    requires Merging(done, ptr, a, ra, b, rb)
    requires multiset(done) + (multiset(ra) + multiset(rb)) == multiset(sa) + multiset(sb)
    ensures ptr in sa || ptr in sb
  {
    assert ptr in multiset(done);
    assert ptr in multiset(sa) + multiset(sb);
  }

  method MergeBoth<T(!new)>(a: Node<T>, b: Node<T>, ghost sa: seq<Node<T>>, ghost sb: seq<Node<T>>, le: (T, T) -> bool)
    returns (head: Node?<T>)
    requires Chain(a, sa) && Chain(b, sb) && Simple(multiset(sa) + multiset(sb))
    modifies sa, sb
    ensures Chain(head, MergeNodes(sa, sb, le))
  {
    hide Simple, Linked, Chain, Merging;
    FirstNode(a, sa, b, sb, le);
    ghost var goal, nodes := MergeNodes(sa, sb, le), multiset(sa) + multiset(sb);
    var x: Node?<T>, y: Node?<T>, ptr: Node<T> := a, b, a;
    ghost var ra, rb := sa, sb;
    if le(a.data, b.data) {
      ptr, x, ra := a, a.next, sa[1..];
    } else {
      ptr, y, rb := b, b.next, sb[1..];
    }
    ghost var done: seq<Node<T>> := [ptr];
    head := ptr;
    while x != null && y != null
      invariant Halfway(goal, nodes, done, ptr, x, ra, y, rb, le) && done != [] && head == done[0]
      decreases |ra| + |rb|
    {
      OwnNodes(done, ptr, x, ra, y, rb, sa, sb);
      ptr, x, y, done, ra, rb := MergeStep(ptr, x, y, goal, nodes, done, ra, rb, le);
    }
    OwnNodes(done, ptr, x, ra, y, rb, sa, sb);
    NullIsEmpty(done, ptr, x, ra, y, rb);
    if x != null {
      FinishMerge(ptr, x, done, ra);
    } else {
      MergingSwap(done, ptr, x, ra, y, rb);
      FinishMerge(ptr, y, done, rb);
    }
  }

  method Merge<T(!new)>(a: Node?<T>, b: Node?<T>, ghost sa: seq<Node<T>>, ghost sb: seq<Node<T>>, le: (T, T) -> bool)
    returns (head: Node?<T>)
    requires Chain(a, sa) && Chain(b, sb) && Simple(multiset(sa) + multiset(sb))
    modifies sa, sb
    ensures Chain(head, MergeNodes(sa, sb, le))
  {
    if a == null {
      return b;
    } else if b == null {
      return a;
    }
    head := MergeBoth(a, b, sa, sb, le);
  }

  // ---------------------------------------------------------------- the bins

  ghost function Pow2(i: nat): nat {
    if i == 0 then 1 else 2 * Pow2(i - 1)
  }

  /** All nodes of the bins. */
  ghost function Union<T>(bins: seq<seq<Node<T>>>): multiset<Node<T>> {
    if bins == [] then multiset{} else Union(bins[..|bins| - 1]) + multiset(bins[|bins| - 1])
  }

  lemma {:induction false} UnionUpdate<T>(bins: seq<seq<Node<T>>>, i: nat, s: seq<Node<T>>)
    requires i < |bins|
    ensures Union(bins[i := s]) + multiset(bins[i]) == Union(bins) + multiset(s)
  {
    var l, x := bins[..|bins| - 1], bins[|bins| - 1];
    if i == |bins| - 1 {
      assert bins[i := s][..|bins| - 1] == l;
    } else {
      assert bins[i := s][..|bins| - 1] == l[i := s] && l[i] == bins[i];
      UnionUpdate(l, i, s);
      assert (Union(l[i := s]) + multiset(x)) + multiset(l[i]) == (Union(l) + multiset(s)) + multiset(x);
    }
  }

  lemma {:induction false} UnionContains<T>(bins: seq<seq<Node<T>>>, i: nat, x: Node<T>)
    requires i < |bins| && x in bins[i]
    ensures x in Union(bins)
  {
    if i < |bins| - 1 {
      assert bins[..|bins| - 1][i] == bins[i];
      UnionContains(bins[..|bins| - 1], i, x);
    }
  }

  /** Bins of a simple union share no node with each other. */
  lemma BinsApart<T>(bins: seq<seq<Node<T>>>, others: multiset<Node<T>>, i: nat)
    requires i < |bins| && Simple(Union(bins) + others)
    ensures Simple(multiset(bins[i]) + others)
    ensures forall j, x :: 0 <= j < |bins| && j != i && x in bins[i] ==> x !in bins[j]
  {
    var rest := bins[i := []];
    UnionUpdate(bins, i, []);
    var none: seq<Node<T>> := [];
    assert Union(bins) == Union(rest) + multiset(bins[i]) by {
      assert multiset(none) == multiset{};
    }
    assert Union(bins) + others == multiset(bins[i]) + (Union(rest) + others);
    forall x | x in multiset(bins[i]) + others ensures (multiset(bins[i]) + others)[x] == 1 {
      assert x in Union(bins) + others;
      assert (Union(bins) + others)[x] == (multiset(bins[i]) + others)[x] + Union(rest)[x];
    }
    forall j, x | 0 <= j < |bins| && j != i && x in bins[i] ensures x !in bins[j] {
      Apart(x, multiset(bins[i]), Union(rest) + others);
      if x in bins[j] {
        assert rest[j] == bins[j];
        UnionContains(rest, j, x);
        assert false;
      }
    }
  }

  /** Bin i holds either nothing or 2^i nodes, in order. */
  ghost predicate GoodBin<T>(s: seq<Node<T>>, i: nat, le: (T, T) -> bool) {
    (s == [] || |s| == Pow2(i)) && SortedNodes(s, le)
  }

  ghost predicate GoodBins<T>(bins: seq<seq<Node<T>>>, le: (T, T) -> bool) {
    |bins| == LISTSIZE && forall i :: 0 <= i < |bins| ==> GoodBin(bins[i], i, le)
  }

  ghost function NodesOf<T>(bins: seq<seq<Node<T>>>): set<Node<T>> {
    set i, x | 0 <= i < |bins| && x in bins[i] :: x
  }

  lemma InNodesOf<T>(bins: seq<seq<Node<T>>>, i: nat)
    requires i < |bins|
    ensures forall x :: x in bins[i] ==> x in NodesOf(bins)
  {
  }

  /** The heads in the array are those of the bins. */
  ghost predicate Heads<T>(heads: array<Node?<T>>, bins: seq<seq<Node<T>>>)
    reads heads, NodesOf(bins)
  {
    heads.Length == |bins| && forall i :: 0 <= i < |bins| ==> (InNodesOf(bins, i); Chain(heads[i], bins[i]))
  }

  ghost predicate Full<T>(bins: seq<seq<Node<T>>>) {
    forall i :: 0 <= i < |bins| ==> bins[i] != []
  }

  /** A binary counter of n bins counts to at most 2^n - 1, and reaches that only when all are full. */
  lemma {:induction false} CounterBound<T>(bins: seq<seq<Node<T>>>, le: (T, T) -> bool)
    requires forall i :: 0 <= i < |bins| ==> GoodBin(bins[i], i, le)
    ensures |Union(bins)| <= Pow2(|bins|) - 1
    ensures Full(bins) ==> |Union(bins)| == Pow2(|bins|) - 1
  {
    if bins != [] {
      var l, x := bins[..|bins| - 1], bins[|bins| - 1];
      forall i | 0 <= i < |l| ensures GoodBin(l[i], i, le) {
        assert l[i] == bins[i];
      }
      CounterBound(l, le);
      assert GoodBin(x, |bins| - 1, le);
      if Full(bins) {
        assert forall i :: 0 <= i < |l| ==> l[i] == bins[i];
      }
    }
  }

  // ---------------------------------------------------------------- one element into the bins

  /** The carry has passed the bins below i, which are empty now; nothing was lost. */
  ghost predicate Carrying<T>(bins0: seq<seq<Node<T>>>, bins: seq<seq<Node<T>>>, i: nat, eps: seq<Node<T>>,
                              all: multiset<Node<T>>, le: (T, T) -> bool) {
    && |bins| == |bins0| == LISTSIZE && i < LISTSIZE && GoodBins(bins, le)
    && |eps| == Pow2(i) && SortedNodes(eps, le)
    && (forall k :: 0 <= k < i ==> bins0[k] != [] && bins[k] == [])
    && (forall k :: i <= k < LISTSIZE ==> bins[k] == bins0[k])
    && Union(bins) + multiset(eps) == all && Simple(all)
  }

  lemma HeadsEmptied<T>(heads: array<Node?<T>>, bins: seq<seq<Node<T>>>, i: nat)
    requires i < |bins| == heads.Length && heads[i] == null
    requires forall k :: 0 <= k < |bins| && k != i ==> Chain(heads[k], bins[k])
    ensures Heads(heads, bins[i := []])
  {
  }

  lemma OthersApart<T>(bins: seq<seq<Node<T>>>, eps: seq<Node<T>>, i: nat)
    requires i < |bins| && Simple(Union(bins) + multiset(eps))
    ensures forall k, x :: 0 <= k < |bins| && k != i && x in bins[k] ==> x !in eps && x !in bins[i]
  {
    BinsApart(bins, multiset(eps), i);
    forall k, x | 0 <= k < |bins| && k != i && x in bins[k] ensures x !in eps && x !in bins[i] {
      UnionContains(bins, k, x);
      Apart(x, Union(bins), multiset(eps));
    }
  }

  lemma NoneSorted<T>(none: seq<Node<T>>, le: (T, T) -> bool)
    requires none == []
    ensures SortedNodes(none, le)
  {
  }

  lemma CarriedUnion<T>(bins: seq<seq<Node<T>>>, i: nat, eps: seq<Node<T>>)
    requires i < |bins|
    ensures Union(bins[i := []]) + (multiset(eps) + multiset(bins[i])) == Union(bins) + multiset(eps)
  {
    var none: seq<Node<T>> := [];
    UnionUpdate(bins, i, none);
    assert multiset(none) == multiset{};
    assert Union(bins[i := none]) + (multiset(eps) + multiset(bins[i]))
      == (Union(bins[i := none]) + multiset(bins[i])) + multiset(eps);
  }

  lemma CarryKeeps<T(!new)>(bins0: seq<seq<Node<T>>>, bins: seq<seq<Node<T>>>, i: nat, eps: seq<Node<T>>,
                            all: multiset<Node<T>>, le: (T, T) -> bool)
    requires TotalPreorder(le) && Carrying(bins0, bins, i, eps, all, le) && i + 1 < LISTSIZE && bins[i] != []
    ensures Carrying(bins0, bins[i := []], i + 1, MergeNodes(eps, bins[i], le), all, le)
  {
    hide TotalPreorder, Simple, SortedNodes;
    var none: seq<Node<T>> := [];
    NoneSorted(none, le);
    assert GoodBin(bins[i], i, le) && GoodBin(none, i, le);
    MergePermutes(eps, bins[i], le);
    MergeSorts(eps, bins[i], le);
    CarriedUnion(bins, i, eps);
  }

  /** One carry: merges bin i into the list at hand and empties the bin. */
  method CarryOne<T(!new)>(ep: Node?<T>, heads: array<Node?<T>>, i: nat, ghost bins0: seq<seq<Node<T>>>,
                           ghost bins: seq<seq<Node<T>>>,
                           ghost eps: seq<Node<T>>, ghost all: multiset<Node<T>>, le: (T, T) -> bool)
    returns (ep': Node?<T>, ghost bins': seq<seq<Node<T>>>, ghost eps': seq<Node<T>>)
    requires TotalPreorder(le) && Carrying(bins0, bins, i, eps, all, le) && i + 1 < LISTSIZE && bins[i] != []
    requires Heads(heads, bins) && Chain(ep, eps)
    modifies heads, eps, bins[i]
    ensures Carrying(bins0, bins', i + 1, eps', all, le) && Heads(heads, bins') && Chain(ep', eps')
  {
    hide TotalPreorder, Simple, GoodBin;
    bins', eps' := bins[i := []], MergeNodes(eps, bins[i], le);
    BinsApart(bins, multiset(eps), i);
    assert multiset(bins[i]) + multiset(eps) == multiset(eps) + multiset(bins[i]);
    CarryKeeps(bins0, bins, i, eps, all, le);
    OthersApart(bins, eps, i);
    ep' := Merge(ep, heads[i], eps, bins[i], le);
    forall k | 0 <= k < |bins| && k != i ensures Chain(heads[k], bins[k]) {
      assert old(Chain(heads[k], bins[k]));
      forall x | x in bins[k] ensures x.next == old(x.next) {
        assert x !in eps && x !in bins[i];
      }
    }
    heads[i] := null;
    HeadsEmptied(heads, bins, i);
  }

  lemma {:induction false} UnionIsNodes<T>(bins: seq<seq<Node<T>>>, x: Node<T>)
    ensures x in Union(bins) <==> x in NodesOf(bins)
  {
    if bins != [] {
      var l := bins[..|bins| - 1];
      UnionIsNodes(l, x);
      if x in NodesOf(l) {
        var i :| 0 <= i < |l| && x in l[i];
        assert x in bins[i];
      }
      if x in NodesOf(bins) && x !in bins[|bins| - 1] {
        var i :| 0 <= i < |bins| && x in bins[i];
        assert x in l[i];
      }
      assert x in multiset(bins[|bins| - 1]) <==> x in bins[|bins| - 1];
      assert x in bins[|bins| - 1] ==> x in NodesOf(bins);
    }
  }

  /** The nodes at hand are those of the bins and the new one. */
  lemma CarryOwns<T>(bins0: seq<seq<Node<T>>>, bins: seq<seq<Node<T>>>, i: nat, eps: seq<Node<T>>,
                     all: multiset<Node<T>>,
                     ep: Node<T>, le: (T, T) -> bool)
    requires Carrying(bins0, bins, i, eps, all, le) && all == Union(bins0) + multiset{ep}
    ensures forall x :: x in eps || x in bins[i] ==> x == ep || x in NodesOf(bins0)
  {
    forall x | x in eps || x in bins[i] ensures x == ep || x in NodesOf(bins0) {
      if x in bins[i] {
        UnionContains(bins, i, x);
      }
      assert x in Union(bins) + multiset(eps);
      UnionIsNodes(bins0, x);
    }
  }

  /** Where the carry ends, the list at hand goes into the bin; what the bin held is lost. */
  lemma CarryEnds<T>(bins0: seq<seq<Node<T>>>, bins: seq<seq<Node<T>>>, i: nat, eps: seq<Node<T>>,
                     all: multiset<Node<T>>, le: (T, T) -> bool)
    requires Carrying(bins0, bins, i, eps, all, le) && (i < LISTSIZE - 1 ==> bins[i] == [])
    ensures GoodBins(bins[i := eps], le) && Union(bins[i := eps]) <= all
    ensures !Full(bins0) ==> Union(bins[i := eps]) == all
  {
    hide Simple;
    UnionUpdate(bins, i, eps);
    assert Union(bins[i := eps]) + multiset(bins[i]) == all;
    if !Full(bins0) && bins[i] != [] {
      assert forall k :: 0 <= k < |bins0| ==> bins0[k] != [];
    }
  }

  lemma CarryStarts<T>(bins: seq<seq<Node<T>>>, ep: Node<T>, le: (T, T) -> bool)
    requires GoodBins(bins, le) && Simple(Union(bins) + multiset{ep})
    ensures Carrying(bins, bins, 0, [ep], Union(bins) + multiset{ep}, le)
  {
  }

  /** The carry loop of msort for one element. */
  method InsertOne<T(!new)>(ep: Node<T>, heads: array<Node?<T>>, ghost bins: seq<seq<Node<T>>>, le: (T, T) -> bool)
    returns (ghost bins': seq<seq<Node<T>>>)
    requires TotalPreorder(le) && GoodBins(bins, le) && Heads(heads, bins) && ep.next == null
    requires Simple(Union(bins) + multiset{ep})
    modifies heads, NodesOf(bins), ep
    ensures GoodBins(bins', le) && Heads(heads, bins') && Union(bins') <= Union(bins) + multiset{ep}
    ensures !Full(bins) ==> Union(bins') == Union(bins) + multiset{ep}
  {
    hide TotalPreorder, Simple, GoodBins, Union, Full;
    ghost var all, now, eps := Union(bins) + multiset{ep}, bins, [ep];
    var x: Node?<T>, i := ep, 0;
    CarryStarts(bins, ep, le);
    while i < LISTSIZE - 1 && heads[i] != null
      invariant Carrying(bins, now, i, eps, all, le) && Heads(heads, now) && Chain(x, eps)
      decreases LISTSIZE - i
    {
      CarryOwns(bins, now, i, eps, all, ep, le);
      x, now, eps := CarryOne(x, heads, i, bins, now, eps, all, le);
      i := i + 1;
    }
    CarryEnds(bins, now, i, eps, all, le);
    heads[i] := x;
    bins' := now[i := eps];
  }

  // ---------------------------------------------------------------- collecting the bins

  ghost predicate Collected<T>(bins: seq<seq<Node<T>>>, i: nat, eps: seq<Node<T>>, le: (T, T) -> bool)
    requires i <= |bins|
  {
    multiset(eps) == Union(bins[..i]) && SortedNodes(eps, le)
  }

  lemma CollectMore<T(!new)>(bins: seq<seq<Node<T>>>, i: nat, eps: seq<Node<T>>, le: (T, T) -> bool)
    requires i < |bins| && GoodBins(bins, le) && Collected(bins, i, eps, le) && TotalPreorder(le)
    ensures Collected(bins, i + 1, MergeNodes(bins[i], eps, le), le)
    ensures Union(bins[..i + 1]) == multiset(bins[i]) + multiset(eps)
  {
    hide TotalPreorder, SortedNodes;
    assert GoodBin(bins[i], i, le);
    assert bins[..i + 1][..i] == bins[..i];
    MergePermutes(bins[i], eps, le);
    MergeSorts(bins[i], eps, le);
  }

  lemma PrefixNodes<T>(bins: seq<seq<Node<T>>>, n: nat)
    requires n <= |bins|
    ensures forall x :: x in Union(bins[..n]) ==> x in NodesOf(bins)
  {
    forall x | x in Union(bins[..n]) ensures x in NodesOf(bins) {
      UnionIsNodes(bins[..n], x);
      var k :| 0 <= k < n && x in bins[..n][k];
      assert x in bins[k];
    }
  }

  lemma {:induction false} PrefixIn<T>(bins: seq<seq<Node<T>>>, n: nat, x: Node<T>)
    requires n < |bins| && x in Union(bins[..n])
    ensures x in Union(bins[..|bins| - 1])
  {
    UnionIsNodes(bins[..n], x);
    var k :| 0 <= k < n && x in bins[..n][k];
    assert bins[..|bins| - 1][k] == bins[k];
    UnionContains(bins[..|bins| - 1], k, x);
  }

  /** A prefix of bins is simple, and apart from the later bins. */
  lemma {:induction false} PrefixApart<T>(bins: seq<seq<Node<T>>>, n: nat)
    requires n <= |bins| && Simple(Union(bins))
    ensures Simple(Union(bins[..n]))
    ensures forall k, x :: n <= k < |bins| && x in bins[k] ==> x !in Union(bins[..n])
    decreases |bins|
  {
    if n == |bins| {
      assert bins[..n] == bins;
    } else {
      var l, last := bins[..|bins| - 1], bins[|bins| - 1];
      forall x | x in Union(l) ensures Union(l)[x] == 1 && x !in last {
        assert x in Union(bins) && Union(bins)[x] == Union(l)[x] + multiset(last)[x];
      }
      PrefixApart(l, n);
      assert l[..n] == bins[..n];
      forall k, x | n <= k < |bins| && x in bins[k] ensures x !in Union(bins[..n]) {
        if k < |bins| - 1 {
          assert l[k] == bins[k];
        } else if x in Union(bins[..n]) {
          PrefixIn(bins, n, x);
        }
      }
    }
  }

  /** What is collected is apart from the bins to come. */
  lemma CollectApart<T>(bins: seq<seq<Node<T>>>, i: nat, eps: seq<Node<T>>)
    requires i < |bins| && Simple(Union(bins)) && Union(bins[..i + 1]) == multiset(bins[i]) + multiset(eps)
    ensures Simple(multiset(bins[i]) + multiset(eps))
    ensures forall k, x :: i < k < |bins| && x in bins[k] ==> x !in eps && x !in bins[i]
    ensures forall x :: x in eps || x in bins[i] ==> x in NodesOf(bins)
  {
    hide Simple;
    PrefixApart(bins, i + 1);
    PrefixNodes(bins, i + 1);
    assert forall x :: x in eps || x in bins[i] ==> x in multiset(bins[i]) + multiset(eps);
  }

  lemma CollectNone<T>(bins: seq<seq<Node<T>>>, le: (T, T) -> bool)
    requires GoodBins(bins, le)
    ensures |bins| == LISTSIZE && Collected(bins, 0, [], le)
    ensures var none: seq<Node<T>> := []; Chain(null, none)
  {
  }

  lemma CollectAll<T>(bins: seq<seq<Node<T>>>, eps: seq<Node<T>>, le: (T, T) -> bool)
    requires |bins| == LISTSIZE && Collected(bins, LISTSIZE, eps, le)
    ensures SortedNodes(eps, le) && multiset(eps) == Union(bins)
  {
    assert bins[..LISTSIZE] == bins;
  }

  method CollectOne<T(!new)>(ep: Node?<T>, heads: array<Node?<T>>, i: nat, ghost bins: seq<seq<Node<T>>>,
                             ghost eps: seq<Node<T>>, le: (T, T) -> bool)
    returns (ep': Node?<T>, ghost eps': seq<Node<T>>)
    requires i < |bins| == heads.Length && Chain(ep, eps) && Simple(multiset(bins[i]) + multiset(eps))
    requires forall k :: i <= k < |bins| ==> Chain(heads[k], bins[k])
    requires forall k, x :: i < k < |bins| && x in bins[k] ==> x !in eps && x !in bins[i]
    modifies eps, bins[i]
    ensures eps' == MergeNodes(bins[i], eps, le) && Chain(ep', eps')
    ensures forall k :: i < k < |bins| ==> Chain(heads[k], bins[k])
  {
    hide Simple;
    ep', eps' := ep, MergeNodes(bins[i], eps, le);
    if heads[i] != null {
      ep' := Merge(heads[i], ep, bins[i], eps, le);
    }
    forall k | i < k < |bins| ensures Chain(heads[k], bins[k]) {
      assert old(Chain(heads[k], bins[k]));
      forall x | x in bins[k] ensures x.next == old(x.next) {
        assert x !in eps && x !in bins[i];
      }
    }
  }

  /** The last loop of msort. */
  method Collect<T(!new)>(heads: array<Node?<T>>, ghost bins: seq<seq<Node<T>>>, le: (T, T) -> bool)
    returns (ep: Node?<T>, ghost eps: seq<Node<T>>)
    requires TotalPreorder(le) && GoodBins(bins, le) && Heads(heads, bins) && Simple(Union(bins))
    modifies NodesOf(bins)
    ensures Chain(ep, eps) && SortedNodes(eps, le) && multiset(eps) == Union(bins)
  {
    hide TotalPreorder, Simple, GoodBins, Collected, Chain;
    ep, eps := null, [];
    CollectNone(bins, le);
    for i := 0 to LISTSIZE
      invariant Chain(ep, eps) && Collected(bins, i, eps, le)
      invariant forall k :: i <= k < |bins| ==> Chain(heads[k], bins[k])
    {
      CollectMore(bins, i, eps, le);
      CollectApart(bins, i, eps);
      ep, eps := CollectOne(ep, heads, i, bins, eps, le);
    }
    CollectAll(bins, eps, le);
  }

  // ---------------------------------------------------------------- msort

  /** What the outer loop knows: the bins and the rest of the list hold distinct nodes of the input, and
      all of them unless the input is too long. */
  ghost predicate Sorting<T>(nodes: seq<Node<T>>, bins: seq<seq<Node<T>>>, rest: seq<Node<T>>, le: (T, T) -> bool) {
    && GoodBins(bins, le)
    && Union(bins) + multiset(rest) <= multiset(nodes)
    && (|nodes| < Pow2(LISTSIZE) ==> Union(bins) + multiset(rest) == multiset(nodes))
  }

  /** One more element in the bins. A bin is overwritten only when all are full, that is after 2^30 - 1
      elements. */
  lemma SortingOneMore<T>(nodes: seq<Node<T>>, bins: seq<seq<Node<T>>>, rest: seq<Node<T>>, bins': seq<seq<Node<T>>>,
                          le: (T, T) -> bool)
    requires Sorting(nodes, bins, rest, le) && rest != [] && GoodBins(bins', le)
    requires Union(bins') <= Union(bins) + multiset{rest[0]}
    requires !Full(bins) ==> Union(bins') == Union(bins) + multiset{rest[0]}
    ensures Sorting(nodes, bins', rest[1..], le)
  {
    SplitHead(rest);
    assert Union(bins) + multiset(rest) == (Union(bins) + multiset{rest[0]}) + multiset(rest[1..]);
    CounterBound(bins, le);
    assert |multiset(nodes)| == |nodes| && |multiset(rest)| == |rest|;
    assert |Union(bins) + multiset(rest)| == |Union(bins)| + |multiset(rest)|;
    assert |nodes| < Pow2(LISTSIZE) ==> !Full(bins);
  }

  lemma SortingApart<T>(nodes: seq<Node<T>>, bins: seq<seq<Node<T>>>, rest: seq<Node<T>>, le: (T, T) -> bool)
    requires Sorting(nodes, bins, rest, le) && Simple(multiset(nodes))
    ensures Simple(Union(bins) + multiset(rest)) && Simple(Union(bins))
    ensures forall x :: x in NodesOf(bins) || x in rest ==> x in nodes
    ensures forall x :: x in NodesOf(bins) ==> x !in rest
  {
    var all := Union(bins) + multiset(rest);
    forall x | x in all ensures all[x] == 1 {
      assert all[x] <= multiset(nodes)[x] && x in multiset(nodes);
    }
    forall x | x in Union(bins) ensures Union(bins)[x] == 1 {
      Apart(x, Union(bins), multiset(rest));
    }
    forall x | x in NodesOf(bins) || x in rest ensures x in nodes && (x in NodesOf(bins) ==> x !in rest) {
      UnionIsNodes(bins, x);
      assert x in all;
      assert all[x] <= multiset(nodes)[x];
      if x in NodesOf(bins) {
        Apart(x, Union(bins), multiset(rest));
      }
    }
  }

  lemma HeadApart<T>(bins: seq<seq<Node<T>>>, rest: seq<Node<T>>)
    requires rest != [] && Simple(Union(bins) + multiset(rest))
    ensures Simple(Union(bins) + multiset{rest[0]}) && rest[0] !in rest[1..]
  {
    SplitHead(rest);
    var all := Union(bins) + multiset(rest);
    forall x | x in Union(bins) + multiset{rest[0]} ensures (Union(bins) + multiset{rest[0]})[x] == 1 {
      assert x in all && all[x] == (Union(bins) + multiset{rest[0]})[x] + multiset(rest[1..])[x];
    }
    assert all == multiset{rest[0]} + (Union(bins) + multiset(rest[1..]));
    Apart(rest[0], multiset{rest[0]}, Union(bins) + multiset(rest[1..]));
    assert rest[0] !in multiset(rest[1..]);
  }

  /** Takes one element off the list and puts it into the bins. */
  method SortOne<T(!new)>(list: Node<T>, heads: array<Node?<T>>, ghost nodes: seq<Node<T>>,
                          ghost bins: seq<seq<Node<T>>>,
                          ghost rest: seq<Node<T>>, le: (T, T) -> bool)
    returns (list': Node?<T>, ghost bins': seq<seq<Node<T>>>, ghost rest': seq<Node<T>>)
    requires TotalPreorder(le) && Sorting(nodes, bins, rest, le) && Simple(multiset(nodes))
    requires Heads(heads, bins) && Chain(list, rest)
    modifies heads, nodes
    ensures Sorting(nodes, bins', rest', le) && Heads(heads, bins') && Chain(list', rest') && |rest'| < |rest|
  {
    hide TotalPreorder, Simple, GoodBins, GoodBin;
    assert rest != [];
    SortingApart(nodes, bins, rest, le);
    SplitHead(rest);
    assert list == rest[0] && rest[0] in rest;
    rest' := rest[1..];
    ChainTail(list, rest);
    list' := list.next;
    HeadApart(bins, rest);
    list.next := null;
    bins' := InsertOne(list, heads, bins, le);
    forall x | x in rest' ensures x.next == old(x.next) {
      assert x in rest && x !in NodesOf(bins) && x != list;
    }
    assert old(Chain(list.next, rest'));
    SortingOneMore(nodes, bins, rest, bins', le);
  }

  lemma {:induction false} UnionOfEmpty<T>(bins: seq<seq<Node<T>>>)
    requires forall i :: 0 <= i < |bins| ==> bins[i] == []
    ensures Union(bins) == multiset{}
  {
    if bins != [] {
      UnionOfEmpty(bins[..|bins| - 1]);
    }
  }

  lemma EmptyBins<T>(heads: array<Node?<T>>, bins: seq<seq<Node<T>>>, nodes: seq<Node<T>>, le: (T, T) -> bool)
    requires heads.Length == LISTSIZE == |bins| && forall i :: 0 <= i < LISTSIZE ==> heads[i] == null && bins[i] == []
    ensures Heads(heads, bins) && Sorting(nodes, bins, nodes, le)
  {
    UnionOfEmpty(bins);
  }

  lemma Pow2Of30()
    ensures Pow2(LISTSIZE) == 0x4000_0000
  {
    assert Pow2(5) == 32;
    assert Pow2(10) == 1024;
    assert Pow2(15) == 32768;
    assert Pow2(20) == 0x10_0000;
    assert Pow2(25) == 0x200_0000;
  }

  lemma SortingEnds<T>(nodes: seq<Node<T>>, bins: seq<seq<Node<T>>>, l: Node?<T>, rest: seq<Node<T>>,
                       le: (T, T) -> bool)
    requires Sorting(nodes, bins, rest, le) && Chain(l, rest) && l == null
    ensures rest == [] && GoodBins(bins, le) && Union(bins) <= multiset(nodes)
    ensures Union(bins) == multiset(nodes) <==> |nodes| < 0x4000_0000
  {
    assert multiset(rest) == multiset{};
    CounterBound(bins, le);
    Pow2Of30();
    assert |multiset(nodes)| == |nodes|;
  }

  /** msort: a sorted list of nodes of the input, which are all of them exactly when there are fewer
      than 2^30. */
  method Msort<T(!new)>(list: Node?<T>, ghost nodes: seq<Node<T>>, le: (T, T) -> bool)
    returns (head: Node?<T>, ghost result: seq<Node<T>>)
    requires TotalPreorder(le) && Chain(list, nodes) && Simple(multiset(nodes))
    modifies nodes
    ensures Chain(head, result) && SortedNodes(result, le) && multiset(result) <= multiset(nodes)
    ensures multiset(result) == multiset(nodes) <==> |nodes| < 0x4000_0000
  {
    hide TotalPreorder, Simple, GoodBins, Sorting, Chain;
    var heads: array<Node?<T>> := new Node?<T>[LISTSIZE](i => null);
    ghost var bins: seq<seq<Node<T>>>, rest := seq(LISTSIZE, i => []), nodes;
    var l := list;
    EmptyBins(heads, bins, nodes, le);
    while l != null
      invariant fresh(heads) && Sorting(nodes, bins, rest, le) && Heads(heads, bins) && Chain(l, rest)
      decreases |rest|
    {
      l, bins, rest := SortOne(l, heads, nodes, bins, rest, le);
    }
    SortingEnds(nodes, bins, l, rest, le);
    SortingApart(nodes, bins, rest, le);
    head, result := Collect(heads, bins, le);
  }
}
