/** The FIRST and FOLLOW sets of the parser generator: FindFirstSets and FindFollowSets of
    thirdparty/lemon/lemon.c. A set is a set value held in an array slot that is updated in place. */
module FirstFollow {

  // ---------------------------------------------------------------- sets that only grow

  ghost predicate Within(a: seq<set<nat>>, b: seq<set<nat>>) {
    |a| == |b| && forall i :: 0 <= i < |a| ==> a[i] <= b[i]
  }

  ghost function TotalSize(sets: seq<set<nat>>): nat {
    if sets == [] then 0 else TotalSize(sets[..|sets| - 1]) + |sets[|sets| - 1]|
  }

  lemma SubsetSize(a: set<nat>, b: set<nat>)
    requires a <= b
    ensures |a| <= |b| && (a != b ==> |a| < |b|)
  {
    assert b == a + (b - a);
  }

  lemma OneMoreTimes(n: nat, u: nat)
    ensures (n + 1) * u == n * u + u
  {
  }

  /** Growing a set grows the total; the total is bounded by the universe. */
  lemma {:induction false} TotalGrows(a: seq<set<nat>>, b: seq<set<nat>>, universe: set<nat>)
    requires Within(a, b) && forall i :: 0 <= i < |b| ==> b[i] <= universe
    ensures TotalSize(a) <= TotalSize(b) <= |b| * |universe|
    ensures a != b ==> TotalSize(a) < TotalSize(b)
  {
    if a != [] {
      var n := |a| - 1;
      TotalGrows(a[..n], b[..n], universe);
      SubsetSize(a[n], b[n]);
      SubsetSize(b[n], universe);
      assert |b[..n]| == n;
      assert a == a[..n] + [a[n]] && b == b[..n] + [b[n]];
      OneMoreTimes(n, |universe|);
    }
  }

  /** Adds s2 to the set in a slot and tells whether the slot changed: what ByteSets.SetUnion does on bytes. */
  method SetUnion(sets: array<set<nat>>, i: nat, s2: set<nat>) returns (progress: bool)
    requires i < sets.Length
    modifies sets
    ensures sets[..] == old(sets[..])[i := old(sets[i]) + s2]
    ensures progress <==> sets[..] != old(sets[..])
  {
    ghost var before := sets[..];
    progress := !(s2 <= sets[i]);
    sets[i] := sets[i] + s2;
    if progress {
      assert sets[..][i] != before[i];
    } else {
      assert before[i] + s2 == before[i] && sets[..] == before;
    }
  }

  // ---------------------------------------------------------------- grammars

  datatype Symbol = Terminal(index: nat) | NonTerminal(index: nat) | MultiTerminal(subsyms: set<nat>)

  datatype Rule = Rule(lhs: nat, rhs: seq<Symbol>)

  ghost predicate RuleFits(rule: Rule, n: nat) {
    rule.lhs < n && forall i :: 0 <= i < |rule.rhs| && rule.rhs[i].NonTerminal? ==> rule.rhs[i].index < n
  }

  /** Nonterminals are numbered below n. */
  ghost predicate IsGrammar(rules: seq<Rule>, n: nat) {
    forall r :: 0 <= r < |rules| ==> RuleFits(rules[r], n)
  }

  // ---------------------------------------------------------------- nullable nonterminals

  /** A symbol that is known to derive the empty string. */
  ghost predicate Vanishes(s: Symbol, lambda: seq<bool>) {
    s.NonTerminal? && s.index < |lambda| && lambda[s.index]
  }

  ghost predicate AllVanish(rhs: seq<Symbol>, n: nat, lambda: seq<bool>)
    requires n <= |rhs|
  {
    forall i :: 0 <= i < n ==> Vanishes(rhs[i], lambda)
  }

  ghost predicate LambdaRule(rule: Rule, lambda: seq<bool>) {
    AllVanish(rule.rhs, |rule.rhs|, lambda) ==> rule.lhs < |lambda| && lambda[rule.lhs]
  }

  /** A left side all of whose right side vanishes is marked. */
  ghost predicate LambdaClosed(rules: seq<Rule>, n: nat, lambda: seq<bool>) {
    |lambda| == n && forall r :: 0 <= r < |rules| ==> LambdaRule(rules[r], lambda)
  }

  ghost predicate LambdaBelow(a: seq<bool>, b: seq<bool>) {
    |a| == |b| && forall i :: 0 <= i < |a| ==> a[i] ==> b[i]
  }

  ghost predicate LambdaLeast(rules: seq<Rule>, n: nat, lambda: seq<bool>) {
    forall other :: LambdaClosed(rules, n, other) ==> LambdaBelow(lambda, other)
  }

  ghost function Unmarked(lambda: seq<bool>): nat {
    if lambda == [] then 0 else Unmarked(lambda[..|lambda| - 1]) + if lambda[|lambda| - 1] then 0 else 1
  }

  lemma {:induction false} MarkOne(lambda: seq<bool>, i: nat)
    requires i < |lambda| && !lambda[i]
    ensures Unmarked(lambda[i := true]) == Unmarked(lambda) - 1
  {
    var l := lambda[..|lambda| - 1];
    if i == |lambda| - 1 {
      assert lambda[i := true][..|lambda| - 1] == l;
    } else {
      assert lambda[i := true][..|lambda| - 1] == l[i := true];
      MarkOne(l, i);
    }
  }

  /** Marking a left side whose right side vanishes stays below every closed marking. */
  lemma MarkKeepsLeast(rules: seq<Rule>, n: nat, lambda: seq<bool>, r: nat)
    requires LambdaLeast(rules, n, lambda) && |lambda| == n && r < |rules| && rules[r].lhs < n
    requires AllVanish(rules[r].rhs, |rules[r].rhs|, lambda)
    ensures LambdaLeast(rules, n, lambda[rules[r].lhs := true])
  {
    forall other | LambdaClosed(rules, n, other) ensures LambdaBelow(lambda[rules[r].lhs := true], other) {
      assert LambdaBelow(lambda, other) && LambdaRule(rules[r], other);
      forall i | 0 <= i < |rules[r].rhs| ensures Vanishes(rules[r].rhs[i], other) {
        assert Vanishes(rules[r].rhs[i], lambda);
      }
    }
  }

  /** The scan of a right side: stops at the first symbol that does not vanish. */
  method RhsVanishes(rhs: seq<Symbol>, lambda: array<bool>) returns (all: bool)
    requires forall i :: 0 <= i < |rhs| && rhs[i].NonTerminal? ==> rhs[i].index < lambda.Length
    ensures all <==> AllVanish(rhs, |rhs|, lambda[..])
  {
    var i := 0;
    while i < |rhs|
      invariant i <= |rhs| && AllVanish(rhs, i, lambda[..])
    {
      if !rhs[i].NonTerminal? || !lambda[rhs[i].index] {
        assert !Vanishes(rhs[i], lambda[..]);
        return false;
      }
      i := i + 1;
    }
    return true;
  }

  method LambdaPass(rules: seq<Rule>, n: nat, lambda: array<bool>) returns (progress: bool)
    requires IsGrammar(rules, n) && lambda.Length == n && LambdaLeast(rules, n, lambda[..])
    modifies lambda
    ensures LambdaLeast(rules, n, lambda[..])
    ensures progress ==> Unmarked(lambda[..]) < old(Unmarked(lambda[..]))
    ensures !progress ==> lambda[..] == old(lambda[..]) && LambdaClosed(rules, n, lambda[..])
  {
    progress := false;
    for r := 0 to |rules|
      invariant LambdaLeast(rules, n, lambda[..])
      invariant progress ==> Unmarked(lambda[..]) < old(Unmarked(lambda[..]))
      invariant !progress ==> lambda[..] == old(lambda[..]) && forall k :: 0 <= k < r ==>
        LambdaRule(rules[k], lambda[..])
    {
      assert RuleFits(rules[r], n);
      if lambda[rules[r].lhs] {
        continue;
      }
      var all := RhsVanishes(rules[r].rhs, lambda);
      if all {
        MarkKeepsLeast(rules, n, lambda[..], r);
        MarkOne(lambda[..], rules[r].lhs);
        ghost var before := lambda[..];
        lambda[rules[r].lhs] := true;
        assert lambda[..] == before[rules[r].lhs := true];
        progress := true;
      }
    }
  }

  /** The first loop of FindFirstSets. */
  method FindLambdas(rules: seq<Rule>, n: nat) returns (lambda: array<bool>)
    requires IsGrammar(rules, n)
    ensures fresh(lambda) && LambdaClosed(rules, n, lambda[..]) && LambdaLeast(rules, n, lambda[..])
  {
    lambda := new bool[n](i => false);
    var progress := true;
    while progress
      invariant fresh(lambda) && lambda.Length == n && LambdaLeast(rules, n, lambda[..])
      invariant !progress ==> LambdaClosed(rules, n, lambda[..])
      decreases Unmarked(lambda[..]), progress
    {
      progress := LambdaPass(rules, n, lambda);
    }
  }

  // ---------------------------------------------------------------- FIRST sets

  /** What a symbol contributes to the FIRST set of a left side. */
  ghost function Contribution(s: Symbol, first: seq<set<nat>>): set<nat> {
    match s
    case Terminal(x) => {x}
    case MultiTerminal(xs) => xs
    case NonTerminal(x) => if x < |first| then first[x] else {}
  }

  ghost predicate FirstUpTo(rule: Rule, n: nat, lambda: seq<bool>, first: seq<set<nat>>)
    requires n <= |rule.rhs|
  {
    forall i :: 0 <= i < n && AllVanish(rule.rhs, i, lambda) ==>
      rule.lhs < |first| && Contribution(rule.rhs[i], first) <= first[rule.lhs]
  }

  /** The FIRST set of a left side holds the contribution of every symbol that only vanishing ones precede. */
  ghost predicate FirstClosed(rules: seq<Rule>, n: nat, lambda: seq<bool>, first: seq<set<nat>>) {
    |first| == n && forall r :: 0 <= r < |rules| ==> FirstUpTo(rules[r], |rules[r].rhs|, lambda, first)
  }

  ghost predicate FirstLeast(rules: seq<Rule>, n: nat, lambda: seq<bool>, first: seq<set<nat>>) {
    forall other :: FirstClosed(rules, n, lambda, other) ==> Within(first, other)
  }

  /** The terminals of the grammar. */
  ghost predicate Terminals(rules: seq<Rule>, universe: set<nat>) {
    forall r, i :: 0 <= r < |rules| && 0 <= i < |rules[r].rhs| ==>
      match rules[r].rhs[i]
      case Terminal(x) => x in universe
      case MultiTerminal(xs) => xs <= universe
      case NonTerminal(_) => true
  }

  ghost predicate FirstState(rules: seq<Rule>, n: nat, lambda: seq<bool>, universe: set<nat>, first: seq<set<nat>>) {
    |first| == n && FirstLeast(rules, n, lambda, first) && forall i :: 0 <= i < n ==> first[i] <= universe
  }

  /** Adding a contribution stays below every closed solution. */
  lemma AddKeepsState(rules: seq<Rule>, n: nat, lambda: seq<bool>, universe: set<nat>, first: seq<set<nat>>, r: nat,
                      i: nat)
    requires FirstState(rules, n, lambda, universe, first) && Terminals(rules, universe)
    requires r < |rules| && RuleFits(rules[r], n) && i < |rules[r].rhs| && AllVanish(rules[r].rhs, i, lambda)
    ensures var lhs := rules[r].lhs;
            FirstState(rules, n, lambda, universe, first[lhs := first[lhs] + Contribution(rules[r].rhs[i], first)])
  {
    var lhs, c := rules[r].lhs, Contribution(rules[r].rhs[i], first);
    assert c <= universe;
    forall other | FirstClosed(rules, n, lambda, other) ensures Within(first[lhs := first[lhs] + c], other) {
      assert Within(first, other) && FirstUpTo(rules[r], |rules[r].rhs|, lambda, other);
      assert c <= Contribution(rules[r].rhs[i], other);
    }
  }

  lemma RuleOf(rules: seq<Rule>, n: nat, r: nat)
    requires IsGrammar(rules, n) && r < |rules|
    ensures RuleFits(rules[r], n)
  {
  }

  lemma GrowsFrom(start: seq<set<nat>>, before: seq<set<nat>>, now: seq<set<nat>>, more: bool)
    requires Within(start, before) && Within(before, now) && (more <==> now != before)
    ensures Within(start, now) && (now != start <==> before != start || more)
  {
    if before != start {
      var i :| 0 <= i < |start| && start[i] != before[i];
      assert now[i] != start[i];
    }
  }

  /** Behind a symbol that does not vanish nothing contributes. */
  lemma StopsHere(rule: Rule, i: nat, lambda: seq<bool>, first: seq<set<nat>>)
    requires i < |rule.rhs| && !Vanishes(rule.rhs[i], lambda)
    ensures FirstUpTo(rule, i + 1, lambda, first) ==> FirstUpTo(rule, |rule.rhs|, lambda, first)
  {
    forall k | i < k < |rule.rhs| ensures !AllVanish(rule.rhs, k, lambda) {
      assert !Vanishes(rule.rhs[i], lambda);
    }
  }

  /** One rule of the second loop. */
  method FirstOfRule(rules: seq<Rule>, n: nat, lambda: array<bool>, first: array<set<nat>>, r: nat,
                     ghost universe: set<nat>)
    returns (progress: bool)
    requires r < |rules| && IsGrammar(rules, n) && Terminals(rules, universe) && lambda.Length == n == first.Length
    requires FirstState(rules, n, lambda[..], universe, first[..])
    modifies first
    ensures FirstState(rules, n, lambda[..], universe, first[..]) && Within(old(first[..]), first[..])
    ensures progress <==> first[..] != old(first[..])
    ensures !progress ==> FirstUpTo(rules[r], |rules[r].rhs|, lambda[..], first[..])
  {
    hide FirstState, Terminals, IsGrammar;
    progress := false;
    ghost var start := first[..];
    var lhs, i := rules[r].lhs, 0;
    assert RuleFits(rules[r], n) by { RuleOf(rules, n, r); }
    while i < |rules[r].rhs|
      invariant i <= |rules[r].rhs| && AllVanish(rules[r].rhs, i, lambda[..])
      invariant FirstState(rules, n, lambda[..], universe, first[..]) && Within(start, first[..])
      invariant progress <==> first[..] != start
      invariant !progress ==> FirstUpTo(rules[r], i, lambda[..], first[..])
    {
      var s2 := rules[r].rhs[i];
      ghost var before := first[..];
      AddKeepsState(rules, n, lambda[..], universe, before, r, i);
      if s2.NonTerminal? && s2.index == lhs {
        assert before[lhs] + before[lhs] == before[lhs];
      } else {
        var c := match s2 case Terminal(x) => {x} case MultiTerminal(xs) => xs case NonTerminal(x) => first[x];
        assert c == Contribution(s2, before);
        var more := SetUnion(first, lhs, c);
        progress := progress || more;
        GrowsFrom(start, before, first[..], more);
      }
      if !s2.NonTerminal? || !lambda[s2.index] {
        StopsHere(rules[r], i, lambda[..], first[..]);
        return;
      }
      i := i + 1;
    }
  }

  method FirstPass(rules: seq<Rule>, n: nat, lambda: array<bool>, first: array<set<nat>>, ghost universe: set<nat>)
    returns (progress: bool)
    requires IsGrammar(rules, n) && Terminals(rules, universe) && lambda.Length == n == first.Length
    requires FirstState(rules, n, lambda[..], universe, first[..])
    modifies first
    ensures FirstState(rules, n, lambda[..], universe, first[..]) && Within(old(first[..]), first[..])
    ensures progress <==> first[..] != old(first[..])
    ensures !progress ==> FirstClosed(rules, n, lambda[..], first[..])
  {
    hide FirstState, Terminals, IsGrammar, FirstUpTo;
    progress := false;
    ghost var start := first[..];
    for r := 0 to |rules|
      invariant FirstState(rules, n, lambda[..], universe, first[..]) && Within(start, first[..])
      invariant progress <==> first[..] != start
      invariant !progress ==> forall k :: 0 <= k < r ==> FirstUpTo(rules[k], |rules[k].rhs|, lambda[..], first[..])
    {
      ghost var before := first[..];
      var more := FirstOfRule(rules, n, lambda, first, r, universe);
      GrowsFrom(start, before, first[..], more);
      progress := progress || more;
    }
  }

  lemma FirstStarts(rules: seq<Rule>, n: nat, lambda: seq<bool>, universe: set<nat>, first: seq<set<nat>>)
    requires |first| == n && forall i :: 0 <= i < n ==> first[i] == {}
    ensures FirstState(rules, n, lambda, universe, first)
  {
  }

  /** FindFirstSets: lambda is the least closed marking and firstset the least closed family. */
  method FindFirstSets(rules: seq<Rule>, n: nat, ghost universe: set<nat>)
    returns (lambda: array<bool>, firstset: array<set<nat>>)
    requires IsGrammar(rules, n) && Terminals(rules, universe)
    ensures LambdaClosed(rules, n, lambda[..]) && LambdaLeast(rules, n, lambda[..])
    ensures FirstClosed(rules, n, lambda[..], firstset[..]) && FirstLeast(rules, n, lambda[..], firstset[..])
  {
    hide LambdaClosed, LambdaLeast, Terminals, IsGrammar, FirstClosed;
    lambda := FindLambdas(rules, n);
    ghost var marks := lambda[..];
    firstset := new set<nat>[n](i => {});
    var progress := true;
    FirstStarts(rules, n, lambda[..], universe, firstset[..]);
    while progress
      invariant fresh(firstset) && firstset.Length == n == lambda.Length && lambda[..] == marks
      invariant FirstState(rules, n, lambda[..], universe, firstset[..])
      invariant !progress ==> FirstClosed(rules, n, lambda[..], firstset[..])
      decreases n * |universe| - TotalSize(firstset[..]), progress
    {
      ghost var before := firstset[..];
      progress := FirstPass(rules, n, lambda, firstset, universe);
      TotalGrows(before, firstset[..], universe);
    }
  }

  // ---------------------------------------------------------------- FOLLOW sets

  /** What config c has is in every config its propagation links lead to. */
  ghost predicate Propagated(links: seq<seq<nat>>, c: nat, fws: seq<set<nat>>)
    requires c < |links|
  {
    forall k :: 0 <= k < |links[c]| && links[c][k] < |fws| && c < |fws| ==> fws[c] <= fws[links[c][k]]
  }

  ghost predicate FollowClosed(links: seq<seq<nat>>, fws: seq<set<nat>>) {
    |fws| == |links| && forall c :: 0 <= c < |links| ==> Propagated(links, c, fws)
  }

  ghost predicate AreLinks(links: seq<seq<nat>>) {
    forall c, k :: 0 <= c < |links| && 0 <= k < |links[c]| ==> links[c][k] < |links|
  }

  /** Above the initial sets and below every closed family above them. */
  ghost predicate FollowState(links: seq<seq<nat>>, init: seq<set<nat>>, universe: set<nat>, fws: seq<set<nat>>) {
    && Within(init, fws) && |fws| == |links|
    && (forall other :: FollowClosed(links, other) && Within(init, other) ==> Within(fws, other))
    && forall i :: 0 <= i < |fws| ==> fws[i] <= universe
  }

  /** A config marked COMPLETE is contained in all its targets. */
  ghost predicate CompleteMeans(links: seq<seq<nat>>, complete: seq<bool>, fws: seq<set<nat>>) {
    |complete| == |links| && forall c :: 0 <= c < |links| && complete[c] ==> Propagated(links, c, fws)
  }

  lemma PropagateKeepsState(links: seq<seq<nat>>, init: seq<set<nat>>, universe: set<nat>, fws: seq<set<nat>>, c: nat,
                            k: nat)
    requires FollowState(links, init, universe, fws) && AreLinks(links) && c < |links| && k < |links[c]|
    ensures var t := links[c][k]; FollowState(links, init, universe, fws[t := fws[t] + fws[c]])
  {
    var t := links[c][k];
    forall other | FollowClosed(links, other) && Within(init, other) ensures Within(fws[t := fws[t] + fws[c]], other) {
      assert Within(fws, other) && Propagated(links, c, other);
    }
  }

  /** A change at t makes t incomplete; every other complete config stays contained in its targets. */
  lemma ChangeKeepsComplete(links: seq<seq<nat>>, complete: seq<bool>, fws: seq<set<nat>>, t: nat, more: set<nat>)
    requires CompleteMeans(links, complete, fws) && t < |fws| == |links|
    ensures CompleteMeans(links, complete[t := false], fws[t := fws[t] + more])
    ensures fws[t] + more == fws[t] ==> CompleteMeans(links, complete, fws[t := fws[t] + more])
  {
    forall c | 0 <= c < |links| && complete[c] && c != t ensures Propagated(links, c, fws[t := fws[t] + more]) {
      assert Propagated(links, c, fws);
    }
  }

  ghost predicate LinkDone(links: seq<seq<nat>>, c: nat, m: nat, fws: seq<set<nat>>) {
    c < |links| && m < |links[c]| && links[c][m] < |fws| && c < |fws| && fws[c] <= fws[links[c][m]]
  }

  lemma LinkInRange(links: seq<seq<nat>>, c: nat, k: nat)
    requires AreLinks(links) && c < |links| && k < |links[c]|
    ensures links[c][k] < |links|
  {
  }

  lemma LinksStayDone(links: seq<seq<nat>>, c: nat, k: nat, before: seq<set<nat>>, now: seq<set<nat>>)
    requires c < |links| == |before| && k < |links[c]| && links[c][k] < |before|
    requires now == before[links[c][k] := before[links[c][k]] + before[c]]
    requires forall m :: 0 <= m < k ==> LinkDone(links, c, m, before)
    ensures now[c] == before[c] && forall m :: 0 <= m < k + 1 ==> LinkDone(links, c, m, now)
  {
    forall m | 0 <= m < k + 1 ensures LinkDone(links, c, m, now) {
      if m < k {
        assert LinkDone(links, c, m, before);
      }
    }
  }

  lemma ConfigDone(links: seq<seq<nat>>, marks: seq<bool>, c: nat, fws: seq<set<nat>>)
    requires CompleteMeans(links, marks, fws) && c < |links| == |fws|
    requires forall m :: 0 <= m < |links[c]| ==> LinkDone(links, c, m, fws)
    ensures CompleteMeans(links, marks[c := true], fws)
  {
    assert forall k :: 0 <= k < |links[c]| ==> LinkDone(links, c, k, fws);
    forall k | 0 <= k < |links[c]| ensures links[c][k] < |fws| ==> fws[c] <= fws[links[c][k]] {
      assert LinkDone(links, c, k, fws);
    }
  }

  /** The loop over the propagation links of one config. */
  method PropagateConfig(links: seq<seq<nat>>, fws: array<set<nat>>, complete: array<bool>, c: nat,
                         ghost init: seq<set<nat>>, ghost universe: set<nat>) returns (progress: bool)
    requires AreLinks(links) && c < |links| == fws.Length == complete.Length
    requires FollowState(links, init, universe, fws[..]) && CompleteMeans(links, complete[..], fws[..]) && !complete[c]
    modifies fws, complete
    ensures FollowState(links, init, universe, fws[..]) && CompleteMeans(links, complete[..], fws[..])
    ensures Within(old(fws[..]), fws[..]) && (progress <==> fws[..] != old(fws[..]))
    ensures !progress ==> complete[..] == old(complete[..])[c := true]
  {
    hide FollowState, CompleteMeans, AreLinks;
    progress := false;
    ghost var start, marks := fws[..], complete[..];
    for k := 0 to |links[c]|
      invariant FollowState(links, init, universe, fws[..]) && CompleteMeans(links, complete[..], fws[..])
      invariant !complete[c]
      invariant Within(start, fws[..]) && (progress <==> fws[..] != start)
      invariant !progress ==> complete[..] == marks
      invariant fws[c] == start[c]
      invariant forall m :: 0 <= m < k ==> LinkDone(links, c, m, fws[..])
    {
      assert links[c][k] < |links| by { LinkInRange(links, c, k); }
      ghost var before := fws[..];
      PropagateKeepsState(links, init, universe, before, c, k);
      ChangeKeepsComplete(links, complete[..], before, links[c][k], before[c]);
      var change := SetUnion(fws, links[c][k], fws[c]);
      LinksStayDone(links, c, k, before, fws[..]);
      GrowsFrom(start, before, fws[..], change);
      if change {
        ghost var marksBefore := complete[..];
        complete[links[c][k]] := false;
        assert complete[..] == marksBefore[links[c][k] := false];
        progress := true;
      }
    }
    ghost var now := complete[..];
    complete[c] := true;
    assert complete[..] == now[c := true];
    ConfigDone(links, now, c, fws[..]);
  }

  /** One round over all configs of all states. */
  method FollowPass(links: seq<seq<nat>>, fws: array<set<nat>>, complete: array<bool>, ghost init: seq<set<nat>>,
                    ghost universe: set<nat>)
    returns (progress: bool)
    requires AreLinks(links) && |links| == fws.Length == complete.Length
    requires FollowState(links, init, universe, fws[..]) && CompleteMeans(links, complete[..], fws[..])
    modifies fws, complete
    ensures FollowState(links, init, universe, fws[..]) && CompleteMeans(links, complete[..], fws[..])
    ensures Within(old(fws[..]), fws[..]) && (progress <==> fws[..] != old(fws[..]))
    ensures !progress ==> forall c :: 0 <= c < |links| ==> complete[c]
  {
    hide FollowState, CompleteMeans, AreLinks;
    progress := false;
    ghost var start := fws[..];
    for c := 0 to |links|
      invariant FollowState(links, init, universe, fws[..]) && CompleteMeans(links, complete[..], fws[..])
      invariant Within(start, fws[..]) && (progress <==> fws[..] != start)
      invariant !progress ==> forall k :: 0 <= k < c ==> complete[..][k]
    {
      if complete[c] {
        continue;
      }
      ghost var before, marks := fws[..], complete[..];
      var more := PropagateConfig(links, fws, complete, c, init, universe);
      GrowsFrom(start, before, fws[..], more);
      progress := progress || more;
    }
  }

  /** FindFollowSets: the least family above the initial sets that is closed along the links. */
  method FindFollowSets(links: seq<seq<nat>>, fws: array<set<nat>>, ghost universe: set<nat>)
    requires AreLinks(links) && |links| == fws.Length && forall i :: 0 <= i < fws.Length ==> fws[i] <= universe
    modifies fws
    ensures FollowClosed(links, fws[..]) && Within(old(fws[..]), fws[..])
    ensures forall other :: FollowClosed(links, other) && Within(old(fws[..]), other) ==> Within(fws[..], other)
  {
    hide AreLinks, Propagated;
    ghost var init := fws[..];
    var complete := new bool[|links|](i => false);
    var progress := true;
    while progress
      invariant fresh(complete) && complete.Length == |links|
      invariant FollowState(links, init, universe, fws[..]) && CompleteMeans(links, complete[..], fws[..])
      invariant !progress ==> forall c :: 0 <= c < |links| ==> complete[c]
      decreases |links| * |universe| - TotalSize(fws[..]), progress
    {
      ghost var before := fws[..];
      progress := FollowPass(links, fws, complete, init, universe);
      TotalGrows(before, fws[..], universe);
    }
    assert forall c :: 0 <= c < |links| ==> complete[..][c];
  }

  // ---------------------------------------------------------------- what the solutions mean

  ghost predicate EmptyBy(rules: seq<Rule>, rule: Rule, a: nat, h: nat)
    requires h > 0
    decreases h, 0
  {
    && rule.lhs == a
    && forall i :: 0 <= i < |rule.rhs| ==> rule.rhs[i].NonTerminal? && DerivesEmpty(rules, rule.rhs[i].index, h - 1)
  }

  /** Nonterminal a derives the empty string by a derivation tree of height at most h. */
  ghost predicate DerivesEmpty(rules: seq<Rule>, a: nat, h: nat)
    decreases h, 1
  {
    h > 0 && exists r :: 0 <= r < |rules| && EmptyBy(rules, rules[r], a, h)
  }

  ghost predicate Nullable(rules: seq<Rule>, a: nat) {
    exists h: nat :: DerivesEmpty(rules, a, h)
  }

  lemma {:induction false} EmptyMonotone(rules: seq<Rule>, a: nat, h: nat, k: nat)
    requires h <= k && DerivesEmpty(rules, a, h)
    ensures DerivesEmpty(rules, a, k)
    decreases h
  {
    var r :| 0 <= r < |rules| && EmptyBy(rules, rules[r], a, h);
    forall i | 0 <= i < |rules[r].rhs|
      ensures rules[r].rhs[i].NonTerminal? && DerivesEmpty(rules, rules[r].rhs[i].index, k - 1)
    {
      EmptyMonotone(rules, rules[r].rhs[i].index, h - 1, k - 1);
    }
    assert EmptyBy(rules, rules[r], a, k);
  }

  lemma {:induction false} CommonHeight(rules: seq<Rule>, rhs: seq<Symbol>, n: nat) returns (h: nat)
    requires n <= |rhs| && forall i :: 0 <= i < n ==> rhs[i].NonTerminal? && Nullable(rules, rhs[i].index)
    ensures forall i :: 0 <= i < n ==> DerivesEmpty(rules, rhs[i].index, h)
  {
    h := 0;
    if n > 0 {
      var k := CommonHeight(rules, rhs, n - 1);
      var l: nat :| DerivesEmpty(rules, rhs[n - 1].index, l);
      h := if k < l then l else k;
      forall i | 0 <= i < n ensures DerivesEmpty(rules, rhs[i].index, h) {
        EmptyMonotone(rules, rhs[i].index, if i < n - 1 then k else l, h);
      }
    }
  }

  lemma {:induction false} EmptyIsMarked(rules: seq<Rule>, n: nat, lambda: seq<bool>, a: nat, h: nat)
    requires IsGrammar(rules, n) && LambdaClosed(rules, n, lambda) && DerivesEmpty(rules, a, h)
    ensures a < n && lambda[a]
    decreases h
  {
    var r :| 0 <= r < |rules| && EmptyBy(rules, rules[r], a, h);
    assert RuleFits(rules[r], n) && LambdaRule(rules[r], lambda);
    forall i | 0 <= i < |rules[r].rhs| ensures Vanishes(rules[r].rhs[i], lambda) {
      EmptyIsMarked(rules, n, lambda, rules[r].rhs[i].index, h - 1);
    }
  }

  /** The least closed marking marks exactly the nonterminals that derive the empty string. */
  lemma LambdaMeansNullable(rules: seq<Rule>, n: nat, lambda: seq<bool>, a: nat)
    requires IsGrammar(rules, n) && LambdaClosed(rules, n, lambda) && LambdaLeast(rules, n, lambda) && a < n
    ensures lambda[a] <==> Nullable(rules, a)
  {
    var other := seq(n, b requires 0 <= b < n => Nullable(rules, b));
    forall r | 0 <= r < |rules| ensures LambdaRule(rules[r], other) {
      assert RuleFits(rules[r], n);
      if AllVanish(rules[r].rhs, |rules[r].rhs|, other) {
        assert forall i :: 0 <= i < |rules[r].rhs| ==> Vanishes(rules[r].rhs[i], other);
        var h := CommonHeight(rules, rules[r].rhs, |rules[r].rhs|);
        assert EmptyBy(rules, rules[r], rules[r].lhs, h + 1);
        assert DerivesEmpty(rules, rules[r].lhs, h + 1);
      }
    }
    assert LambdaBelow(lambda, other);
    if h: nat :| DerivesEmpty(rules, a, h) {
      EmptyIsMarked(rules, n, lambda, a, h);
    }
  }

  ghost predicate BeginsBy(rules: seq<Rule>, rule: Rule, i: nat, a: nat, t: nat, h: nat)
    requires h > 0 && i < |rule.rhs|
    decreases h, 0
  {
    && rule.lhs == a
    && (forall j :: 0 <= j < i ==> rule.rhs[j].NonTerminal? && Nullable(rules, rule.rhs[j].index))
    && match rule.rhs[i]
       case Terminal(x) => x == t
       case MultiTerminal(xs) => t in xs
       case NonTerminal(x) => Begins(rules, x, t, h - 1)
  }

  /** Terminal t can begin what nonterminal a derives, in at most h steps. */
  ghost predicate Begins(rules: seq<Rule>, a: nat, t: nat, h: nat)
    decreases h, 1
  {
    h > 0 && exists r, i :: 0 <= r < |rules| && 0 <= i < |rules[r].rhs| && BeginsBy(rules, rules[r], i, a, t, h)
  }

  lemma MarkingSize(rules: seq<Rule>, n: nat, lambda: seq<bool>)
    requires LambdaClosed(rules, n, lambda)
    ensures |lambda| == n
  {
  }

  /** Both ways to say that the symbols before i vanish. */
  lemma PrefixVanishes(rules: seq<Rule>, n: nat, lambda: seq<bool>, rule: Rule, i: nat)
    requires IsGrammar(rules, n) && LambdaClosed(rules, n, lambda) && LambdaLeast(rules, n, lambda)
    requires RuleFits(rule, n) && i <= |rule.rhs|
    ensures AllVanish(rule.rhs, i, lambda) <==> forall j :: 0 <= j < i ==>
      rule.rhs[j].NonTerminal? && Nullable(rules, rule.rhs[j].index)
  {
    hide LambdaClosed, LambdaLeast, IsGrammar, Nullable;
    forall j | 0 <= j < i
      ensures Vanishes(rule.rhs[j], lambda) <==> rule.rhs[j].NonTerminal? && Nullable(rules, rule.rhs[j].index)
    {
      if rule.rhs[j].NonTerminal? {
        assert |lambda| == n by { MarkingSize(rules, n, lambda); }
        LambdaMeansNullable(rules, n, lambda, rule.rhs[j].index);
      }
    }
  }

  lemma {:induction false} BeginsIsFirst(rules: seq<Rule>, n: nat, lambda: seq<bool>, first: seq<set<nat>>, a: nat,
                                         t: nat, h: nat)
    requires IsGrammar(rules, n) && LambdaClosed(rules, n, lambda) && LambdaLeast(rules, n, lambda)
    requires FirstClosed(rules, n, lambda, first) && Begins(rules, a, t, h)
    ensures a < n && t in first[a]
    decreases h
  {
    hide LambdaClosed, LambdaLeast;
    var r, i :| 0 <= r < |rules| && 0 <= i < |rules[r].rhs| && BeginsBy(rules, rules[r], i, a, t, h);
    assert RuleFits(rules[r], n) && FirstUpTo(rules[r], |rules[r].rhs|, lambda, first);
    PrefixVanishes(rules, n, lambda, rules[r], i);
    if rules[r].rhs[i].NonTerminal? {
      BeginsIsFirst(rules, n, lambda, first, rules[r].rhs[i].index, t, h - 1);
    }
    assert t in Contribution(rules[r].rhs[i], first);
  }

  ghost predicate CanBegin(rules: seq<Rule>, a: nat, t: nat) {
    exists h: nat :: Begins(rules, a, t, h)
  }

  lemma ContributionBegins(rules: seq<Rule>, r: nat, i: nat, x: nat)
    requires r < |rules| && i < |rules[r].rhs|
    requires forall j :: 0 <= j < i ==> rules[r].rhs[j].NonTerminal? && Nullable(rules, rules[r].rhs[j].index)
    requires match rules[r].rhs[i]
             case Terminal(y) => x == y
             case MultiTerminal(xs) => x in xs
             case NonTerminal(y) => CanBegin(rules, y, x)
    ensures CanBegin(rules, rules[r].lhs, x)
  {
    hide Nullable;
    var h: nat := 0;
    if rules[r].rhs[i].NonTerminal? {
      h :| Begins(rules, rules[r].rhs[i].index, x, h);
    }
    assert BeginsBy(rules, rules[r], i, rules[r].lhs, x, h + 1);
    assert Begins(rules, rules[r].lhs, x, h + 1);
  }

  /** The least closed family holds exactly the terminals that can begin a derived string. */
  lemma FirstMeansBegins(rules: seq<Rule>, n: nat, lambda: seq<bool>, first: seq<set<nat>>, a: nat, t: nat)
    requires IsGrammar(rules, n) && LambdaClosed(rules, n, lambda) && LambdaLeast(rules, n, lambda)
    requires FirstClosed(rules, n, lambda, first) && FirstLeast(rules, n, lambda, first) && a < n
    ensures t in first[a] <==> CanBegin(rules, a, t)
  {
    hide LambdaClosed, LambdaLeast;
    var other := seq(n, b requires 0 <= b < n => set x | x in first[b] && CanBegin(rules, b, x));
    forall r | 0 <= r < |rules| ensures FirstUpTo(rules[r], |rules[r].rhs|, lambda, other) {
      assert RuleFits(rules[r], n) && FirstUpTo(rules[r], |rules[r].rhs|, lambda, first);
      forall i | 0 <= i < |rules[r].rhs| && AllVanish(rules[r].rhs, i, lambda)
        ensures Contribution(rules[r].rhs[i], other) <= other[rules[r].lhs]
      {
        PrefixVanishes(rules, n, lambda, rules[r], i);
        assert Contribution(rules[r].rhs[i], first) <= first[rules[r].lhs];
        forall x | x in Contribution(rules[r].rhs[i], other) ensures x in other[rules[r].lhs] {
          ContributionBegins(rules, r, i, x);
        }
      }
    }
    assert Within(first, other);
    if h: nat :| Begins(rules, a, t, h) {
      BeginsIsFirst(rules, n, lambda, first, a, t, h);
    }
  }

  /** Config c is reached from config b over at most h links. */
  ghost predicate Reaches(links: seq<seq<nat>>, b: nat, c: nat, h: nat)
    decreases h
  {
    b == c || (h > 0 && exists d :: 0 <= d < |links| && c in links[d] && Reaches(links, b, d, h - 1))
  }

  ghost predicate FlowsFrom(links: seq<seq<nat>>, init: seq<set<nat>>, b: nat, c: nat, t: nat, h: nat) {
    b < |init| && t in init[b] && Reaches(links, b, c, h)
  }

  ghost predicate Flows(links: seq<seq<nat>>, init: seq<set<nat>>, c: nat, t: nat) {
    exists b: nat, h: nat :: FlowsFrom(links, init, b, c, t, h)
  }

  lemma {:induction false} FlowArrives(links: seq<seq<nat>>, init: seq<set<nat>>, fws: seq<set<nat>>, b: nat, c: nat,
                                       t: nat, h: nat)
    requires AreLinks(links) && FollowClosed(links, fws) && Within(init, fws) && FlowsFrom(links, init, b, c, t, h)
    ensures c < |fws| && t in fws[c]
    decreases h
  {
    if b != c {
      var d :| 0 <= d < |links| && c in links[d] && Reaches(links, b, d, h - 1);
      FlowArrives(links, init, fws, b, d, t, h - 1);
      assert Propagated(links, d, fws);
      var k :| 0 <= k < |links[d]| && links[d][k] == c;
    }
  }

  lemma FlowsOn(links: seq<seq<nat>>, init: seq<set<nat>>, d: nat, c: nat, x: nat)
    requires d < |links| && c in links[d] && Flows(links, init, d, x)
    ensures Flows(links, init, c, x)
  {
    var b: nat, h: nat :| FlowsFrom(links, init, b, d, x, h);
    assert Reaches(links, b, c, h + 1);
    assert FlowsFrom(links, init, b, c, x, h + 1);
  }

  /** A token is in the follow set of a config exactly when some config it is reached from has it initially. */
  lemma FollowMeansFlows(links: seq<seq<nat>>, init: seq<set<nat>>, fws: seq<set<nat>>, c: nat, t: nat)
    requires AreLinks(links) && FollowClosed(links, fws) && Within(init, fws) && c < |links|
    requires forall other :: FollowClosed(links, other) && Within(init, other) ==> Within(fws, other)
    ensures t in fws[c] <==> Flows(links, init, c, t)
  {
    var other := seq(|links|, d requires 0 <= d < |links| => set x | x in fws[d] && Flows(links, init, d, x));
    forall d | 0 <= d < |links| ensures Propagated(links, d, other) {
      assert Propagated(links, d, fws);
      forall k | 0 <= k < |links[d]| ensures links[d][k] < |links| ==> other[d] <= other[links[d][k]] {
        forall x | x in other[d] && links[d][k] < |links| ensures x in other[links[d][k]] {
          FlowsOn(links, init, d, links[d][k], x);
        }
      }
    }
    forall d | 0 <= d < |links| ensures init[d] <= other[d] {
      forall x | x in init[d] ensures x in other[d] {
        assert FlowsFrom(links, init, d, d, x, 0);
      }
    }
    assert Within(fws, other);
    if b: nat, h: nat :| FlowsFrom(links, init, b, c, t, h) {
      FlowArrives(links, init, fws, b, c, t, h);
    }
  }
}
