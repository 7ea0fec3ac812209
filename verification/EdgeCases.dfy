/** Concrete inputs on which the engine does not do what one might expect, and why the theorems about it
    carry the conditions they do. */
module EdgeCases {
  import opened TruthValues
  import opened KBLiterals
  import opened KBRelations
  import opened RuleSemantics
  import opened JoinKeys
  import opened Projections
  import opened MergeJoin
  import opened JoinStages

  // ---------------------------------------------------------------- literals of one variable

  function Unary(relId: nat, logicSet: set<TruthValue>): KBRuleLiteral {
    KBRuleLiteral(relId, KBLiteral([Variable(0)], map[0 := [0]], [0]), logicSet)
  }

  lemma UnaryFacts(relId: nat, logicSet: set<TruthValue>, x: nat)
    ensures var l := Unary(relId, logicSet);
            l.lit.Valid() && l.lit.Vars() == {0} && Instance(l.lit.terms, map[0 := x]) == [x]
  {
    var terms := Unary(relId, logicSet).lit.terms;
    assert VarsOf(terms) == {0} by {
      assert terms[0] in terms;
    }
    assert Instance(terms, map[0 := x])[0] == x;
  }

  /** q(X) <- l(X), for one literal. */
  function UnaryRule(logicSet: set<TruthValue>): KBRule {
    KBRule(1, KBLiteral([Variable(0)], map[0 := [0]], [0]), false, [Unary(0, logicSet)])
  }

  lemma UnaryRuleDerives(logicSet: set<TruthValue>, pool: Pool, x: nat)
    requires Known(pool, [x]) && MatchesTruthValue(logicSet, pool[[x]])
    ensures Derives(UnaryRule(logicSet), [pool], KBTuple([x], pool[[x]]))
  {
    var rule, s := UnaryRule(logicSet), map[0 := x];
    UnaryFacts(0, logicSet, x);
    UnaryFacts(1, logicSet, x);
    assert VarsUpTo(rule.body, 1) == VarsUpTo(rule.body, 0) + rule.body[0].lit.Vars() == {0};
    assert SatLiteral(rule.body[0], [pool][0], s);
    assert SatBody(rule, [pool], s) && HeadTuple(rule, [pool], s) == KBTuple([x], pool[[x]]);
  }

  // ---------------------------------------------------------------- the value of the first literal

  /** The first literal keeps the value of its fact: q(X) <- !p(X) makes q(7) false where p(7) is false. */
  lemma NegatedFirstLiteralGivesFalse()
    ensures Derives(UnaryRule({False, Incons}), [map[[7] := False]], KBTuple([7], False))
  {
    UnaryRuleDerives({False, Incons}, map[[7] := False], 7);
  }

  /** q(1) with a negation: !p(1) <- p(2) makes p(1) false where p(2) is true. */
  lemma NegatedHeadGivesFalse()
    ensures var rule := KBRule(0, KBLiteral([Constant(1)], map[], []), true,
                               [KBRuleLiteral(0, KBLiteral([Constant(2)], map[], []), {True, Incons})]);
            Derives(rule, [map[[2] := True]], KBTuple([1], False))
  {
    var rule := KBRule(0, KBLiteral([Constant(1)], map[], []), true,
                       [KBRuleLiteral(0, KBLiteral([Constant(2)], map[], []), {True, Incons})]);
    var refs: seq<Pool> := [map[[2] := True]];
    var s: Subst := map[];
    assert Instance(rule.body[0].lit.terms, s) == [2] && Instance(rule.head.terms, s) == [1];
    assert VarsUpTo(rule.body, 1) == VarsUpTo(rule.body, 0) + rule.body[0].lit.Vars() == {};
    assert SatLiteral(rule.body[0], refs[0], s);
    assert SatBody(rule, refs, s) && HeadTuple(rule, refs, s) == KBTuple([1], False);
  }

  // ---------------------------------------------------------------- unknown-aware literals

  /** What `in {unknown}` asks for: the fact is known with an accepted value, or nothing is known about it. */
  ghost predicate Intended(l: KBRuleLiteral, pool: Pool, s: Subst) {
    l.lit.Vars() <= s.Keys
    && var k := Instance(l.lit.terms, s);
       if Known(pool, k) then MatchesTruthValue(l.logicSet, pool[k]) else l.IsUnsafe()
  }

  /** The scan accepts what is intended for a row exactly when the fact is known, or there is no candidate, or
      the key of the row is not below the key of the first candidate. */
  lemma IntendedUnlessBelowFirst(g: Stage, join: Join, vs: seq<nat>, left: seq<KBTuple>, right: seq<Candidate>, l: nat,
                                 s: Subst)
    requires AtRow(g, join, vs, left, right, l, s) && Intended(g.Lit(), g.Pool(), s)
    ensures SatLiteral(g.Lit(), g.Pool(), s)
        <==> || Known(g.Pool(), Instance(g.Terms(), s)) || right == []
             || !LexLess(LeftKeys(join, left)[l], RightKeys(join, right)[0])
    ensures !Known(g.Pool(), Instance(g.Terms(), s)) ==>
      (SatLiteral(g.Lit(), g.Pool(), s) <==> Complemented(LeftKeys(join, left), RightKeys(join, right), Unmatched(l)))
  {
    ReachedMeans(g, join, vs, left, right, l, s);
    ComplementedMeans(g, join, vs, left, right, l, s);
    if right != [] {
      LexTotal(LeftKeys(join, left)[l], RightKeys(join, right)[0]);
    }
    hide AtRow, Reached, Complemented, LexLess;
  }

  /** s stands for an instance that every literal of the rule is meant to accept. */
  ghost predicate IntendedBody(rule: KBRule, refs: seq<Pool>, s: Subst)
    requires |refs| == |rule.body|
  {
    && s.Keys == VarsUpTo(rule.body, |rule.body|)
    && forall i :: 0 <= i < |rule.body| ==> Intended(rule.body[i], refs[i], s)
  }

  ghost predicate BelowAllOf(l: KBRuleLiteral, pool: Pool, s: Subst) {
    && !Known(pool, Instance(l.lit.terms, s))
    && (exists g :: Picks(l.lit.terms, pool, g))
    && forall g :: Picks(l.lit.terms, pool, g) ==> KeyBelow(l.lit.Vars(), s, g)
  }

  /** Some literal has known instances, s is below all of them, and nothing is known about its own. */
  ghost predicate BelowAll(rule: KBRule, refs: seq<Pool>, s: Subst)
    requires |refs| == |rule.body|
  {
    exists i :: 0 <= i < |rule.body| && BelowAllOf(rule.body[i], refs[i], s)
  }

  lemma IntendedUnlessBelowAll(l: KBRuleLiteral, pool: Pool, s: Subst)
    requires Intended(l, pool, s)
    ensures SatLiteral(l, pool, s) <==> !BelowAllOf(l, pool, s)
  {
    if !BelowAllOf(l, pool, s) && exists g :: Picks(l.lit.terms, pool, g) {
      if !Known(pool, Instance(l.lit.terms, s)) {
        var g :| Picks(l.lit.terms, pool, g) && !KeyBelow(l.lit.Vars(), s, g);
      }
    }
  }

  lemma BodyIntended(rule: KBRule, refs: seq<Pool>, s: Subst)
    requires |refs| == |rule.body|
    ensures SatBody(rule, refs, s) <==> IntendedBody(rule, refs, s) && !BelowAll(rule, refs, s)
  {
    forall i | 0 <= i < |rule.body|
      ensures SatLiteral(rule.body[i], refs[i], s) <==>
        Intended(rule.body[i], refs[i], s) && !BelowAllOf(rule.body[i], refs[i], s)
    {
      if Intended(rule.body[i], refs[i], s) {
        IntendedUnlessBelowAll(rule.body[i], refs[i], s);
      }
    }
    hide SatLiteral, Intended, BelowAllOf;
  }

  /** A rule derives exactly the intended head tuples for which no literal lies below all its instances. */
  lemma DerivesIntended(rule: KBRule, refs: seq<Pool>, t: KBTuple)
    requires rule.body != [] && |refs| == |rule.body|
    ensures Derives(rule, refs, t)
        <==> exists s :: IntendedBody(rule, refs, s) && !BelowAll(rule, refs, s) && HeadTuple(rule, refs, s) == t
  {
    hide HeadTuple;
    forall s ensures SatBody(rule, refs, s) <==> IntendedBody(rule, refs, s) && !BelowAll(rule, refs, s) {
      BodyIntended(rule, refs, s);
    }
  }

  /** With p(5) known, nothing is known about p(3), but p(X) in {unknown} does not hold for X = 3. */
  lemma ComplementBelowFirstKeyIsMissed()
    ensures Intended(Unary(0, {Unknown}), map[[5] := True], map[0 := 3])
    ensures !SatLiteral(Unary(0, {Unknown}), map[[5] := True], map[0 := 3])
  {
    var l, pool, s := Unary(0, {Unknown}), map[[5] := True], map[0 := 3];
    UnaryFacts(0, {Unknown}, 3);
    UnaryFacts(0, {Unknown}, 5);
    forall g | Picks(l.lit.terms, pool, g) ensures KeyBelow(l.lit.Vars(), s, g) {
      assert Instance(l.lit.terms, g)[0] == 5;
      assert KeyBelowAt(l.lit.Vars(), s, g, 0);
    }
    assert Picks(l.lit.terms, pool, map[0 := 5]);
  }

  // ---------------------------------------------------------------- inconsistency and fixpoints

  /** The pools q know more than the pools p; literals that accept unknown read the same pool. */
  ghost predicate Grown(body: seq<KBRuleLiteral>, p: seq<Pool>, q: seq<Pool>) {
    && |p| == |q| == |body|
    && forall i :: 0 <= i < |body| ==> PoolLeq(p[i], q[i]) && (body[i].IsUnsafe() ==> p[i] == q[i])
  }

  /** The fact that the i-th literal uses under s has another value in q. */
  ghost predicate Changed(body: seq<KBRuleLiteral>, p: seq<Pool>, q: seq<Pool>, i: nat, s: Subst)
    requires i < |body| == |p| == |q|
  {
    var k := Instance(body[i].lit.terms, s);
    k in p[i] && (k in q[i] ==> p[i][k] != q[i][k])
  }

  ghost predicate NoneChanged(body: seq<KBRuleLiteral>, p: seq<Pool>, q: seq<Pool>, n: nat, s: Subst)
    requires n <= |body| == |p| == |q|
  {
    forall i :: 0 <= i < n ==> !Changed(body, p, q, i, s)
  }

  /** Every changed fact is used by a literal that accepts inconsistent facts. */
  ghost predicate ChangesAccepted(body: seq<KBRuleLiteral>, p: seq<Pool>, q: seq<Pool>, n: nat, s: Subst)
    requires n <= |body| == |p| == |q|
  {
    forall i :: 0 <= i < n && Changed(body, p, q, i, s) ==> MatchesTruthValue(body[i].logicSet, Incons)
  }

  /** A satisfied literal stays satisfied exactly when its fact did not change or it accepts Incons, the
      only value that a used fact can change to. */
  lemma LiteralKept(body: seq<KBRuleLiteral>, p: seq<Pool>, q: seq<Pool>, i: nat, s: Subst)
    requires i < |body| && Grown(body, p, q) && SatLiteral(body[i], p[i], s)
    ensures SatLiteral(body[i], q[i], s) <==> Changed(body, p, q, i, s) ==> MatchesTruthValue(body[i].logicSet, Incons)
    ensures InconsUsed(body, q, i, s) <==> InconsUsed(body, p, i, s) || Changed(body, p, q, i, s)
  {
    hide Reached;
  }

  lemma BodyKept(body: seq<KBRuleLiteral>, p: seq<Pool>, q: seq<Pool>, n: nat, s: Subst)
    requires n <= |body| && Grown(body, p, q) && SatFirst(body, p, n, s)
    ensures SatFirst(body, q, n, s) <==> ChangesAccepted(body, p, q, n, s)
    ensures UsesIncons(body, q, n, s) <==> UsesIncons(body, p, n, s) || !NoneChanged(body, p, q, n, s)
  {
    forall i | 0 <= i < n
      ensures SatLiteral(body[i], q[i], s) <==> Changed(body, p, q, i, s) ==>
        MatchesTruthValue(body[i].logicSet, Incons)
      ensures InconsUsed(body, q, i, s) <==> InconsUsed(body, p, i, s) || Changed(body, p, q, i, s)
    {
      LiteralKept(body, p, q, i, s);
    }
    hide SatLiteral, Changed, InconsUsed, PoolLeq;
  }

  /** A body that holds over p holds over q with the same value exactly when every changed fact belongs to a
      literal that accepts Incons, and the old value is Incons, or it is False and the first fact is
      unchanged, or no used fact changed. */
  lemma SameValueExactly(body: seq<KBRuleLiteral>, p: seq<Pool>, q: seq<Pool>, n: nat, s: Subst)
    requires 0 < n <= |body| && Grown(body, p, q) && !body[0].IsUnsafe() && SatFirst(body, p, n, s)
    ensures SatFirst(body, q, n, s) && BodyValue(body, q, n, s) == BodyValue(body, p, n, s)
        <==> && ChangesAccepted(body, p, q, n, s)
             && (|| BodyValue(body, p, n, s) == Incons
                 || (BodyValue(body, p, n, s) == False && !Changed(body, p, q, 0, s))
                 || NoneChanged(body, p, q, n, s))
  {
    BodyKept(body, p, q, n, s);
    BodyValueIs(body, p, n, s);
    if SatFirst(body, q, n, s) {
      BodyValueIs(body, q, n, s);
    }
  }

  /** The same for rules: when a head tuple survives the growth of knowledge. */
  lemma DerivationKeptExactly(rule: KBRule, p: seq<Pool>, q: seq<Pool>, s: Subst)
    requires rule.body != [] && !rule.body[0].IsUnsafe() && Grown(rule.body, p, q) && SatBody(rule, p, s)
    ensures SatBody(rule, q, s) && HeadTuple(rule, q, s) == HeadTuple(rule, p, s)
        <==> && ChangesAccepted(rule.body, p, q, |rule.body|, s)
             && (|| BodyValue(rule.body, p, |rule.body|, s) == Incons
                 || (BodyValue(rule.body, p, |rule.body|, s) == False && !Changed(rule.body, p, q, 0, s))
                 || NoneChanged(rule.body, p, q, |rule.body|, s))
  {
    SameValueExactly(rule.body, p, q, |rule.body|, s);
  }

  /** Derivation is not monotone in the knowledge order: when p(1) turns inconsistent, q(1) is no longer
      derived as true. This is why the two evaluations are compared on consistent results. */
  lemma MoreKnowledgeDerivesLess()
    ensures PoolLeq(map[[1] := True], map[[1] := Incons])
    ensures Derives(UnaryRule({True, Incons}), [map[[1] := True]], KBTuple([1], True))
    ensures !Derives(UnaryRule({True, Incons}), [map[[1] := Incons]], KBTuple([1], True))
  {
    var rule, pool := UnaryRule({True, Incons}), map[[1] := Incons];
    UnaryRuleDerives({True, Incons}, map[[1] := True], 1);
    forall s | SatBody(rule, [pool], s) ensures HeadTuple(rule, [pool], s).value == Incons {
      assert SatLiteral(rule.body[0], [pool][0], s);
    }
  }

  /** An insertion changes a pool and moves no counter exactly when it turns an unknown tuple true or false.
      Fixpoints.CountersTell gives the exact condition for a whole round. */
  lemma InsertMovesNoCounter(p: Pool, t: KBTuple)
    ensures Insert(p, t) != p && |Insert(p, t)| == |p| && |InconsKeys(Insert(p, t))| == |InconsKeys(p)|
            <==> t.terms in p && p[t.terms] == Unknown && t.value in {True, False}
  {
    InsertCounts(p, t);
    if t.terms in p {
      assert Insert(p, t) == p <==> DisjunctionWrtOrdering(p[t.terms], t.value) == p[t.terms] by {
        assert Insert(p, t)[t.terms] == DisjunctionWrtOrdering(p[t.terms], t.value);
      }
    }
  }

  /** A tuple that turns from unknown to true: the loop could stop too early if a module began with
      unknown tuples. */
  lemma UnknownToTrueIsNotCounted()
    ensures var p: Pool := map[[1] := Unknown];
            var q := Insert(p, KBTuple([1], True));
            p != q && |p| == |q| && |InconsKeys(p)| == |InconsKeys(q)|
  {
    InsertMovesNoCounter(map[[1] := Unknown], KBTuple([1], True));
  }

  /** Clearing an inconsistent tuple leaves its count behind: the counter says one, the pool holds none. */
  lemma ClearedStaysCounted()
    ensures var p: Pool := map[[1] := Incons];
            |InconsKeys(p)| == 1 && |InconsKeys(Cleared(p, {[1]}))| == 0
  {
    var p: Pool := map[[1] := Incons];
    assert InconsKeys(p) == {[1]} && InconsKeys(Cleared(p, {[1]})) == {};
  }

  /** A stored tuple that is made inconsistent is counted twice. */
  lemma AddedIsCountedTwice()
    ensures var p: Pool := map[[1] := True];
            |InconsKeys(p)| + CountedTwice(p, {[1]}) == 2 && |InconsKeys(WithIncons(p, {[1]}))| == 1
  {
    var p: Pool := map[[1] := True];
    assert InconsKeys(p) == {} && InconsKeys(WithIncons(p, {[1]})) == {[1]};
    assert {[1]} * p.Keys - InconsKeys(p) == {[1]};
  }

  // ---------------------------------------------------------------- null

  /** The scan of two tables of one row each, with null or without: the test that guards the L shape. */
  method ScanOnePair(left: KBTuple, right: Candidate, join: Join, ids: seq<JoinId>, isTrue: bool)
    returns (rows: seq<KBTuple>)
    requires join.Fits(left.terms, right.tuple.terms) && Fits(ids, |left.terms|, |right.tuple.terms|)
    ensures rows == if join.MatchesWithNull(left.terms, right.tuple.terms) && right.matches
                    then [RowOf([left], [right], ids, isTrue, Matched(0, 0))] else []
  {
    rows := [];
    var c := join.Compare(left.terms, right.tuple.terms);
    if c == 0 && right.matches {
      var terms := ProjectJoined(ids, left.terms, right.tuple.terms);
      rows := [KBTuple(terms, ResolveTruthValue(Conjunction(left.value, right.tuple.value), isTrue))];
    }
  }

  /** The marker that integer -1 shares with missing values compares as equal to everything: with p(-1) and
      q(x), the scan for h(X) <- p(X), q(X) emits h(x), although the keys differ. */
  lemma NullMatchesEverything(x: nat)
    ensures NULL_VAL == -1 % 0x1_0000_0000
    ensures Join([0], [0]).MatchesWithNull([NULL_VAL], [x])
    ensures Join([0], [0]).LeftKey([NULL_VAL]) == Join([0], [0]).RightKey([x]) <==> x == NULL_VAL
    ensures RowOf([KBTuple([NULL_VAL], True)], [Candidate(KBTuple([x], True), true)], [Both(0, 0)], true, Matched(0, 0))
         == KBTuple([x], True)
  {
    assert Join([0], [0]).LeftKey([NULL_VAL])[0] == NULL_VAL && Join([0], [0]).RightKey([x])[0] == x;
    assert Projected([Both(0, 0)], [NULL_VAL], [x])[0] == x;
  }

  method NullIsJoined(x: nat) returns (rows: seq<KBTuple>)
    ensures rows == [KBTuple([x], True)]
  {
    NullMatchesEverything(x);
    rows := ScanOnePair(KBTuple([NULL_VAL], True), Candidate(KBTuple([x], True), true), Join([0], [0]), [Both(0, 0)],
                        true);
  }
}
