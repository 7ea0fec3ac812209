/** A module without a model on which the two evaluations store different facts. This is why they are
    compared on consistent results. */
module Disagreement {
  import opened TruthValues
  import opened KBLiterals
  import opened KBRelations
  import opened RuleSemantics
  import opened Fixpoints
  import opened Runs

  // ---------------------------------------------------------------- rules without variables

  function Fact(relId: nat): KBRuleLiteral {
    KBRuleLiteral(relId, KBLiteral([], map[], []), {True, Incons})
  }

  function Prop(head: nat, negated: bool, body: nat): KBRule {
    KBRule(head, KBLiteral([], map[], []), negated, [Fact(body)])
  }

  /** The consistent tuples of such a rule on a pool. */
  ghost function Output(pool: Pool, negated: bool): seq<KBTuple> {
    if [] in pool && pool[[]] == True then [KBTuple([], if negated then False else True)] else []
  }

  lemma PropDerives(rule: KBRule, head: nat, negated: bool, body: nat, pool: Pool, t: KBTuple)
    requires rule == Prop(head, negated, body)
    ensures Derives(rule, [pool], t) && t.value != Incons <==> t in Output(pool, negated)
  {
    var s: Subst := map[];
    assert VarsUpTo(rule.body, 1) == VarsUpTo(rule.body, 0) + rule.body[0].lit.Vars() == {};
    assert Instance(rule.body[0].lit.terms, s) == [] && Instance(rule.head.terms, s) == [];
    assert SatLiteral(rule.body[0], [pool][0], s) <==> [] in pool && (pool[[]] == True || pool[[]] == Incons);
    assert SatBody(rule, [pool], s) <==> SatLiteral(rule.body[0], [pool][0], s);
    forall s' | SatBody(rule, [pool], s') ensures s' == s {
      assert s'.Keys == {};
    }
    if SatBody(rule, [pool], s) {
      assert HeadTuple(rule, [pool], s).terms == [];
    }
  }

  lemma NaiveProp(head: nat, negated: bool, body: nat, a: DB)
    requires head < |a| && body < |a|
    ensures NaiveStep(Prop(head, negated, body), a, Added(a, head, Output(a[body], negated)))
  {
    var rule := Prop(head, negated, body);
    assert RefsOf(rule.body, a) == [a[body]];
    forall t ensures t in Output(a[body], negated) <==> t in NaiveTuples(rule, a) {
      PropDerives(rule, head, negated, body, a[body], t);
    }
    AddedIsLeast(a, head, Output(a[body], negated), NaiveTuples(rule, a));
  }

  lemma DeltaProp(m: KBModule, head: nat, negated: bool, body: nat, prev: DB, start: DB, a: DB)
    requires head < |a| && body < |a| == |prev| == |start|
    ensures DeltaStep(m, Prop(head, negated, body), prev, start, a,
                      Added(a, head, if IsIdb(m, body) then Output(Diff(prev[body], start[body]), negated) else []))
  {
    var rule, d := Prop(head, negated, body), Diff(prev[body], start[body]);
    var ts := if IsIdb(m, body) then Output(d, negated) else [];
    assert DeltaRefs(rule.body, prev, start, a, 0) == [d];
    forall t ensures t in ts <==> t in DeltaTuples(m, rule, prev, start, a) {
      PropDerives(rule, head, negated, body, d, t);
      assert DerivesAt(m, rule, prev, start, a, t, 0) <==> IsIdb(m, body) && Derives(rule, [d], t);
    }
    AddedIsLeast(a, head, ts, DeltaTuples(m, rule, prev, start, a));
  }

  // ---------------------------------------------------------------- the module

  /** With the relations a, x, y, u, in this order:
      !x <- y.  u <- x.  x <- a.  y <- a.  */
  function Example(): KBModule {
    KBModule([Prop(1, true, 2), Prop(3, false, 1), Prop(1, false, 0), Prop(2, false, 0)], [1, 2, 3])
  }

  ghost function Holds(v: TruthValue): Pool { map[[] := v] }

  ghost function Facts(x: Pool, y: Pool, u: Pool): DB { [Holds(True), x, y, u] }

  lemma ExampleIsValid()
    ensures ValidModule(Example(), [0, 0, 0, 0]) && FactsFit(Facts(map[], map[], map[]), [0, 0, 0, 0])
  {
    var m := Example();
    forall i | 0 <= i < |m.rules| ensures ValidRule(m, m.rules[i], [0, 0, 0, 0]) {
      var rule := m.rules[i];
      assert rule.head.Valid() && rule.body[0].lit.Valid() && rule.head.Vars() == {};
      assert WellFormedRule(rule);
      assert ValidLiteral(m, rule.body[0], [0, 0, 0, 0]);
    }
  }

  lemma ExampleIdb()
    ensures var m := Example(); !IsIdb(m, 0) && IsIdb(m, 1) && IsIdb(m, 2) && IsIdb(m, 3)
  {
    var m := Example();
    assert m.rules[0].headRelId == 1 && m.rules[3].headRelId == 2 && m.rules[1].headRelId == 3;
  }

  /** Where a naive round leads. */
  lemma ExampleRound(a: DB, b: DB, c: DB, d: DB, e: DB)
    requires |a| == |b| == |c| == |d| == |e| == 4
    requires b == Added(a, 1, Output(a[2], true)) && c == Added(b, 3, Output(b[1], false))
    requires d == Added(c, 1, Output(c[0], false)) && e == Added(d, 2, Output(d[0], false))
    ensures NaiveRound(Example(), 4, a, e)
  {
    hide NaiveStep, Output;
    var m := Example();
    NaiveProp(1, true, 2, a);
    NaiveProp(3, false, 1, b);
    NaiveProp(1, false, 0, c);
    NaiveProp(2, false, 0, d);
    NoRules(m, a, a);
    NaiveRoundOneMore(m, 0, a, a, b);
    NaiveRoundOneMore(m, 1, a, b, c);
    NaiveRoundOneMore(m, 2, a, c, d);
    NaiveRoundOneMore(m, 3, a, d, e);
  }

  /** Where a round on changes leads: only the first two rules read relations that change. */
  lemma ExampleDeltaRound(prev: DB, a: DB, b: DB, c: DB)
    requires |prev| == |a| == |b| == |c| == 4
    requires b == Added(a, 1, Output(Diff(prev[2], a[2]), true)) && c == Added(b, 3, Output(Diff(prev[1], a[1]), false))
    ensures DeltaRound(Example(), 4, prev, a, c)
  {
    hide DeltaStep, Output, Diff;
    var m := Example();
    ExampleIdb();
    DeltaProp(m, 1, true, 2, prev, a, a);
    DeltaProp(m, 3, false, 1, prev, a, b);
    DeltaProp(m, 1, false, 0, prev, a, c);
    DeltaProp(m, 2, false, 0, prev, a, c);
    assert Added(c, 1, []) == c && Added(c, 2, []) == c;
    NoRules(m, prev, a);
    DeltaRoundOneMore(m, 0, prev, a, a, b);
    DeltaRoundOneMore(m, 1, prev, a, b, c);
    DeltaRoundOneMore(m, 2, prev, a, c, c);
    DeltaRoundOneMore(m, 3, prev, a, c, c);
  }

  lemma AddNone(db: DB, h: nat)
    requires h < |db|
    ensures Added(db, h, []) == db
  {
  }

  lemma InsertOne(pool: Pool, t: KBTuple)
    ensures InsertAll(pool, [t]) == Insert(pool, t)
  {
    assert [t][..0] == [];
  }

  lemma AddNew(db: DB, h: nat, v: TruthValue)
    requires h < |db| && db[h] == map[]
    ensures Added(db, h, [KBTuple([], v)]) == db[h := Holds(v)]
  {
    InsertOne(db[h], KBTuple([], v));
  }

  lemma AddTo(db: DB, h: nat, w: TruthValue, v: TruthValue)
    requires h < |db| && db[h] == Holds(w)
    ensures Added(db, h, [KBTuple([], v)]) == db[h := Holds(DisjunctionWrtOrdering(w, v))]
  {
    InsertOne(db[h], KBTuple([], v));
    assert Insert(db[h], KBTuple([], v)) == Holds(DisjunctionWrtOrdering(w, v));
  }

  /** Round 1 finds x and y true. */
  lemma FirstRound()
    ensures NaiveRound(Example(), 4, Facts(map[], map[], map[]), Facts(Holds(True), Holds(True), map[]))
  {
    var a, d, e := Facts(map[], map[], map[]), Facts(Holds(True), map[], map[]), Facts(Holds(True), Holds(True), map[]);
    AddNone(a, 1);
    AddNone(a, 3);
    AddNew(a, 1, True);
    AddNew(d, 2, True);
    ExampleRound(a, a, a, d, e);
  }

  /** The naive evaluation: in round 2 the first rule makes x inconsistent before the second looks at it. */
  lemma NaivelyNotDerived()
    ensures NaiveResult(Example(), Facts(map[], map[], map[]), Facts(Holds(Incons), Holds(True), map[]))
  {
    hide NaiveRound;
    var m, a, b, c := Example(), Facts(map[], map[], map[]), Facts(Holds(True), Holds(True), map[]),
                      Facts(Holds(Incons), Holds(True), map[]);
    FirstRound();
    AddTo(b, 1, True, False);
    AddTo(c, 1, Incons, False);
    AddNone(c, 3);
    AddTo(c, 1, Incons, True);
    AddTo(c, 2, True, True);
    ExampleRound(b, c, c, c, c);
    ExampleRound(c, c, c, c, c);
    NaiveRunStarts(m, a);
    NaiveRunOneMore(m, a, a, b, 0);
    NaiveRunOneMore(m, a, b, c, 1);
  }

  /** The semi-naive evaluation: in round 2 the second rule looks at the delta, where x is still true. */
  lemma SemiNaivelyDerived()
    ensures SemiNaiveResult(Example(), Facts(map[], map[], map[]), Facts(Holds(Incons), Holds(True), Holds(True)))
  {
    hide NaiveRound, DeltaRound;
    var m, a, b := Example(), Facts(map[], map[], map[]), Facts(Holds(True), Holds(True), map[]);
    var c, d := Facts(Holds(Incons), Holds(True), map[]), Facts(Holds(Incons), Holds(True), Holds(True));
    FirstRound();
    assert SemiNaiveRun(m, a, a, b, 0);
    assert Diff(map[], Holds(True)) == Holds(True) && Diff(Holds(True), Holds(True)) == map[];
    assert Diff(Holds(True), Holds(Incons)) == Holds(Incons);
    assert Diff(Holds(Incons), Holds(Incons)) == map[];
    AddTo(b, 1, True, False);
    AddNew(c, 3, True);
    ExampleDeltaRound(a, b, c, d);
    SemiNaiveRunOneMore(m, a, a, b, d, 0);
    AddNone(d, 1);
    AddNone(d, 3);
    ExampleDeltaRound(b, d, d, d);
    SemiNaiveRunOneMore(m, a, b, d, d, 1);
    RunEnds(m, a, d, 2);
  }

  /** From the same facts both evaluations make x inconsistent, but only the semi-naive one stores u. */
  lemma ResultsDiffer()
    ensures ValidModule(Example(), [0, 0, 0, 0])
    ensures exists db0: DB, a: DB, b: DB ::
      FactsFit(db0, [0, 0, 0, 0]) && NaiveResult(Example(), db0, a) && SemiNaiveResult(Example(), db0, b) && a != b
  {
    ExampleIsValid();
    NaivelyNotDerived();
    SemiNaivelyDerived();
    var db0 := Facts(map[], map[], map[]);
    var a, b := Facts(Holds(Incons), Holds(True), map[]), Facts(Holds(Incons), Holds(True), Holds(True));
    assert a[3] != b[3];
    assert FactsFit(db0, [0, 0, 0, 0]);
    assert NaiveResult(Example(), db0, a) && SemiNaiveResult(Example(), db0, b) && a != b;
  }
}
