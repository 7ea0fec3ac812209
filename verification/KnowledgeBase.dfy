/** The knowledge base as the evaluations see it: the relations, the counters of a module, the pools of
    a rule body, and the evaluators of the rules (src/KnowledgeBase.cc, src/Evaluation.cc,
    src/KB/KBModule.cc). */
module KnowledgeBases {
  import opened TruthValues
  import opened Sequences
  import opened KBLiterals
  import opened KBRelations
  import opened RuleSemantics
  import opened EvalRules
  import opened Fixpoints
  import opened Runs

  class KnowledgeBase {
    const relations: seq<KBRelation>
    const arities: seq<nat>

    ghost predicate Stored()
      reads relations
    {
      && |arities| == |relations| && Distinct(relations)
      && forall i :: 0 <= i < |relations| ==> relations[i].Valid()
    }

    /** All counters are exact. */
    ghost predicate Valid()
      reads relations
    {
      Stored() && forall i :: 0 <= i < |relations| ==> relations[i].Exact()
    }

    /** What the knowledge base stores. */
    ghost function Facts(): (db: DB)
      reads relations
      requires Stored()
      ensures |db| == |relations|
    {
      seq(|relations|,
          i requires 0 <= i < |relations| && relations[i].Valid() reads relations => relations[i].facts.Contents())
    }

    constructor (relations: seq<KBRelation>, arities: seq<nat>)
      requires |arities| == |relations| && Distinct(relations)
      requires forall i :: 0 <= i < |relations| ==> relations[i].Valid() && relations[i].Exact()
      ensures Valid() && this.relations == relations && this.arities == arities
    {
      this.relations, this.arities := relations, arities;
    }

    method AddTuple(relId: nat, t: KBTuple) returns (changed: bool, value: TruthValue)
      requires Stored() && relId < |relations|
      modifies relations[relId]
      ensures Stored()
      ensures old(Valid()) && (t.value != Incons || t.terms in old(Facts())[relId]) ==> Valid()
      ensures Facts() == old(Facts())[relId := Insert(old(Facts())[relId], t)]
      ensures changed <==> (t.terms in old(Facts())[relId] ==>
        old(Facts())[relId][t.terms] != Incons && Facts()[relId][t.terms] == Incons)
      ensures changed ==> value == Facts()[relId][t.terms]
    {
      ghost var before := Facts();
      changed, value := relations[relId].AddTuple(t);
      forall i | 0 <= i < |relations| && i != relId
        ensures relations[i].Valid() && relations[i].facts.Contents() == before[i]
        ensures old(relations[i].Exact()) ==> relations[i].Exact()
      {
        assert relations[i] != relations[relId];
      }
    }

    /** KBRelation::size. */
    method Size(relId: nat) returns (size: nat)
      requires Valid() && relId < |relations|
      ensures size == |Facts()[relId]|
    {
      RowsAreContents(relations[relId].facts);
      size := |relations[relId].facts.rows|;
    }

    /** KBModule::factsNumber. */
    method FactsNumber(ids: seq<nat>) returns (number: nat)
      requires Valid() && forall r :: r in ids ==> r < |relations|
      ensures number == Fixpoints.FactsNumber(Facts(), ids)
    {
      number := 0;
      for i := 0 to |ids|
        invariant number == Fixpoints.FactsNumber(Facts(), ids[..i])
      {
        assert ids[..i + 1][..i] == ids[..i];
        assert ids[i] in ids;
        var size := Size(ids[i]);
        number := number + size;
      }
      assert ids[..|ids|] == ids;
    }

    /** KBModule::inconsFactsNumber. */
    method InconsFactsNumber(ids: seq<nat>) returns (number: nat)
      requires Valid() && forall r :: r in ids ==> r < |relations|
      ensures number == Fixpoints.InconsFactsNumber(Facts(), ids)
    {
      number := 0;
      for i := 0 to |ids|
        invariant number == Fixpoints.InconsFactsNumber(Facts(), ids[..i])
      {
        assert ids[..i + 1][..i] == ids[..i];
        assert ids[i] in ids;
        assert relations[ids[i]].Exact();
        number := number + relations[ids[i]].inconsFactsNumber;
      }
      assert ids[..|ids|] == ids;
    }

    method GetRelationRefs(body: seq<KBRuleLiteral>) returns (refs: seq<FactsPool>)
      requires Valid() && forall i :: 0 <= i < |body| ==> body[i].relId < |relations|
      ensures ContentsAre(refs, RefsOf(body, Facts()))
    {
      refs := [];
      for i := 0 to |body|
        invariant |refs| == i
        invariant forall k :: 0 <= k < i ==> refs[k] == relations[body[k].relId].facts
      {
        refs := refs + [relations[body[i].relId].facts];
      }
    }
  }

  // ---------------------------------------------------------------- the evaluators of a module

  ghost predicate EvaluatorOf(rule: KBRule, e: EvalRule) {
    exists names :: EvalFor(rule, names, e)
  }

  /** One evaluator for each rule. */
  ghost predicate EvaluatorsOf(rules: seq<KBRule>, evaluators: seq<EvalRule>) {
    |evaluators| == |rules| && forall i :: 0 <= i < |rules| ==> EvaluatorOf(rules[i], evaluators[i])
  }

  method CreateEvaluator(rule: KBRule) returns (e: EvalRule)
    requires WellFormedRule(rule)
    ensures EvaluatorOf(rule, e)
  {
    ghost var names;
    var r;
    r, names := CreateEvalRule(rule);
    e := r.evaluator;
  }

  method CreateEvaluators(rules: seq<KBRule>) returns (evaluators: seq<EvalRule>)
    requires forall i :: 0 <= i < |rules| ==> WellFormedRule(rules[i])
    ensures EvaluatorsOf(rules, evaluators)
  {
    hide EvaluatorOf, WellFormedRule;
    evaluators := [];
    for i := 0 to |rules|
      invariant |evaluators| == i && forall k :: 0 <= k < i ==> EvaluatorOf(rules[k], evaluators[k])
    {
      var e := CreateEvaluator(rules[i]);
      evaluators := evaluators + [e];
    }
  }

  method RunRule(rule: KBRule, e: EvalRule, relations: seq<FactsPool>, threads: nat, ghost refs: seq<Pool>)
    returns (result: seq<KBTuple>)
    requires WellFormedRule(rule) && EvaluatorOf(rule, e) && threads >= 1
    requires ContentsAre(relations, refs) && RefsFit(rule.body, refs)
    ensures forall t :: t in result <==> Derives(rule, refs, t)
  {
    ghost var names :| EvalFor(rule, names, e);
    ghost var subs;
    assert Refs(relations) == refs;
    result, subs := Evaluate(rule, e, relations, threads, names);
  }

  // ---------------------------------------------------------------- rules on the knowledge base

  /** A rule evaluated on pools within the knowledge base yields exactly what it derives from them;
      all of it is derivable. */
  method RunWithin(rule: KBRule, e: EvalRule, relations: seq<FactsPool>, threads: nat, ghost m: KBModule,
                   ghost refs: seq<Pool>, ghost arities: seq<nat>, ghost domain: set<nat>, ghost db: DB)
    returns (result: seq<KBTuple>)
    requires ValidRule(m, rule, arities) && EvaluatorOf(rule, e) && threads >= 1
    requires DBFits(db, arities, domain) && NULL_VAL !in domain
    requires ContentsAre(relations, refs) && RefsWithin(m, rule.body, refs, db)
    ensures forall t :: t in result <==> Derives(rule, refs, t)
    ensures forall t :: t in result ==> Derivable(m, rule, db, t)
  {
    WithinRefsFit(m, rule, refs, db, arities, domain);
    result := RunRule(rule, e, relations, threads, refs);
    assert forall t :: t in result ==> DerivesFrom(m, rule, refs, db, t);
  }

  /** The pools of the knowledge base are within it. */
  lemma RefsOfWithin(m: KBModule, rule: KBRule, db: DB, arities: seq<nat>)
    requires ValidRule(m, rule, arities) && |db| == |arities|
    requires forall r :: r in m.relationIds && r < |db| ==> NoUnknown(db[r])
    ensures RefsWithin(m, rule.body, RefsOf(rule.body, db), db)
  {
    forall i | 0 <= i < |rule.body| ensures PoolWithin(m, rule.body[i], RefsOf(rule.body, db)[i], db) {
      assert ValidLiteral(m, rule.body[i], arities);
    }
  }

  // ---------------------------------------------------------------- results that are added

  /** The results that the first phase keeps: NotEqualsIncons. */
  ghost function NotIncons(ts: seq<KBTuple>): seq<KBTuple> {
    if ts == [] then []
    else NotIncons(ts[..|ts| - 1]) + if ts[|ts| - 1].value != Incons then [ts[|ts| - 1]] else []
  }

  lemma {:induction false} NotInconsMembers(ts: seq<KBTuple>, t: KBTuple)
    ensures t in NotIncons(ts) <==> t in ts && t.value != Incons
  {
    if ts != [] {
      NotInconsMembers(ts[..|ts| - 1], t);
      assert ts == ts[..|ts| - 1] + [ts[|ts| - 1]];
    }
  }

  /** Adding the consistent results is adding them as tuples. */
  lemma StoredIsAdded(db: DB, h: nat, result: seq<KBTuple>, tuples: iset<KBTuple>)
    requires h < |db| && forall t :: t in tuples <==> t in result && t.value != Incons
    ensures AddsLeast(db, Added(db, h, NotIncons(result)), h, tuples)
  {
    hide AddsLeast;
    forall t ensures t in NotIncons(result) <==> t in tuples {
      NotInconsMembers(result, t);
    }
    AddedIsLeast(db, h, NotIncons(result), tuples);
  }

  /** One more result: it is inserted unless it is inconsistent. */
  lemma AddedOneMore(db: DB, h: nat, ts: seq<KBTuple>, i: nat)
    requires h < |db| && i < |ts|
    ensures var before := Added(db, h, NotIncons(ts[..i]));
            Added(db, h, NotIncons(ts[..i + 1]))
            == if ts[i].value != Incons then before[h := Insert(before[h], ts[i])] else before
  {
    assert ts[..i + 1][..i] == ts[..i];
    var l := NotIncons(ts[..i]);
    assert (l + [ts[i]])[..|l|] == l;
    if ts[i].value != Incons {
      assert NotIncons(ts[..i + 1]) == l + [ts[i]];
      assert InsertAll(db[h], l + [ts[i]]) == Insert(InsertAll(db[h], l), ts[i]);
    } else {
      assert NotIncons(ts[..i + 1]) == l;
    }
  }

  // ---------------------------------------------------------------- runs

  /** An evaluation under way: the module, the arities, the active domain, and the facts it began with. */
  datatype Run = Run(m: KBModule, arities: seq<nat>, domain: set<nat>, db0: DB) {
    ghost predicate Valid() { ValidModule(m, arities) && DomainFor(m, domain) }

    ghost predicate Holds(db: DB) { Invariant(m, arities, domain, db0, db) }

    lemma Start()
      requires ValidModule(m, arities) && FactsFit(db0, arities) && domain == ActiveDomain(m, db0)
      requires forall r :: r in m.relationIds ==> NoUnknown(db0[r])
      ensures Valid() && Holds(db0)
    {
      assert ProducedIn(m, db0, db0, 0);
      ActiveDomainFits(m, db0, arities);
    }

    lemma IdsExist()
      requires Valid()
      ensures forall r :: r in m.relationIds ==> r < |arities|
    {
    }

    lemma Unfold(db: DB, rule: KBRule)
      requires Valid() && Holds(db) && rule in m.rules
      ensures ValidRule(m, rule, arities) && rule.body != [] && DBFits(db, arities, domain) && NULL_VAL !in domain
      ensures forall r :: r in m.relationIds && r < |db| ==> NoUnknown(db[r])
    {
      var i :| 0 <= i < |m.rules| && m.rules[i] == rule;
    }

    /** Adding consistent results of a rule keeps the invariant and only adds knowledge. */
    lemma Keep(db: DB, rule: KBRule, result: seq<KBTuple>)
      requires Valid() && Holds(db) && rule in m.rules && forall t :: t in result ==> Derivable(m, rule, db, t)
      ensures Holds(Added(db, rule.headRelId, NotIncons(result)))
      ensures DBLeq(db, Added(db, rule.headRelId, NotIncons(result)))
    {
      hide Derivable, Invariant, DBLeq, ValidModule, DomainFor;
      forall t | t in NotIncons(result) ensures Derivable(m, rule, db, t) && t.value != Incons {
        NotInconsMembers(result, t);
      }
      AddedKeepsInvariant(m, arities, domain, db0, db, rule, NotIncons(result));
    }

    /** More knowledge moves a counter, and the counters stay below the bound of the active domain. */
    lemma Progress(before: DB, after: DB)
      requires Holds(before) && Holds(after) && DBLeq(before, after)
      ensures var ids := m.relationIds;
              && Fixpoints.FactsNumber(before, ids) <= Fixpoints.FactsNumber(after, ids)
              && Fixpoints.InconsFactsNumber(before, ids) <= Fixpoints.InconsFactsNumber(after, ids)
              && Fixpoints.FactsNumber(after, ids) + Fixpoints.InconsFactsNumber(after, ids)
                 <= Bound(arities, domain, ids)
              && (&& Fixpoints.FactsNumber(before, ids) == Fixpoints.FactsNumber(after, ids)
                  && Fixpoints.InconsFactsNumber(before, ids) == Fixpoints.InconsFactsNumber(after, ids)
                  ==> before == after)
    {
      CountersTell(before, after, m.relationIds);
      assert forall r :: r in m.relationIds && r < |before| ==> KeepsUnknown(before[r], after[r]);
      CountersBounded(after, arities, domain, m.relationIds);
      if forall r :: r in m.relationIds && r < |before| ==> before[r] == after[r] {
        assert forall r :: 0 <= r < |before| ==> before[r] == after[r];
      }
    }

    lemma Finish(db: DB)
      requires Holds(db) && Closed(m, db)
      ensures IsFixpoint(m, db0, db)
      ensures NoIncons(m, db) <==> exists model :: IsModel(m, db0, model)
    {
      FixpointIsLeastModel(m, db0, db);
    }
  }

  lemma RulesWellFormed(m: KBModule, arities: seq<nat>)
    requires ValidModule(m, arities)
    ensures forall i :: 0 <= i < |m.rules| ==> WellFormedRule(m.rules[i])
  {
    forall i | 0 <= i < |m.rules| ensures WellFormedRule(m.rules[i]) {
      assert ValidRule(m, m.rules[i], arities);
    }
  }

  lemma {:induction false} CountsIncons(db: DB, ids: seq<nat>)
    ensures Fixpoints.InconsFactsNumber(db, ids) == 0 <==> forall r :: r in ids ==> InconsKeys(PoolOf(db, r)) == {}
  {
    if ids != [] {
      var l, r := ids[..|ids| - 1], ids[|ids| - 1];
      assert ids == l + [r];
      CountsIncons(db, l);
    }
  }
}
