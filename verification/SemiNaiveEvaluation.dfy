/** The semi-naive evaluation of a module: after a first pass the rules are evaluated on the deltas
    only, one body literal at a time (src/SemiNaiveEvaluation.cc). */
module SemiNaiveEvaluations {
  import opened TruthValues
  import opened KBLiterals
  import opened KBRelations
  import opened RuleSemantics
  import opened EvalRules
  import opened Fixpoints
  import opened KnowledgeBases
  import opened Runs
  import opened Deltas

  type RelationDeltas = map<nat, FactsPool>

  // ---------------------------------------------------------------- recording changes

  /** AddToDeltaRelation: the delta stores the value the knowledge base has now. */
  method AddToDeltaRelation(delta: FactsPool, tup: KBTuple, currentVal: TruthValue) returns (delta': FactsPool)
    requires delta.Valid() && (tup.terms in delta.Contents() ==> currentVal != tup.value)
    ensures delta'.Valid() && delta'.Contents() == delta.Contents()[tup.terms := currentVal]
  {
    var (pushed, pos, inserted) := delta.PushBack(tup);
    delta' := pushed;
    if currentVal != tup.value {
      delta' := delta'.Modify(pos, currentVal);
    }
  }

  ghost predicate Recording(start: Pool, now: Pool, delta: Pool) {
    delta == Diff(start, now) && PoolLeq(start, now) && NoUnknown(now) && NoUnknown(start)
  }

  method AddResult(kb: KnowledgeBase, relId: nat, fact: KBTuple, delta: FactsPool, ghost start: Pool)
    returns (delta': FactsPool)
    requires kb.Valid() && relId < |kb.relations| && delta.Valid() && fact.value != Incons && fact.value != Unknown
    requires Recording(start, kb.Facts()[relId], delta.Contents())
    modifies kb.relations
    ensures kb.Valid() && kb.Facts() == old(kb.Facts())[relId := Insert(old(kb.Facts())[relId], fact)]
    ensures delta'.Valid() && Recording(start, kb.Facts()[relId], delta'.Contents())
  {
    ghost var q, d := kb.Facts()[relId], delta.Contents();
    RecordedTracks(start, q, fact);
    var changed, value := kb.AddTuple(relId, fact);
    delta' := delta;
    if changed {
      delta' := AddToDeltaRelation(delta, fact, value);
    }
    assert delta'.Contents() == Recorded(q, d, fact);
  }

  /** AddResultsToRelation with NotEqualsIncons: inconsistent results are dropped, and what changes
      goes into the delta of the head relation. */
  method AddResultsToRelation(kb: KnowledgeBase, relId: nat, results: seq<KBTuple>, deltas: RelationDeltas,
                              ghost start: Pool)
    returns (deltas': RelationDeltas)
    requires kb.Valid() && relId < |kb.relations| && relId in deltas && deltas[relId].Valid()
    requires forall t :: t in results ==> t.value != Unknown
    requires Recording(start, kb.Facts()[relId], deltas[relId].Contents())
    modifies kb.relations
    ensures kb.Valid() && kb.Facts() == Added(old(kb.Facts()), relId, NotIncons(results))
    ensures relId in deltas' && deltas'[relId].Valid() && deltas' == deltas[relId := deltas'[relId]]
    ensures Recording(start, kb.Facts()[relId], deltas'[relId].Contents())
  {
    hide Insert, Recording;
    ghost var before := kb.Facts();
    assert before[relId := InsertAll(before[relId], [])] == before;
    var delta := deltas[relId];
    for i := 0 to |results|
      invariant kb.Valid() && kb.Facts() == Added(before, relId, NotIncons(results[..i]))
      invariant delta.Valid() && Recording(start, kb.Facts()[relId], delta.Contents())
    {
      AddedOneMore(before, relId, results, i);
      if results[i].value != Incons {
        assert results[i] in results;
        delta := AddResult(kb, relId, results[i], delta, start);
      }
    }
    assert results[..|results|] == results;
    deltas' := deltas[relId := delta];
  }

  // ---------------------------------------------------------------- deltas of a module

  ghost predicate AllEmpty(deltas: RelationDeltas) {
    forall r :: DeltaOf(deltas, r) == map[]
  }

  ghost predicate AllValid(deltas: RelationDeltas) {
    forall r :: r in deltas ==> deltas[r].Valid()
  }

  method CreateRelationDeltas(m: KBModule) returns (deltas: RelationDeltas)
    ensures DeltasFor(m, deltas) && AllEmpty(deltas) && AllValid(deltas)
  {
    deltas := map[];
    for i := 0 to |m.relationIds|
      invariant forall r :: r in deltas <==> exists k :: 0 <= k < i && m.relationIds[k] == r
      invariant forall r :: r in deltas ==> deltas[r] == EmptyPool()
    {
      deltas := deltas[m.relationIds[i] := EmptyPool()];
    }
  }

  method AreDeltasEmpty(deltas: RelationDeltas) returns (empty: bool)
    requires AllValid(deltas)
    ensures empty <==> AllEmpty(deltas)
  {
    var rest := deltas.Keys;
    while rest != {}
      invariant rest <= deltas.Keys
      invariant forall r :: r in deltas && r !in rest ==> DeltaOf(deltas, r) == map[]
      decreases rest
    {
      var r :| r in rest;
      if deltas[r].rows != [] {
        RowsAreContents(deltas[r]);
        assert DeltaOf(deltas, r) != map[];
        return false;
      }
      rest := rest - {r};
    }
    return true;
  }

  datatype IdbInfo = IdbInfo(isIdb: bool, relId: nat)

  ghost predicate IdbInfoOf(m: KBModule, body: seq<KBRuleLiteral>, info: seq<IdbInfo>) {
    && |info| == |body|
    && forall j :: 0 <= j < |body| ==> info[j].relId == body[j].relId && (info[j].isIdb <==> IsIdb(m, body[j].relId))
  }

  ghost predicate RulesIdbInfo(m: KBModule, infos: seq<seq<IdbInfo>>) {
    |infos| == |m.rules| && forall i :: 0 <= i < |m.rules| ==> IdbInfoOf(m, m.rules[i].body, infos[i])
  }

  method LiteralsIdbInfo(body: seq<KBRuleLiteral>, idbRelIds: set<nat>) returns (info: seq<IdbInfo>)
    ensures |info| == |body|
    ensures forall j :: 0 <= j < |body| ==> info[j] == IdbInfo(body[j].relId in idbRelIds, body[j].relId)
  {
    info := [];
    for j := 0 to |body|
      invariant |info| == j && forall k :: 0 <= k < j ==> info[k] == IdbInfo(body[k].relId in idbRelIds, body[k].relId)
    {
      info := info + [IdbInfo(body[j].relId in idbRelIds, body[j].relId)];
    }
  }

  method GenerateRuleIdbInfo(m: KBModule) returns (infos: seq<seq<IdbInfo>>)
    ensures RulesIdbInfo(m, infos)
  {
    var idbRelIds: set<nat> := {};
    for i := 0 to |m.rules|
      invariant forall r :: r in idbRelIds <==> exists k :: 0 <= k < i && m.rules[k].headRelId == r
    {
      idbRelIds := idbRelIds + {m.rules[i].headRelId};
    }
    assert forall r :: r in idbRelIds <==> IsIdb(m, r);
    infos := [];
    for i := 0 to |m.rules|
      invariant |infos| == i && forall k :: 0 <= k < i ==> IdbInfoOf(m, m.rules[k].body, infos[k])
    {
      var info := LiteralsIdbInfo(m.rules[i].body, idbRelIds);
      assert IdbInfoOf(m, m.rules[i].body, info);
      infos := infos + [info];
    }
  }

  // ---------------------------------------------------------------- one rule

  /** The deltas are the changes from prev to start, and db knows at least as much as start. */
  ghost predicate DeltasOf(m: KBModule, prev: DB, start: DB, db: DB, deltas: RelationDeltas) {
    && DeltasFor(m, deltas) && Tracked(m, prev, start, deltas)
    && DBLeq(prev, start) && DBLeq(start, db)
    && forall r :: r in m.relationIds && r < |start| ==> NoUnknown(start[r])
  }

  lemma DiffWithin(p: Pool, q: Pool, db: Pool)
    requires PoolLeq(q, db) && NoUnknown(q)
    ensures PoolLeq(Diff(p, q), db) && NoUnknown(Diff(p, q))
  {
  }

  lemma DeltaRefsWithin(m: KBModule, rule: KBRule, arities: seq<nat>, prev: DB, start: DB, db: DB,
                        deltas: RelationDeltas, j: nat)
    requires ValidModule(m, arities) && ValidRule(m, rule, arities) && |db| == |arities|
    requires DeltasOf(m, prev, start, db, deltas)
    requires forall r :: r in m.relationIds && r < |db| ==> NoUnknown(db[r])
    requires j < |rule.body| && IsIdb(m, rule.body[j].relId)
    ensures rule.body[j].relId in m.relationIds
    ensures DeltaRefs(rule.body, prev, start, db, j) == RefsOf(rule.body, db)[j := DeltaOf(deltas, rule.body[j].relId)]
    ensures RefsWithin(m, rule.body, DeltaRefs(rule.body, prev, start, db, j), db)
  {
    hide Diff, PoolLeq, ValidModule, NoUnknown;
    RefsOfWithin(m, rule, db, arities);
    IdbLiteralSafe(m, arities, rule, j);
    var r, refs := rule.body[j].relId, DeltaRefs(rule.body, prev, start, db, j);
    assert ValidLiteral(m, rule.body[j], arities);
    DiffWithin(prev[r], start[r], db[r]);
    forall i | 0 <= i < |rule.body| ensures PoolWithin(m, rule.body[i], refs[i], db) {
      assert PoolWithin(m, rule.body[i], RefsOf(rule.body, db)[i], db);
    }
  }

  /** Without changes nothing is derived from them. */
  lemma NoChanges(m: KBModule, rule: KBRule, arities: seq<nat>, prev: DB, start: DB, db: DB,
                  deltas: RelationDeltas, j: nat)
    requires ValidModule(m, arities) && ValidRule(m, rule, arities) && |start| == |arities|
    requires DeltasOf(m, prev, start, db, deltas) && j < |rule.body|
    requires DeltaOf(deltas, rule.body[j].relId) == map[]
    ensures forall t :: !DerivesAt(m, rule, prev, start, db, t, j)
  {
    hide Derives, ValidRule, ValidModule;
    forall t ensures !DerivesAt(m, rule, prev, start, db, t, j) {
      DerivesFromChange(m, arities, rule, prev, start, db, t, j);
      if IsIdb(m, rule.body[j].relId) {
        IdbLiteralSafe(m, arities, rule, j);
        var r := rule.body[j].relId;
        if r < |start| {
          EmptyDelta(prev[r], start[r]);
        }
      }
    }
  }

  /** Evaluates the rule with a delta in place of literal j, if that literal has one. */
  method EvaluateLiteralDelta(rule: KBRule, e: EvalRule, refs: seq<FactsPool>, deltas: RelationDeltas, info: IdbInfo,
                              j: nat, threads: nat, ghost run: Run, ghost prev: DB, ghost start: DB, ghost db: DB)
    returns (result: seq<KBTuple>)
    requires run.Valid() && run.Holds(db) && |db| == |run.arities| && rule in run.m.rules && EvaluatorOf(rule, e)
    requires threads >= 1
    requires ContentsAre(refs, RefsOf(rule.body, db)) && DeltasOf(run.m, prev, start, db, deltas)
    requires j < |rule.body| && info.relId == rule.body[j].relId && (info.isIdb <==> IsIdb(run.m, rule.body[j].relId))
    ensures forall t :: t in result <==> DerivesAt(run.m, rule, prev, start, db, t, j)
    ensures forall t :: t in result ==> Derivable(run.m, rule, db, t)
  {
    hide EvaluatorOf, Derives, Derivable, Invariant, WellFormedRule, ValidModule, ValidRule;
    run.Unfold(db, rule);
    if !info.isIdb {
      return [];
    }
    assert ValidModule(run.m, run.arities);
    DeltaRefsWithin(run.m, rule, run.arities, prev, start, db, deltas, j);
    if deltas[info.relId].rows == [] {
      RowsAreContents(deltas[info.relId]);
      assert DeltaOf(deltas, info.relId) == map[];
      NoChanges(run.m, rule, run.arities, prev, start, db, deltas, j);
      return [];
    }
    result := RunWithin(rule, e, refs[j := deltas[info.relId]], threads, run.m,
                        DeltaRefs(rule.body, prev, start, db, j), run.arities, run.domain, db);
  }

  method EvaluateRuleDeltas(rule: KBRule, e: EvalRule, refs: seq<FactsPool>, deltas: RelationDeltas, info: seq<IdbInfo>,
                            threads: nat, ghost run: Run, ghost prev: DB, ghost start: DB, ghost db: DB)
    returns (finalResult: seq<KBTuple>)
    requires run.Valid() && run.Holds(db) && |db| == |run.arities| && rule in run.m.rules && EvaluatorOf(rule, e)
    requires threads >= 1
    requires ContentsAre(refs, RefsOf(rule.body, db)) && DeltasOf(run.m, prev, start, db, deltas)
    requires IdbInfoOf(run.m, rule.body, info)
    ensures forall t :: t in finalResult ==> Derivable(run.m, rule, db, t)
    ensures forall t :: t in finalResult <==> exists j: nat :: DerivesAt(run.m, rule, prev, start, db, t, j)
  {
    hide EvaluatorOf, Derivable, Invariant, ContentsAre, DeltasOf, ValidModule, ValidRule, IsIdb, DomainFor, Derives;
    finalResult := [];
    for j := 0 to |info|
      invariant forall t :: t in finalResult ==> Derivable(run.m, rule, db, t)
      invariant forall t :: t in finalResult <==>
        exists k: nat :: k < j && DerivesAt(run.m, rule, prev, start, db, t, k)
    {
      var result := EvaluateLiteralDelta(rule, e, refs, deltas, info[j], j, threads, run, prev, start, db);
      finalResult := finalResult + result;
    }
  }

  /** The start of a round, the facts now, and the new deltas between them. */
  ghost predicate Round(run: Run, start: DB, db: DB, newDeltas: RelationDeltas) {
    && run.Holds(start) && run.Holds(db) && |db| == |run.arities|
    && SameExternals(run.m, start, db) && DBLeq(start, db)
    && DeltasFor(run.m, newDeltas) && AllValid(newDeltas)
    && Tracked(run.m, start, db, newDeltas)
    && (forall r :: DeltaOf(newDeltas, r) != map[] ==> IsIdb(run.m, r))
  }

  lemma ResultsKnown(run: Run, db: DB, rule: KBRule, result: seq<KBTuple>)
    requires run.Valid() && run.Holds(db) && rule in run.m.rules
    requires forall t :: t in result ==> Derivable(run.m, rule, db, t)
    ensures forall t :: t in result ==> t.value != Unknown
  {
    hide Derivable;
    run.Unfold(db, rule);
    forall t | t in result ensures t.value != Unknown {
      var i :| 0 <= i < |run.m.rules| && run.m.rules[i] == rule;
      DerivedFits(run.m, rule, db, t, run.arities, run.domain);
    }
  }

  lemma RoundContinues(run: Run, start: DB, db: DB, db': DB, deltas: RelationDeltas, deltas': RelationDeltas,
                       rule: KBRule)
    requires Round(run, start, db, deltas) && run.Holds(db') && DBLeq(db, db') && rule in run.m.rules
    requires rule.headRelId in run.m.relationIds && rule.headRelId < |db|
    requires db' == db[rule.headRelId := db'[rule.headRelId]]
    requires rule.headRelId in deltas' && deltas'[rule.headRelId].Valid()
    requires deltas' == deltas[rule.headRelId := deltas'[rule.headRelId]]
    requires deltas'[rule.headRelId].Contents() == Diff(start[rule.headRelId], db'[rule.headRelId])
    ensures Round(run, start, db', deltas')
  {
    hide Diff, Invariant, PoolLeq;
    var h := rule.headRelId;
    assert DBLeq(start, db') by {
      DBLeqTransitive(start, db, db');
    }
    forall r | r in run.m.relationIds && r < |db'| ensures DeltaOf(deltas', r) == Diff(start[r], db'[r]) {
      if r != h {
        assert DeltaOf(deltas', r) == DeltaOf(deltas, r);
      }
    }
    forall r | DeltaOf(deltas', r) != map[] ensures IsIdb(run.m, r) {
      if r != h {
        assert DeltaOf(deltas', r) == DeltaOf(deltas, r);
      } else {
        var i :| 0 <= i < |run.m.rules| && run.m.rules[i] == rule;
      }
    }
  }

  /** Stores the results of a rule and records the changes: the consistent results are added. */
  method StoreResults(kb: KnowledgeBase, rule: KBRule, result: seq<KBTuple>, newDeltas: RelationDeltas, ghost run: Run,
                      ghost start: DB, ghost tuples: iset<KBTuple>)
    returns (newDeltas': RelationDeltas)
    requires kb.Valid() && kb.arities == run.arities && run.Valid() && rule in run.m.rules
    requires Round(run, start, kb.Facts(), newDeltas)
    requires forall t :: t in result ==> Derivable(run.m, rule, kb.Facts(), t)
    requires forall t :: t in tuples <==> t in result && t.value != Incons
    modifies kb.relations
    ensures kb.Valid() && AddsLeast(old(kb.Facts()), kb.Facts(), rule.headRelId, tuples)
    ensures Round(run, start, kb.Facts(), newDeltas') && DBLeq(old(kb.Facts()), kb.Facts())
  {
    hide Derivable, WellFormedRule, Invariant, DBFits, Diff, AddsLeast;
    ghost var db, h := kb.Facts(), rule.headRelId;
    run.Unfold(db, rule);
    run.Unfold(start, rule);
    run.Keep(db, rule, result);
    ResultsKnown(run, db, rule, result);
    assert DeltaOf(newDeltas, h) == Diff(start[h], db[h]);
    newDeltas' := AddResultsToRelation(kb, rule.headRelId, result, newDeltas, start[h]);
    RoundContinues(run, start, db, kb.Facts(), newDeltas, newDeltas', rule);
    StoredIsAdded(db, h, result, tuples);
  }

  // ---------------------------------------------------------------- rounds

  /** The beginning of a round: nothing changed yet. */
  lemma RoundStarts(run: Run, db: DB, deltas: RelationDeltas)
    requires run.Holds(db) && |db| == |run.arities| && DeltasFor(run.m, deltas)
    requires AllValid(deltas) && AllEmpty(deltas)
    ensures Round(run, db, db, deltas)
  {
    forall r | r in run.m.relationIds && r < |db| ensures Diff(db[r], db[r]) == map[] {
      EmptyDelta(db[r], db[r]);
    }
  }

  method FirstPassRule(kb: KnowledgeBase, rule: KBRule, e: EvalRule, newDeltas: RelationDeltas, threads: nat,
                       ghost run: Run, ghost start: DB)
    returns (newDeltas': RelationDeltas)
    requires kb.Valid() && kb.arities == run.arities && run.Valid() && rule in run.m.rules
    requires EvaluatorOf(rule, e) && threads >= 1 && Round(run, start, kb.Facts(), newDeltas)
    modifies kb.relations
    ensures kb.Valid() && Round(run, start, kb.Facts(), newDeltas')
    ensures NaiveStep(rule, old(kb.Facts()), kb.Facts())
  {
    hide EvaluatorOf, Derives, Derivable, Invariant, ContentsAre, WellFormedRule, Tracked, AddsLeast;
    ghost var db := kb.Facts();
    run.Unfold(db, rule);
    RefsOfWithin(run.m, rule, db, run.arities);
    var refs := kb.GetRelationRefs(rule.body);
    var result := RunWithin(rule, e, refs, threads, run.m, RefsOf(rule.body, db), run.arities, run.domain, db);
    newDeltas' := StoreResults(kb, rule, result, newDeltas, run, start, NaiveTuples(rule, db));
  }

  /** The first pass is a round on all facts, and leaves the changes in the deltas. */
  method FirstPass(kb: KnowledgeBase, rules: seq<KBRule>, evaluators: seq<EvalRule>, deltas: RelationDeltas,
                   threads: nat, ghost run: Run)
    returns (newDeltas: RelationDeltas)
    requires kb.Valid() && kb.arities == run.arities && run.Valid() && rules == run.m.rules
    requires EvaluatorsOf(rules, evaluators) && threads >= 1 && run.Holds(kb.Facts())
    requires DeltasFor(run.m, deltas) && AllValid(deltas) && AllEmpty(deltas)
    modifies kb.relations
    ensures kb.Valid() && Round(run, old(kb.Facts()), kb.Facts(), newDeltas)
    ensures NaiveRound(run.m, |run.m.rules|, old(kb.Facts()), kb.Facts())
  {
    hide EvaluatorOf, Invariant, Tracked, Round, DBLeq, ValidModule, DomainFor, NaiveStep, NaiveRound;
    ghost var start := kb.Facts();
    NoRules(run.m, start, start);
    newDeltas := deltas;
    RoundStarts(run, start, deltas);
    for i := 0 to |rules|
      invariant kb.Valid() && Round(run, start, kb.Facts(), newDeltas) && NaiveRound(run.m, i, start, kb.Facts())
    {
      ghost var db := kb.Facts();
      newDeltas := FirstPassRule(kb, rules[i], evaluators[i], newDeltas, threads, run, start);
      NaiveRoundOneMore(run.m, i, start, db, kb.Facts());
    }
  }

  /** The rule on the deltas of the last round: what the changes give is added. */
  method EvaluateRule(kb: KnowledgeBase, rule: KBRule, e: EvalRule, relationDeltas: RelationDeltas, info: seq<IdbInfo>,
                      newDeltas: RelationDeltas, threads: nat, ghost run: Run, ghost prev: DB, ghost start: DB)
    returns (newDeltas': RelationDeltas)
    requires kb.Valid() && kb.arities == run.arities && run.Valid() && rule in run.m.rules
    requires EvaluatorOf(rule, e) && threads >= 1 && IdbInfoOf(run.m, rule.body, info)
    requires Round(run, start, kb.Facts(), newDeltas) && Round(run, prev, start, relationDeltas)
    modifies kb.relations
    ensures kb.Valid() && Round(run, start, kb.Facts(), newDeltas')
    ensures DeltaStep(run.m, rule, prev, start, old(kb.Facts()), kb.Facts())
  {
    hide EvaluatorOf, Derives, Derivable, Invariant, ContentsAre, WellFormedRule, Tracked, AddsLeast, DerivesAt,
         IdbInfoOf, DBLeq;
    ghost var db := kb.Facts();
    run.Unfold(db, rule);
    run.Unfold(start, rule);
    var refs := kb.GetRelationRefs(rule.body);
    var result := EvaluateRuleDeltas(rule, e, refs, relationDeltas, info, threads, run, prev, start, db);
    newDeltas' := StoreResults(kb, rule, result, newDeltas, run, start, DeltaTuples(run.m, rule, prev, start, db));
  }

  lemma RoundGives(run: Run, start: DB, db: DB, deltas: RelationDeltas)
    requires Round(run, start, db, deltas)
    ensures run.Holds(db) && |db| == |run.arities| && DeltasFor(run.m, deltas) && AllValid(deltas)
  {
    hide Tracked, Invariant, DBLeq;
  }

  /** One round: every rule on the deltas of the last round. */
  method EvaluateRules(kb: KnowledgeBase, m: KBModule, relationDeltas: RelationDeltas, evaluators: seq<EvalRule>,
                       rulesIdbInfo: seq<seq<IdbInfo>>, threads: nat, ghost run: Run, ghost prev: DB)
    returns (newDeltas: RelationDeltas)
    requires kb.Valid() && kb.arities == run.arities && run.Valid() && m == run.m
    requires EvaluatorsOf(m.rules, evaluators) && threads >= 1 && RulesIdbInfo(m, rulesIdbInfo)
    requires Round(run, prev, kb.Facts(), relationDeltas)
    modifies kb.relations
    ensures kb.Valid() && Round(run, old(kb.Facts()), kb.Facts(), newDeltas)
    ensures DeltaRound(m, |m.rules|, prev, old(kb.Facts()), kb.Facts())
  {
    hide EvaluatorOf, Invariant, Tracked, Round, DBLeq, ValidModule, DomainFor, IdbInfoOf, DeltaStep, DeltaRound;
    ghost var start := kb.Facts();
    NoRules(m, prev, start);
    newDeltas := CreateRelationDeltas(m);
    RoundGives(run, prev, start, relationDeltas);
    RoundStarts(run, start, newDeltas);
    for i := 0 to |m.rules|
      invariant kb.Valid() && Round(run, start, kb.Facts(), newDeltas) && DeltaRound(m, i, prev, start, kb.Facts())
    {
      ghost var db := kb.Facts();
      newDeltas := EvaluateRule(kb, m.rules[i], evaluators[i], relationDeltas, rulesIdbInfo[i], newDeltas, threads, run,
                                prev, start);
      DeltaRoundOneMore(m, i, prev, start, db, kb.Facts());
    }
  }

  /** What is left of the bound that the active domain puts on the facts. */
  ghost function Room(run: Run, db: DB): int {
    Bound(run.arities, run.domain, run.m.relationIds)
    - FactsNumber(db, run.m.relationIds) - InconsFactsNumber(db, run.m.relationIds)
  }

  lemma SomethingChanged(run: Run, start: DB, db: DB, deltas: RelationDeltas)
    requires run.Valid() && Round(run, start, db, deltas) && !AllEmpty(deltas)
    ensures start != db
  {
    hide Diff, Invariant, PoolLeq;
    var r: nat :| DeltaOf(deltas, r) != map[];
    assert IsIdb(run.m, r);
    var i :| 0 <= i < |run.m.rules| && run.m.rules[i].headRelId == r;
    assert ValidRule(run.m, run.m.rules[i], run.arities);
    EmptyDelta(start[r], db[r]);
  }

  /** A round that leaves a delta used up some room. */
  lemma RoundUsesRoom(run: Run, start: DB, db: DB, deltas: RelationDeltas)
    requires run.Valid() && Round(run, start, db, deltas) && !AllEmpty(deltas)
    ensures 0 <= Room(run, db) < Room(run, start)
  {
    hide Invariant, DBLeq;
    SomethingChanged(run, start, db, deltas);
    run.Progress(start, db);
  }

  /** A round that leaves no delta changed nothing. */
  lemma NothingLeft(run: Run, start: DB, db: DB, deltas: RelationDeltas)
    requires Round(run, start, db, deltas) && AllEmpty(deltas)
    ensures start == db
  {
    hide Diff, Invariant, PoolLeq;
    forall r | 0 <= r < |db| ensures start[r] == db[r] {
      if r in run.m.relationIds {
        EmptyDelta(start[r], db[r]);
      }
    }
  }

  /** One more round of the run; when it leaves a delta, it used up some of the room. */
  method NextRound(kb: KnowledgeBase, m: KBModule, evaluators: seq<EvalRule>, rulesIdbInfo: seq<seq<IdbInfo>>,
                   relationDeltas: RelationDeltas, threads: nat, ghost run: Run, ghost start: DB, ghost prev: DB,
                   ghost n: nat)
    returns (newDeltas: RelationDeltas, empty: bool)
    requires kb.Valid() && kb.arities == run.arities && run.Valid() && m == run.m
    requires EvaluatorsOf(m.rules, evaluators) && threads >= 1 && RulesIdbInfo(m, rulesIdbInfo)
    requires Round(run, prev, kb.Facts(), relationDeltas) && SemiNaiveRun(m, start, prev, kb.Facts(), n)
    modifies kb.relations
    ensures kb.Valid() && Round(run, old(kb.Facts()), kb.Facts(), newDeltas)
    ensures SemiNaiveRun(m, start, old(kb.Facts()), kb.Facts(), n + 1)
    ensures empty ==> SemiNaiveResult(m, start, kb.Facts())
    ensures !empty ==> 0 <= Room(run, kb.Facts()) < Room(run, old(kb.Facts()))
  {
    hide EvaluatorsOf, RulesIdbInfo, Round, AllEmpty, AllValid, DeltasFor, SemiNaiveRun, SemiNaiveResult, DeltaRound,
         Room, Run.Valid, Run.Holds;
    ghost var before := kb.Facts();
    newDeltas := EvaluateRules(kb, m, relationDeltas, evaluators, rulesIdbInfo, threads, run, prev);
    SemiNaiveRunOneMore(m, start, prev, before, kb.Facts(), n);
    RoundGives(run, before, kb.Facts(), newDeltas);
    empty := AreDeltasEmpty(newDeltas);
    if empty {
      NothingLeft(run, before, kb.Facts(), newDeltas);
      RunEnds(m, start, kb.Facts(), n + 1);
    } else {
      RoundUsesRoom(run, before, kb.Facts(), newDeltas);
    }
  }

  /** Rounds until no delta is left. */
  method Rounds(kb: KnowledgeBase, m: KBModule, evaluators: seq<EvalRule>, rulesIdbInfo: seq<seq<IdbInfo>>,
                deltas: RelationDeltas, threads: nat, ghost run: Run, ghost start: DB)
    requires kb.Valid() && kb.arities == run.arities && run.Valid() && m == run.m
    requires EvaluatorsOf(m.rules, evaluators) && threads >= 1 && RulesIdbInfo(m, rulesIdbInfo)
    requires Round(run, start, kb.Facts(), deltas) && SemiNaiveRun(m, start, start, kb.Facts(), 0)
    modifies kb.relations
    ensures kb.Valid() && run.Holds(kb.Facts()) && SemiNaiveResult(m, start, kb.Facts())
  {
    hide EvaluatorsOf, RulesIdbInfo, Round, SemiNaiveRun, SemiNaiveResult, Room, Run.Valid, Run.Holds;
    ghost var prev, n: nat := start, 0;
    var relationDeltas, empty := deltas, false;
    while !empty
      invariant kb.Valid() && Round(run, prev, kb.Facts(), relationDeltas)
      invariant SemiNaiveRun(m, start, prev, kb.Facts(), n)
      invariant empty ==> SemiNaiveResult(m, start, kb.Facts())
      decreases !empty, Room(run, kb.Facts())
    {
      ghost var now := kb.Facts();
      relationDeltas, empty := NextRound(kb, m, evaluators, rulesIdbInfo, relationDeltas, threads, run, start, prev, n);
      prev, n := now, n + 1;
    }
    RoundGives(run, prev, kb.Facts(), relationDeltas);
  }

  /** The first pass and then rounds until no delta is left. */
  method Generate(kb: KnowledgeBase, m: KBModule, evaluators: seq<EvalRule>, rulesIdbInfo: seq<seq<IdbInfo>>,
                  threads: nat, ghost run: Run)
    requires kb.Valid() && kb.arities == run.arities && run.Valid() && m == run.m && run.Holds(kb.Facts())
    requires EvaluatorsOf(m.rules, evaluators) && threads >= 1 && RulesIdbInfo(m, rulesIdbInfo)
    modifies kb.relations
    ensures kb.Valid() && run.Holds(kb.Facts()) && SemiNaiveResult(m, old(kb.Facts()), kb.Facts())
  {
    hide EvaluatorsOf, RulesIdbInfo, Invariant, ValidModule, DomainFor, Round, AllEmpty, AllValid, DeltasFor,
         NaiveRound, DeltaRound;
    ghost var start := kb.Facts();
    var relationDeltas := CreateRelationDeltas(m);
    relationDeltas := FirstPass(kb, m.rules, evaluators, relationDeltas, threads, run);
    ghost var now := kb.Facts();
    RoundGives(run, start, now, relationDeltas);
    assert SemiNaiveRun(m, start, start, now, 0);
    var empty := AreDeltasEmpty(relationDeltas);
    if empty {
      NothingLeft(run, start, now, relationDeltas);
      return;
    }
    Rounds(kb, m, evaluators, rulesIdbInfo, relationDeltas, threads, run, start);
  }

  /** The evaluation of one module up to the test for inconsistent facts: the same contract as the naive
      evaluation, and the result of the run of rounds on changes. */
  method EvaluateKBModule(kb: KnowledgeBase, m: KBModule, threads: nat) returns (consistent: bool)
    requires kb.Valid() && ValidModule(m, kb.arities) && FactsFit(kb.Facts(), kb.arities)
    requires forall r :: r in m.relationIds ==> NoUnknown(kb.Facts()[r])
    requires threads >= 1
    modifies kb.relations
    ensures kb.Valid() && IsFixpoint(m, old(kb.Facts()), kb.Facts())
    ensures SemiNaiveResult(m, old(kb.Facts()), kb.Facts())
    ensures consistent <==> NoIncons(m, kb.Facts())
    ensures consistent <==> exists model :: IsModel(m, old(kb.Facts()), model)
  {
    hide EvaluatorsOf, Closed, RuleClosed, ValidRule, RulesIdbInfo, SemiNaiveResult, IsFixpoint;
    ghost var run := Run(m, kb.arities, ActiveDomain(m, kb.Facts()), kb.Facts());
    run.Start();
    RulesWellFormed(m, kb.arities);
    var evaluators := CreateEvaluators(m.rules);
    var rulesIdbInfo := GenerateRuleIdbInfo(m);
    Generate(kb, m, evaluators, rulesIdbInfo, threads, run);
    SemiNaiveResultIsClosed(m, kb.arities, run.db0, kb.Facts());
    run.Finish(kb.Facts());
    var number := kb.InconsFactsNumber(m.relationIds);
    CountsIncons(kb.Facts(), m.relationIds);
    consistent := number == 0;
  }
}
