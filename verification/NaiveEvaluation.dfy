/** The naive evaluation of a module: all rules, round after round, until the counters of the module
    stand still (src/NaiveEvaluation.cc). */
module NaiveEvaluations {
  import opened TruthValues
  import opened KBLiterals
  import opened KBRelations
  import opened RuleSemantics
  import opened EvalRules
  import opened Fixpoints
  import opened KnowledgeBases
  import opened Runs

  /** AddResultsToRelation with NotEqualsIncons: inconsistent results are dropped. */
  method AddResultsToRelation(kb: KnowledgeBase, relId: nat, results: seq<KBTuple>)
    requires kb.Valid() && relId < |kb.relations|
    modifies kb.relations
    ensures kb.Valid() && kb.Facts() == Added(old(kb.Facts()), relId, NotIncons(results))
  {
    hide Insert;
    ghost var before := kb.Facts();
    assert before[relId := InsertAll(before[relId], [])] == before;
    for i := 0 to |results|
      invariant kb.Valid() && kb.Facts() == Added(before, relId, NotIncons(results[..i]))
    {
      AddedOneMore(before, relId, results, i);
      if results[i].value != Incons {
        var changed, value := kb.AddTuple(relId, results[i]);
      }
    }
    assert results[..|results|] == results;
  }

  /** Adding the results of a rule changes nothing exactly when the rule is closed. */
  lemma UnchangedMeansClosed(rule: KBRule, db: DB, result: seq<KBTuple>)
    requires rule.body != [] && rule.headRelId < |db|
    requires forall t :: t in result <==> Derives(rule, RefsOf(rule.body, db), t)
    ensures Added(db, rule.headRelId, NotIncons(result)) == db <==> RuleClosed(rule, db)
  {
    hide Derives, Insert;
    var h, db' := rule.headRelId, Added(db, rule.headRelId, NotIncons(result));
    InsertAllIsLeast(db[h], NotIncons(result), db[h]);
    forall t ensures t in NotIncons(result) <==> Derives(rule, RefsOf(rule.body, db), t) && t.value != Incons {
      NotInconsMembers(result, t);
    }
    if RuleClosed(rule, db) {
      assert PoolLeq(db'[h], db[h]);
      PoolLeqAntisymmetric(db[h], db'[h]);
    }
    assert db' == db <==> db'[h] == db[h];
  }

  /** The step of a rule: knowledge grew, and nothing changed exactly if the rule is closed. */
  ghost predicate RuleRun(rule: KBRule, a: DB, b: DB) {
    NaiveStep(rule, a, b) && DBLeq(a, b) && (b == a <==> RuleClosed(rule, a))
  }

  /** Evaluates one rule on the present facts and adds what it derives. */
  method EvaluateRule(kb: KnowledgeBase, rule: KBRule, e: EvalRule, threads: nat, ghost run: Run)
    requires kb.Valid() && kb.arities == run.arities && run.Valid() && run.Holds(kb.Facts())
    requires rule in run.m.rules && EvaluatorOf(rule, e) && threads >= 1
    modifies kb.relations
    ensures kb.Valid() && run.Holds(kb.Facts()) && RuleRun(rule, old(kb.Facts()), kb.Facts())
  {
    hide EvaluatorOf, Derives, RuleClosed, Invariant, ContentsAre, WellFormedRule, Derivable, AddsLeast;
    ghost var db := kb.Facts();
    run.Unfold(db, rule);
    RefsOfWithin(run.m, rule, db, run.arities);
    var refs := kb.GetRelationRefs(rule.body);
    var result := RunWithin(rule, e, refs, threads, run.m, RefsOf(rule.body, db), run.arities, run.domain, db);
    AddResultsToRelation(kb, rule.headRelId, result);
    run.Keep(db, rule, result);
    UnchangedMeansClosed(rule, db, result);
    StoredIsAdded(db, rule.headRelId, result, NaiveTuples(rule, db));
  }

  /** The round has come to rule i: knowledge grew, and nothing changed exactly if the rules before it are closed. */
  ghost predicate SoFar(m: KBModule, i: nat, start: DB, db: DB) {
    && i <= |m.rules| && NaiveRound(m, i, start, db) && DBLeq(start, db)
    && (db == start <==> forall k :: 0 <= k < i ==> RuleClosed(m.rules[k], start))
  }

  lemma RoundStarts(m: KBModule, db: DB)
    ensures SoFar(m, 0, db, db)
  {
  }

  lemma SoFarOneMore(m: KBModule, i: nat, start: DB, before: DB, after: DB)
    requires i < |m.rules| && SoFar(m, i, start, before) && RuleRun(m.rules[i], before, after)
    ensures SoFar(m, i + 1, start, after)
  {
    hide RuleClosed, NaiveStep;
    NaiveRoundOneMore(m, i, start, before, after);
    DBLeqTransitive(start, before, after);
    if after == start {
      DBLeqAntisymmetric(start, before);
    }
  }

  lemma RoundEnds(m: KBModule, start: DB, db: DB)
    requires SoFar(m, |m.rules|, start, db)
    ensures NaiveRound(m, |m.rules|, start, db) && DBLeq(start, db) && (db == start <==> Closed(m, start))
  {
    hide RuleClosed, DBLeq, NaiveRound;
  }

  /** One round: it leaves the knowledge base as it is exactly when no result that is kept can change it. */
  method EvaluateRules(kb: KnowledgeBase, rules: seq<KBRule>, evaluators: seq<EvalRule>, threads: nat, ghost run: Run)
    requires kb.Valid() && kb.arities == run.arities && run.Valid() && run.Holds(kb.Facts())
    requires rules == run.m.rules && EvaluatorsOf(rules, evaluators) && threads >= 1
    modifies kb.relations
    ensures kb.Valid() && run.Holds(kb.Facts()) && DBLeq(old(kb.Facts()), kb.Facts())
    ensures NaiveRound(run.m, |run.m.rules|, old(kb.Facts()), kb.Facts())
    ensures kb.Facts() == old(kb.Facts()) <==> Closed(run.m, old(kb.Facts()))
  {
    hide EvaluatorOf, RuleRun, NaiveRound, DBLeq, Run.Valid, Run.Holds, SoFar, Closed;
    ghost var start := kb.Facts();
    RoundStarts(run.m, start);
    for i := 0 to |rules|
      invariant kb.Valid() && run.Holds(kb.Facts()) && SoFar(run.m, i, start, kb.Facts())
    {
      ghost var before := kb.Facts();
      EvaluateRule(kb, rules[i], evaluators[i], threads, run);
      SoFarOneMore(run.m, i, start, before, kb.Facts());
    }
    RoundEnds(run.m, start, kb.Facts());
  }

  /** One round of the run and its counters: they stand still exactly when the round changed nothing, and
      otherwise use up some of the bound. */
  method CountedRound(kb: KnowledgeBase, m: KBModule, evaluators: seq<EvalRule>, threads: nat,
                      prevFactsNumber: nat, prevInconsFactsNumber: nat, ghost run: Run, ghost start: DB, ghost n: nat)
    returns (factsNumber: nat, inconsFactsNumber: nat)
    requires kb.Valid() && kb.arities == run.arities && run.Valid() && run.m == m && run.Holds(kb.Facts())
    requires EvaluatorsOf(m.rules, evaluators) && threads >= 1 && NaiveRun(m, start, kb.Facts(), n)
    requires prevFactsNumber == FactsNumber(kb.Facts(), m.relationIds)
    requires prevInconsFactsNumber == InconsFactsNumber(kb.Facts(), m.relationIds)
    modifies kb.relations
    ensures kb.Valid() && run.Holds(kb.Facts()) && NaiveRun(m, start, kb.Facts(), n + 1)
    ensures factsNumber == FactsNumber(kb.Facts(), m.relationIds)
    ensures inconsFactsNumber == InconsFactsNumber(kb.Facts(), m.relationIds)
    ensures prevFactsNumber <= factsNumber && prevInconsFactsNumber <= inconsFactsNumber
    ensures factsNumber + inconsFactsNumber <= Bound(run.arities, run.domain, m.relationIds)
    ensures factsNumber == prevFactsNumber && inconsFactsNumber == prevInconsFactsNumber
      <==> Closed(m, old(kb.Facts()))
    ensures Closed(m, old(kb.Facts())) ==> Closed(m, kb.Facts()) && NaiveResult(m, start, kb.Facts())
  {
    hide EvaluatorsOf, Closed, DBLeq, NaiveRound, NaiveRun, NaiveResult, Run.Valid, Run.Holds, Bound,
         Fixpoints.FactsNumber, Fixpoints.InconsFactsNumber;
    ghost var before := kb.Facts();
    run.IdsExist();
    EvaluateRules(kb, m.rules, evaluators, threads, run);
    factsNumber := kb.FactsNumber(m.relationIds);
    inconsFactsNumber := kb.InconsFactsNumber(m.relationIds);
    run.Progress(before, kb.Facts());
    NaiveRunOneMore(m, start, before, kb.Facts(), n);
    if Closed(m, before) {
      NaiveRunEnds(m, start, kb.Facts(), n + 1);
    }
  }

  /** The round-until-stable loop. The counters stop exactly when no rule can add anything, and the
      active domain bounds the number of rounds. */
  method Generate(kb: KnowledgeBase, m: KBModule, evaluators: seq<EvalRule>, threads: nat, ghost run: Run)
    requires kb.Valid() && kb.arities == run.arities && run.Valid() && run.m == m && run.Holds(kb.Facts())
    requires EvaluatorsOf(m.rules, evaluators) && threads >= 1
    modifies kb.relations
    ensures kb.Valid() && run.Holds(kb.Facts()) && Closed(m, kb.Facts())
    ensures NaiveResult(m, old(kb.Facts()), kb.Facts())
  {
    hide EvaluatorsOf, Closed, NaiveRound, NaiveRun, NaiveResult, Run.Valid, Run.Holds, Bound, Fixpoints.FactsNumber,
         Fixpoints.InconsFactsNumber;
    ghost var start, n: nat := kb.Facts(), 0;
    NaiveRunStarts(m, start);
    run.IdsExist();
    var factsNumber := kb.FactsNumber(m.relationIds);
    var inconsFactsNumber := kb.InconsFactsNumber(m.relationIds);
    var more := true;
    while more
      invariant kb.Valid() && run.Holds(kb.Facts()) && NaiveRun(m, start, kb.Facts(), n)
      invariant factsNumber == FactsNumber(kb.Facts(), m.relationIds)
      invariant inconsFactsNumber == InconsFactsNumber(kb.Facts(), m.relationIds)
      invariant !more ==> Closed(m, kb.Facts()) && NaiveResult(m, start, kb.Facts())
      decreases Bound(run.arities, run.domain, m.relationIds) - factsNumber - inconsFactsNumber, more
    {
      var prevFactsNumber, prevInconsFactsNumber := factsNumber, inconsFactsNumber;
      factsNumber, inconsFactsNumber :=
        CountedRound(kb, m, evaluators, threads, factsNumber, inconsFactsNumber, run, start, n);
      more := factsNumber != prevFactsNumber || inconsFactsNumber != prevInconsFactsNumber;
      n := n + 1;
    }
  }

  /** The evaluation of one module up to the test for inconsistent facts. When it ends without any, the
      knowledge base holds the least model of the module; it ends so exactly when there is a model. */
  method EvaluateKBModule(kb: KnowledgeBase, m: KBModule, threads: nat) returns (consistent: bool)
    requires kb.Valid() && ValidModule(m, kb.arities) && FactsFit(kb.Facts(), kb.arities)
    requires forall r :: r in m.relationIds ==> NoUnknown(kb.Facts()[r])
    requires threads >= 1
    modifies kb.relations
    ensures kb.Valid() && IsFixpoint(m, old(kb.Facts()), kb.Facts())
    ensures NaiveResult(m, old(kb.Facts()), kb.Facts())
    ensures consistent <==> NoIncons(m, kb.Facts())
    ensures consistent <==> exists model :: IsModel(m, old(kb.Facts()), model)
  {
    hide EvaluatorsOf, Closed, RuleClosed, ValidRule, NaiveResult, IsFixpoint;
    ghost var run := Run(m, kb.arities, ActiveDomain(m, kb.Facts()), kb.Facts());
    run.Start();
    RulesWellFormed(m, kb.arities);
    var evaluators := CreateEvaluators(m.rules);
    Generate(kb, m, evaluators, threads, run);
    run.Finish(kb.Facts());
    var number := kb.InconsFactsNumber(m.relationIds);
    CountsIncons(kb.Facts(), m.relationIds);
    consistent := number == 0;
  }
}
