/** The two ways to evaluate a module, side by side (src/Program.cc). */
module Evaluations {
  import opened Fixpoints
  import opened KnowledgeBases
  import opened Runs
  import NaiveEvaluations
  import SemiNaiveEvaluations

  /** Two knowledge bases without a common relation. */
  ghost predicate Separate(a: KnowledgeBase, b: KnowledgeBase) {
    && (forall r :: r in a.relations ==> r !in b.relations)
    && (forall r :: r in b.relations ==> r !in a.relations)
  }

  /** What an evaluation of the module accepts. */
  ghost predicate Accepts(m: KBModule, arities: seq<nat>, db: DB) {
    && ValidModule(m, arities) && FactsFit(db, arities)
    && forall r :: r in m.relationIds ==> r < |db| && NoUnknown(db[r])
  }

  /** A knowledge base whose relations are left alone keeps its facts. */
  twostate lemma LeftAlone(kb: KnowledgeBase)
    requires old(kb.Valid()) && forall i :: 0 <= i < |kb.relations| ==> unchanged(kb.relations[i])
    ensures kb.Valid() && kb.Facts() == old(kb.Facts())
  {
  }

  /** The naive evaluation of one knowledge base leaves the other alone. */
  method EvaluateNaively(a: KnowledgeBase, b: KnowledgeBase, m: KBModule, threads: nat) returns (consistent: bool)
    requires a.Valid() && b.Valid() && Separate(a, b) && Accepts(m, a.arities, a.Facts()) && threads >= 1
    modifies a.relations
    ensures a.Valid() && b.Valid() && b.Facts() == old(b.Facts())
    ensures IsFixpoint(m, old(a.Facts()), a.Facts()) && NaiveResult(m, old(a.Facts()), a.Facts())
    ensures consistent <==> NoIncons(m, a.Facts())
  {
    hide IsFixpoint, NaiveResult, IsModel, FactsFit, NoUnknown, NoIncons, ValidRule, KnowledgeBase.Valid,
         KnowledgeBase.Facts;
    consistent := NaiveEvaluations.EvaluateKBModule(a, m, threads);
    assert forall i :: 0 <= i < |b.relations| ==> b.relations[i] in b.relations;
    LeftAlone(b);
  }

  method EvaluateSemiNaively(a: KnowledgeBase, b: KnowledgeBase, m: KBModule, threads: nat) returns (consistent: bool)
    requires a.Valid() && b.Valid() && Separate(a, b) && Accepts(m, b.arities, b.Facts()) && threads >= 1
    modifies b.relations
    ensures a.Valid() && b.Valid() && a.Facts() == old(a.Facts())
    ensures IsFixpoint(m, old(b.Facts()), b.Facts()) && SemiNaiveResult(m, old(b.Facts()), b.Facts())
    ensures consistent <==> NoIncons(m, b.Facts())
  {
    hide IsFixpoint, SemiNaiveResult, IsModel, FactsFit, NoUnknown, NoIncons, ValidRule, KnowledgeBase.Valid,
         KnowledgeBase.Facts;
    consistent := SemiNaiveEvaluations.EvaluateKBModule(b, m, threads);
    assert forall i :: 0 <= i < |a.relations| ==> a.relations[i] in a.relations;
    LeftAlone(a);
  }

  /** From the same facts, with any numbers of threads, both evaluations find the module consistent or neither
      does; consistent results are equal, and they are the least model. Whether consistent or not, each result
      is the one that its run determines, and a fixpoint. */
  method EvaluateBothWays(a: KnowledgeBase, b: KnowledgeBase, m: KBModule, threadsA: nat, threadsB: nat)
    returns (naive: bool, semiNaive: bool)
    requires a.Valid() && b.Valid() && Separate(a, b) && a.arities == b.arities && a.Facts() == b.Facts()
    requires Accepts(m, a.arities, a.Facts()) && threadsA >= 1 && threadsB >= 1
    modifies a.relations, b.relations
    ensures a.Valid() && b.Valid()
    ensures IsFixpoint(m, old(a.Facts()), a.Facts()) && NaiveResult(m, old(a.Facts()), a.Facts())
    ensures IsFixpoint(m, old(a.Facts()), b.Facts()) && SemiNaiveResult(m, old(a.Facts()), b.Facts())
    ensures naive == semiNaive == (exists model :: IsModel(m, old(a.Facts()), model))
    ensures naive ==> a.Facts() == b.Facts() && IsModel(m, old(a.Facts()), a.Facts())
    ensures naive ==> forall model :: IsModel(m, old(a.Facts()), model) ==> DBLeq(a.Facts(), model)
  {
    hide IsFixpoint, NaiveResult, SemiNaiveResult, IsModel, Accepts, NoIncons, DBLeq;
    ghost var start := a.Facts();
    naive := EvaluateNaively(a, b, m, threadsA);
    semiNaive := EvaluateSemiNaively(a, b, m, threadsB);
    FixpointIsLeastModel(m, start, a.Facts());
    FixpointsAgree(m, start, a.Facts(), b.Facts());
  }
}
