/** What the evaluation of a module computes: databases, the models of a module, and what one round of
    rule applications keeps. A database gives the pool of every relation of the knowledge base. */
module Fixpoints {
  import opened TruthValues
  import opened Sequences
  import opened KBLiterals
  import opened KBRelations
  import opened RuleSemantics

  type DB = seq<Pool>

  /** A module: its rules and the relations it defines (src/KB/KBModule.h). */
  datatype KBModule = KBModule(rules: seq<KBRule>, relationIds: seq<nat>)

  // ---------------------------------------------------------------- modules that the knowledge base accepts

  /** Only literals on relations of other modules may accept unknown. */
  ghost predicate ValidLiteral(m: KBModule, l: KBRuleLiteral, arities: seq<nat>) {
    l.relId < |arities| && |l.lit.terms| == arities[l.relId] && (l.relId in m.relationIds ==> !l.IsUnsafe())
  }

  ghost predicate ValidRule(m: KBModule, rule: KBRule, arities: seq<nat>) {
    && WellFormedRule(rule) && rule.headRelId in m.relationIds
    && rule.headRelId < |arities| && |rule.head.terms| == arities[rule.headRelId]
    && forall i :: 0 <= i < |rule.body| ==> ValidLiteral(m, rule.body[i], arities)
  }

  ghost predicate ValidModule(m: KBModule, arities: seq<nat>) {
    && Distinct(m.relationIds) && (forall r :: r in m.relationIds ==> r < |arities|)
    && forall i :: 0 <= i < |m.rules| ==> ValidRule(m, m.rules[i], arities)
  }

  // ---------------------------------------------------------------- databases

  ghost predicate DBLeq(a: DB, b: DB) {
    |a| == |b| && forall r :: 0 <= r < |a| ==> PoolLeq(a[r], b[r])
  }

  ghost predicate NoUnknown(pool: Pool) {
    forall k :: k in pool ==> pool[k] != Unknown
  }

  ghost predicate NoIncons(m: KBModule, db: DB) {
    forall r :: r in m.relationIds && r < |db| ==> InconsKeys(db[r]) == {}
  }

  /** The relations of other modules hold the same facts. */
  ghost predicate SameExternals(m: KBModule, a: DB, b: DB) {
    |a| == |b| && forall r :: 0 <= r < |a| && r !in m.relationIds ==> a[r] == b[r]
  }

  /** Tuples of the right length over the domain. */
  ghost predicate TupleFits(k: seq<nat>, arity: nat, domain: set<nat>) {
    |k| == arity && forall j :: 0 <= j < |k| ==> k[j] in domain
  }

  ghost predicate DBFits(db: DB, arities: seq<nat>, domain: set<nat>) {
    |db| == |arities| && forall r :: 0 <= r < |db| ==> forall k :: k in db[r] ==> TupleFits(k, arities[r], domain)
  }

  /** The active domain of a module: no null marker, and the constants of the rule heads. */
  ghost predicate DomainFor(m: KBModule, domain: set<nat>) {
    && NULL_VAL !in domain
    && forall i, c :: 0 <= i < |m.rules| && Constant(c) in m.rules[i].head.terms ==> c in domain
  }

  /** Facts as the knowledge base loads them: of the right length, without the null marker. */
  ghost predicate FactsFit(db: DB, arities: seq<nat>) {
    |db| == |arities| && forall r :: 0 <= r < |db| ==> forall k :: k in db[r] ==> |k| == arities[r] && NullFree(k)
  }

  /** The values that an evaluation can meet: those of the facts and the constants of the rule heads. */
  ghost function ActiveDomain(m: KBModule, db: DB): set<nat> {
    (set r, k, j | 0 <= r < |db| && k in db[r] && 0 <= j < |k| :: k[j])
    + (set i, t | 0 <= i < |m.rules| && t in m.rules[i].head.terms && t.Constant? :: t.val)
  }

  lemma ActiveDomainFits(m: KBModule, db: DB, arities: seq<nat>)
    requires ValidModule(m, arities) && FactsFit(db, arities)
    ensures DomainFor(m, ActiveDomain(m, db)) && DBFits(db, arities, ActiveDomain(m, db))
  {
    forall i | 0 <= i < |m.rules| ensures Constant(NULL_VAL) !in m.rules[i].head.terms {
      assert ValidRule(m, m.rules[i], arities);
    }
    forall i, c | 0 <= i < |m.rules| && Constant(c) in m.rules[i].head.terms ensures c in ActiveDomain(m, db) {
      var t := Constant(c);
      assert t in m.rules[i].head.terms && t.val == c;
    }
  }

  lemma DBLeqTransitive(a: DB, b: DB, c: DB)
    requires DBLeq(a, b) && DBLeq(b, c)
    ensures DBLeq(a, c)
  {
  }

  lemma DBLeqAntisymmetric(a: DB, b: DB)
    requires DBLeq(a, b) && DBLeq(b, a)
    ensures a == b
  {
    forall r | 0 <= r < |a| ensures a[r] == b[r] {
      PoolLeqAntisymmetric(a[r], b[r]);
    }
  }

  // ---------------------------------------------------------------- derivation over databases

  ghost function PoolOf(db: DB, r: nat): Pool {
    if r < |db| then db[r] else map[]
  }

  /** The pools a rule body reads. */
  ghost function RefsOf(body: seq<KBRuleLiteral>, db: DB): seq<Pool> {
    seq(|body|, i requires 0 <= i < |body| => PoolOf(db, body[i].relId))
  }

  /** The pool holds facts of the database, perhaps not all and perhaps with an older value. */
  ghost predicate PoolWithin(m: KBModule, l: KBRuleLiteral, pool: Pool, db: DB) {
    if l.relId in m.relationIds then PoolLeq(pool, PoolOf(db, l.relId)) && NoUnknown(pool)
    else pool == PoolOf(db, l.relId)
  }

  ghost predicate RefsWithin(m: KBModule, body: seq<KBRuleLiteral>, refs: seq<Pool>, db: DB) {
    |refs| == |body| && forall i :: 0 <= i < |body| ==> PoolWithin(m, body[i], refs[i], db)
  }

  ghost predicate DerivesFrom(m: KBModule, rule: KBRule, refs: seq<Pool>, db: DB, t: KBTuple) {
    rule.body != [] && RefsWithin(m, rule.body, refs, db) && Derives(rule, refs, t)
  }

  /** A tuple that the rule can produce from facts of the database. */
  ghost predicate Derivable(m: KBModule, rule: KBRule, db: DB, t: KBTuple) {
    exists refs :: DerivesFrom(m, rule, refs, db, t)
  }

  /** q gives the literal, under s, the same fact as p; a literal that accepts unknown needs the same pool. */
  ghost predicate Serves(l: KBRuleLiteral, p: Pool, q: Pool, s: Subst) {
    if l.IsUnsafe() then p == q
    else
      var k := Instance(l.lit.terms, s);
      Known(p, k) ==> k in q && q[k] == p[k]
  }

  ghost predicate AllServe(body: seq<KBRuleLiteral>, refs: seq<Pool>, refs': seq<Pool>, s: Subst) {
    |refs| == |refs'| == |body| && forall i :: 0 <= i < |body| ==> Serves(body[i], refs[i], refs'[i], s)
  }

  lemma {:induction false} ServesBody(body: seq<KBRuleLiteral>, refs: seq<Pool>, refs': seq<Pool>, n: nat, s: Subst)
    requires 0 < n <= |body| && AllServe(body, refs, refs', s) && SatFirst(body, refs, n, s)
    ensures SatFirst(body, refs', n, s) && BodyValue(body, refs', n, s) == BodyValue(body, refs, n, s)
  {
    hide Reached;
    forall i | 0 <= i < n ensures SatLiteral(body[i], refs'[i], s) {
      assert Serves(body[i], refs[i], refs'[i], s) && SatLiteral(body[i], refs[i], s);
    }
    assert Serves(body[n - 1], refs[n - 1], refs'[n - 1], s) && SatLiteral(body[n - 1], refs[n - 1], s);
    if n > 1 {
      ServesBody(body, refs, refs', n - 1, s);
    }
  }

  /** A tuple derived from some facts is derived, with the same value, wherever these facts are. */
  lemma DerivedWhereServed(rule: KBRule, refs: seq<Pool>, refs': seq<Pool>, s: Subst)
    requires rule.body != [] && AllServe(rule.body, refs, refs', s) && SatBody(rule, refs, s)
    ensures SatBody(rule, refs', s) && HeadTuple(rule, refs', s) == HeadTuple(rule, refs, s)
    ensures Derives(rule, refs', HeadTuple(rule, refs, s))
  {
    hide Serves, SatLiteral;
    ServesBody(rule.body, refs, refs', |rule.body|, s);
    assert SatBody(rule, refs', s) && HeadTuple(rule, refs', s) == HeadTuple(rule, refs, s);
  }

  lemma WithinRefsFit(m: KBModule, rule: KBRule, refs: seq<Pool>, db: DB, arities: seq<nat>, domain: set<nat>)
    requires ValidRule(m, rule, arities) && DBFits(db, arities, domain) && NULL_VAL !in domain
    requires RefsWithin(m, rule.body, refs, db)
    ensures RefsFit(rule.body, refs)
  {
    forall i | 0 <= i < |rule.body| ensures PoolFits(rule.body[i], refs[i]) {
      assert PoolWithin(m, rule.body[i], refs[i], db) && ValidLiteral(m, rule.body[i], arities);
      forall k | k in refs[i] ensures |k| == |rule.body[i].lit.terms| && NullFree(k) {
        assert k in db[rule.body[i].relId];
        assert TupleFits(k, arities[rule.body[i].relId], domain);
      }
    }
  }

  /** The value of a variable of the body occurs in a fact. */
  lemma {:induction false} SatInDomain(body: seq<KBRuleLiteral>, refs: seq<Pool>, n: nat, s: Subst, v: nat,
                                       domain: set<nat>)
    requires n <= |body| == |refs| && SafeOrder(body) && SatFirst(body, refs, n, s) && v in VarsUpTo(body, n)
    requires forall i, k, j :: 0 <= i < |refs| && k in refs[i] && 0 <= j < |k| ==> k[j] in domain
    ensures v in s && s[v] in domain
  {
    if v in VarsUpTo(body, n - 1) {
      SatInDomain(body, refs, n - 1, s, v, domain);
    } else {
      var l := body[n - 1];
      assert SatLiteral(l, refs[n - 1], s);
      assert Variable(v) in l.lit.terms;
      var j :| 0 <= j < |l.lit.terms| && l.lit.terms[j] == Variable(v);
      assert Instance(l.lit.terms, s)[j] == s[v];
    }
  }

  lemma RefsInDomain(m: KBModule, rule: KBRule, refs: seq<Pool>, db: DB, arities: seq<nat>, domain: set<nat>)
    requires ValidRule(m, rule, arities) && DBFits(db, arities, domain) && RefsWithin(m, rule.body, refs, db)
    ensures forall i, k, j :: 0 <= i < |refs| && k in refs[i] && 0 <= j < |k| ==> k[j] in domain
  {
    hide WellFormedRule;
    forall i, k, j | 0 <= i < |refs| && k in refs[i] && 0 <= j < |k| ensures k[j] in domain {
      assert PoolWithin(m, rule.body[i], refs[i], db) && ValidLiteral(m, rule.body[i], arities);
      assert TupleFits(k, arities[rule.body[i].relId], domain);
    }
  }

  /** A derived tuple has the arity of the head, values of the active domain, and a known value. */
  lemma DerivedFits(m: KBModule, rule: KBRule, db: DB, t: KBTuple, arities: seq<nat>, domain: set<nat>)
    requires ValidRule(m, rule, arities) && DBFits(db, arities, domain)
    requires forall c :: Constant(c) in rule.head.terms ==> c in domain
    requires Derivable(m, rule, db, t)
    ensures TupleFits(t.terms, arities[rule.headRelId], domain) && t.value != Unknown
  {
    var refs :| DerivesFrom(m, rule, refs, db, t);
    var s :| SatBody(rule, refs, s) && HeadTuple(rule, refs, s) == t;
    BodyValueIs(rule.body, refs, |rule.body|, s);
    RefsInDomain(m, rule, refs, db, arities, domain);
    hide DBFits, RefsWithin, DerivesFrom, Derives, SatLiteral;
    forall j | 0 <= j < |t.terms| ensures t.terms[j] in domain {
      if rule.head.terms[j].Variable? {
        assert rule.head.terms[j].id in rule.head.Vars();
        SatInDomain(rule.body, refs, |rule.body|, s, rule.head.terms[j].id, domain);
      } else {
        assert Constant(rule.head.terms[j].val) in rule.head.terms;
      }
    }
  }

  // ---------------------------------------------------------------- models

  ghost predicate RuleClosed(rule: KBRule, db: DB) {
    && rule.body != []
    && forall t :: Derives(rule, RefsOf(rule.body, db), t) && t.value != Incons ==>
      Absorbs(PoolOf(db, rule.headRelId), t)
  }

  /** Every tuple that a rule derives is stored, unless its value is Incons. */
  ghost predicate Closed(m: KBModule, db: DB) {
    forall i :: 0 <= i < |m.rules| ==> RuleClosed(m.rules[i], db)
  }

  /** A consistent database that holds the initial facts and is closed under the rules. */
  ghost predicate IsModel(m: KBModule, db0: DB, db: DB) {
    SameExternals(m, db0, db) && DBLeq(db0, db) && NoIncons(m, db) && Closed(m, db)
  }

  ghost predicate BelowModels(m: KBModule, db0: DB, db: DB) {
    forall model :: IsModel(m, db0, model) ==> DBLeq(db, model)
  }

  ghost function Added(db: DB, h: nat, ts: seq<KBTuple>): DB {
    if h < |db| then db[h := InsertAll(db[h], ts)] else db
  }

  /** Some consistent tuples that rule i derives from a are added. */
  ghost predicate StepTo(m: KBModule, a: DB, b: DB, i: nat, ts: seq<KBTuple>) {
    && i < |m.rules| && (forall t :: t in ts ==> Derivable(m, m.rules[i], a, t) && t.value != Incons)
    && b == Added(a, m.rules[i].headRelId, ts)
  }

  /** n such steps lead from db0 to db. */
  ghost predicate ProducedIn(m: KBModule, db0: DB, db: DB, n: nat)
    decreases n
  {
    if n == 0 then db == db0
    else exists a: DB, i: nat, ts: seq<KBTuple> :: ProducedIn(m, db0, a, n - 1) && StepTo(m, a, db, i, ts)
  }

  ghost predicate Produced(m: KBModule, db0: DB, db: DB) {
    exists n: nat :: ProducedIn(m, db0, db, n)
  }

  /** What an evaluation to a fixpoint returns, whether or not some tuple became inconsistent: a database
      that holds the initial facts, is closed under the rules, consists of what the rules produce, and
      lies below every model. */
  ghost predicate IsFixpoint(m: KBModule, db0: DB, db: DB) {
    && SameExternals(m, db0, db) && DBLeq(db0, db) && Closed(m, db)
    && Produced(m, db0, db) && BelowModels(m, db0, db)
  }

  /** Rule i derives t for relation r from a database that fewer than n steps produce and that lies below db. */
  ghost predicate DerivedBefore(m: KBModule, db0: DB, db: DB, n: nat, r: nat, t: KBTuple, i: nat, c: DB, l: nat) {
    && l < n && ProducedIn(m, db0, c, l) && DBLeq(c, db)
    && i < |m.rules| && m.rules[i].headRelId == r && Derivable(m, m.rules[i], c, t)
  }

  lemma {:induction false} InsertedFrom(pool: Pool, ts: seq<KBTuple>, t: KBTuple)
    requires Absorbs(InsertAll(pool, ts), t) && (t.value == True || t.value == False)
    requires forall u :: u in ts ==> u.value != Incons
    ensures Absorbs(pool, t) || t in ts
  {
    if ts != [] {
      var l, u := ts[..|ts| - 1], ts[|ts| - 1];
      assert ts == l + [u];
      assert u in ts && forall x :: x in l ==> x in ts;
      if Absorbs(InsertAll(pool, l), t) {
        InsertedFrom(pool, l, t);
      } else {
        assert u.terms == t.terms && u.value == t.value;
      }
    }
  }

  lemma StepGrows(m: KBModule, a: DB, b: DB, i: nat, ts: seq<KBTuple>)
    requires StepTo(m, a, b, i, ts)
    ensures DBLeq(a, b)
  {
    var h := m.rules[i].headRelId;
    if h < |a| {
      InsertAllIsLeast(a[h], ts, a[h]);
    }
  }

  lemma {:induction false} ProducedGrows(m: KBModule, db0: DB, db: DB, n: nat)
    requires ProducedIn(m, db0, db, n)
    ensures DBLeq(db0, db)
    decreases n
  {
    if n > 0 {
      var a: DB, i: nat, ts: seq<KBTuple> :| ProducedIn(m, db0, a, n - 1) && StepTo(m, a, db, i, ts);
      ProducedGrows(m, db0, a, n - 1);
      StepGrows(m, a, db, i, ts);
      DBLeqTransitive(db0, a, db);
    }
  }

  lemma StepAdds(m: KBModule, a: DB, b: DB, i: nat, ts: seq<KBTuple>, r: nat, t: KBTuple)
    requires StepTo(m, a, b, i, ts) && r < |b| && Absorbs(b[r], t) && (t.value == True || t.value == False)
    ensures |a| == |b| && (Absorbs(a[r], t) || (t in ts && m.rules[i].headRelId == r))
  {
    if m.rules[i].headRelId == r {
      InsertedFrom(a[r], ts, t);
    }
  }

  /** t is an initial fact of relation r, or a rule derives it from what had been produced before. */
  ghost predicate InitialOrDerived(m: KBModule, db0: DB, db: DB, n: nat, r: nat, t: KBTuple) {
    || (r < |db0| && Absorbs(db0[r], t))
    || exists i: nat, c: DB, l: nat :: DerivedBefore(m, db0, db, n, r, t, i, c, l)
  }

  lemma InitialOrDerivedGrows(m: KBModule, db0: DB, a: DB, db: DB, n: nat, r: nat, t: KBTuple)
    requires n > 0 && InitialOrDerived(m, db0, a, n - 1, r, t) && DBLeq(a, db)
    ensures InitialOrDerived(m, db0, db, n, r, t)
  {
    hide ProducedIn, Derivable, DBLeq, Absorbs;
    var n' := n - 1;
    if i: nat, c: DB, l: nat :| DerivedBefore(m, db0, a, n', r, t, i, c, l) {
      DBLeqTransitive(c, a, db);
      assert DerivedBefore(m, db0, db, n, r, t, i, c, l);
    }
  }

  lemma InitialFact(m: KBModule, db0: DB, n: nat, r: nat, t: KBTuple)
    requires r < |db0| && Absorbs(db0[r], t)
    ensures InitialOrDerived(m, db0, db0, n, r, t)
  {
  }

  lemma DerivedLast(m: KBModule, db0: DB, a: DB, db: DB, n: nat, i: nat, r: nat, t: KBTuple)
    requires n > 0 && ProducedIn(m, db0, a, n - 1) && DBLeq(a, db) && i < |m.rules| && m.rules[i].headRelId == r
    requires Derivable(m, m.rules[i], a, t)
    ensures InitialOrDerived(m, db0, db, n, r, t)
  {
    hide ProducedIn, Derivable, DBLeq;
    assert DerivedBefore(m, db0, db, n, r, t, i, a, n - 1);
  }

  /** Whatever is stored as true or false, alone or within Incons, is an initial fact or was derived from
      what had been produced before, whether or not the module has a model. */
  lemma {:induction false} StoredIsInitialOrDerived(m: KBModule, db0: DB, db: DB, n: nat, r: nat, t: KBTuple)
    requires ProducedIn(m, db0, db, n) && r < |db| && Absorbs(db[r], t) && (t.value == True || t.value == False)
    ensures InitialOrDerived(m, db0, db, n, r, t)
    decreases n
  {
    hide InitialOrDerived, Derivable, Absorbs, DBLeq, Added;
    if n == 0 {
      assert InitialOrDerived(m, db0, db, n, r, t) by { InitialFact(m, db0, n, r, t); }
    } else {
      var a: DB, i: nat, ts: seq<KBTuple> :| ProducedIn(m, db0, a, n - 1) && StepTo(m, a, db, i, ts);
      StepGrows(m, a, db, i, ts);
      StepAdds(m, a, db, i, ts, r, t);
      if Absorbs(a[r], t) {
        StoredIsInitialOrDerived(m, db0, a, n - 1, r, t);
        InitialOrDerivedGrows(m, db0, a, db, n, r, t);
      } else {
        DerivedLast(m, db0, a, db, n, i, r, t);
      }
    }
  }

  lemma NoInconsBelow(m: KBModule, a: DB, b: DB)
    requires DBLeq(a, b) && NoIncons(m, b)
    ensures NoIncons(m, a)
  {
    forall r | r in m.relationIds && r < |a| ensures InconsKeys(a[r]) == {} {
      assert forall k :: k in InconsKeys(a[r]) ==> k in InconsKeys(b[r]);
    }
  }

  /** The result is consistent exactly when the module has a model, and then it is the least model. */
  lemma FixpointIsLeastModel(m: KBModule, db0: DB, db: DB)
    requires IsFixpoint(m, db0, db)
    ensures NoIncons(m, db) <==> exists model :: IsModel(m, db0, model)
    ensures NoIncons(m, db) ==> IsModel(m, db0, db) && forall model :: IsModel(m, db0, model) ==> DBLeq(db, model)
  {
    if model :| IsModel(m, db0, model) {
      NoInconsBelow(m, db, model);
    }
    assert NoIncons(m, db) ==> IsModel(m, db0, db);
  }

  /** Two evaluations of the same module agree: both are consistent or neither, and consistent results
      are equal. */
  lemma FixpointsAgree(m: KBModule, db0: DB, a: DB, b: DB)
    requires IsFixpoint(m, db0, a) && IsFixpoint(m, db0, b)
    ensures NoIncons(m, a) <==> NoIncons(m, b)
    ensures NoIncons(m, a) ==> a == b
  {
    FixpointIsLeastModel(m, db0, a);
    FixpointIsLeastModel(m, db0, b);
    if NoIncons(m, a) {
      DBLeqAntisymmetric(a, b);
    }
  }

  // ---------------------------------------------------------------- adding results

  /** What holds at every moment of an evaluation that started from db0. */
  ghost predicate Invariant(m: KBModule, arities: seq<nat>, domain: set<nat>, db0: DB, db: DB) {
    && DBFits(db, arities, domain) && SameExternals(m, db0, db) && DBLeq(db0, db)
    && (forall r :: r in m.relationIds && r < |db| ==> NoUnknown(db[r]))
    && Produced(m, db0, db) && BelowModels(m, db0, db)
  }

  /** In a consistent model older values and present values are the same. */
  lemma WithinServesModel(m: KBModule, rule: KBRule, refs: seq<Pool>, db: DB, model: DB, arities: seq<nat>, s: Subst)
    requires ValidRule(m, rule, arities) && RefsWithin(m, rule.body, refs, db) && |db| == |arities|
    requires DBLeq(db, model) && SameExternals(m, db, model) && NoIncons(m, model)
    ensures AllServe(rule.body, refs, RefsOf(rule.body, model), s)
  {
    forall i | 0 <= i < |rule.body| ensures Serves(rule.body[i], refs[i], RefsOf(rule.body, model)[i], s) {
      var l := rule.body[i];
      assert PoolWithin(m, l, refs[i], db) && ValidLiteral(m, l, arities);
      if l.relId in m.relationIds {
        forall k | k in refs[i] ensures k in model[l.relId] && refs[i][k] == model[l.relId][k] {
          assert k !in InconsKeys(model[l.relId]);
          assert KnowledgeLeq(refs[i][k], db[l.relId][k]) && KnowledgeLeq(db[l.relId][k], model[l.relId][k]);
        }
      }
    }
  }

  /** Adding derivable tuples stays below every model. */
  lemma AddedBelowModel(m: KBModule, arities: seq<nat>, db0: DB, db: DB, model: DB, rule: KBRule, ts: seq<KBTuple>)
    requires ValidRule(m, rule, arities) && |db| == |arities| && SameExternals(m, db0, db) && rule in m.rules
    requires DBLeq(db, model) && IsModel(m, db0, model)
    requires forall t :: t in ts ==> Derivable(m, rule, db, t) && t.value != Incons
    ensures DBLeq(Added(db, rule.headRelId, ts), model)
  {
    var h := rule.headRelId;
    forall t | t in ts ensures Absorbs(model[h], t) {
      var refs :| DerivesFrom(m, rule, refs, db, t);
      var s :| SatBody(rule, refs, s) && HeadTuple(rule, refs, s) == t;
      WithinServesModel(m, rule, refs, db, model, arities, s);
      DerivedWhereServed(rule, refs, RefsOf(rule.body, model), s);
      var i :| 0 <= i < |m.rules| && m.rules[i] == rule;
      assert RuleClosed(m.rules[i], model);
    }
    InsertAllIsLeast(db[h], ts, model[h]);
  }

  lemma {:induction false} InsertAllFits(pool: Pool, ts: seq<KBTuple>, arity: nat, domain: set<nat>)
    requires forall k :: k in pool ==> TupleFits(k, arity, domain)
    requires forall t :: t in ts ==> TupleFits(t.terms, arity, domain) && t.value != Unknown
    requires NoUnknown(pool)
    ensures forall k :: k in InsertAll(pool, ts) ==> TupleFits(k, arity, domain)
    ensures NoUnknown(InsertAll(pool, ts))
  {
    if ts != [] {
      var l, t := ts[..|ts| - 1], ts[|ts| - 1];
      assert forall x :: x in l ==> x in ts;
      assert t in ts;
      InsertAllFits(pool, l, arity, domain);
    }
  }

  lemma AddedFits(m: KBModule, arities: seq<nat>, domain: set<nat>, db: DB, h: nat, ts: seq<KBTuple>)
    requires DBFits(db, arities, domain) && h < |db| && h in m.relationIds
    requires forall r :: r in m.relationIds && r < |db| ==> NoUnknown(db[r])
    requires forall t :: t in ts ==> TupleFits(t.terms, arities[h], domain) && t.value != Unknown
    ensures DBFits(Added(db, h, ts), arities, domain) && DBLeq(db, Added(db, h, ts))
    ensures SameExternals(m, db, Added(db, h, ts))
    ensures forall r :: r in m.relationIds && r < |db| ==> NoUnknown(Added(db, h, ts)[r])
  {
    hide TupleFits;
    InsertAllIsLeast(db[h], ts, db[h]);
    InsertAllFits(db[h], ts, arities[h], domain);
  }

  lemma ProducedOneMore(m: KBModule, db0: DB, a: DB, b: DB, i: nat, ts: seq<KBTuple>)
    requires Produced(m, db0, a) && StepTo(m, a, b, i, ts)
    ensures Produced(m, db0, b)
  {
    var n: nat :| ProducedIn(m, db0, a, n);
    assert ProducedIn(m, db0, b, n + 1);
  }

  /** Adding the results of a rule keeps the invariant. */
  lemma AddedKeepsInvariant(m: KBModule, arities: seq<nat>, domain: set<nat>, db0: DB, db: DB, rule: KBRule,
                            ts: seq<KBTuple>)
    requires ValidModule(m, arities) && rule in m.rules && DomainFor(m, domain)
    requires Invariant(m, arities, domain, db0, db)
    requires forall t :: t in ts ==> Derivable(m, rule, db, t) && t.value != Incons
    ensures Invariant(m, arities, domain, db0, Added(db, rule.headRelId, ts))
    ensures DBLeq(db, Added(db, rule.headRelId, ts))
  {
    var i :| 0 <= i < |m.rules| && m.rules[i] == rule;
    assert ValidRule(m, rule, arities);
    forall t | t in ts ensures TupleFits(t.terms, arities[rule.headRelId], domain) && t.value != Unknown {
      DerivedFits(m, rule, db, t, arities, domain);
    }
    hide ValidRule, IsModel, Derivable, TupleFits, NoUnknown, PoolLeq;
    assert StepTo(m, db, Added(db, rule.headRelId, ts), i, ts);
    ProducedOneMore(m, db0, db, Added(db, rule.headRelId, ts), i, ts);
    AddedFits(m, arities, domain, db, rule.headRelId, ts);
    DBLeqTransitive(db0, db, Added(db, rule.headRelId, ts));
    forall model | IsModel(m, db0, model) ensures DBLeq(Added(db, rule.headRelId, ts), model) {
      AddedBelowModel(m, arities, db0, db, model, rule, ts);
    }
  }

  // ---------------------------------------------------------------- counting and termination

  ghost function FactsNumber(db: DB, ids: seq<nat>): nat {
    if ids == [] then 0 else FactsNumber(db, ids[..|ids| - 1]) + |PoolOf(db, ids[|ids| - 1])|
  }

  ghost function InconsFactsNumber(db: DB, ids: seq<nat>): nat {
    if ids == [] then 0 else InconsFactsNumber(db, ids[..|ids| - 1]) + |InconsKeys(PoolOf(db, ids[|ids| - 1]))|
  }

  lemma SubsetSize<T>(a: set<T>, b: set<T>)
    requires a <= b
    ensures |a| <= |b| && (|a| == |b| ==> a == b)
  {
    assert b == a + (b - a);
  }

  /** What p does not know, q does not know either. */
  ghost predicate KeepsUnknown(p: Pool, q: Pool) {
    forall k :: k in p && p[k] == Unknown ==> k in q && q[k] == Unknown
  }

  lemma PoolCounts(p: Pool, q: Pool)
    requires PoolLeq(p, q)
    ensures |p| <= |q| && |InconsKeys(p)| <= |InconsKeys(q)|
    ensures |p| == |q| && |InconsKeys(p)| == |InconsKeys(q)| ==> (p == q <==> KeepsUnknown(p, q))
  {
    SubsetSize(p.Keys, q.Keys);
    SubsetSize(InconsKeys(p), InconsKeys(q));
    if KeepsUnknown(p, q) && |p| == |q| && |InconsKeys(p)| == |InconsKeys(q)| {
      forall k | k in p ensures p[k] == q[k] {
        assert q[k] == Incons ==> k in InconsKeys(q);
      }
    }
  }

  /** When knowledge grows and both counters stand still, nothing has changed exactly when no unknown
      tuple became known. */
  lemma {:induction false} CountersTell(a: DB, b: DB, ids: seq<nat>)
    requires DBLeq(a, b)
    ensures FactsNumber(a, ids) <= FactsNumber(b, ids) && InconsFactsNumber(a, ids) <= InconsFactsNumber(b, ids)
    ensures FactsNumber(a, ids) == FactsNumber(b, ids) && InconsFactsNumber(a, ids) == InconsFactsNumber(b, ids) ==>
              ((forall r :: r in ids && r < |a| ==> a[r] == b[r])
               <==> forall r :: r in ids && r < |a| ==> KeepsUnknown(a[r], b[r]))
  {
    hide KeepsUnknown, PoolLeq, InconsKeys;
    if ids != [] {
      var l, r := ids[..|ids| - 1], ids[|ids| - 1];
      assert ids == l + [r];
      CountersTell(a, b, l);
      if r < |a| {
        PoolCounts(a[r], b[r]);
      }
    }
  }

  /** All tuples of a given length over the domain. */
  ghost function Tuples(domain: set<nat>, n: nat): set<seq<nat>> {
    if n == 0 then {[]} else set k, v | k in Tuples(domain, n - 1) && v in domain :: k + [v]
  }

  lemma {:induction false} TuplesComplete(domain: set<nat>, k: seq<nat>)
    requires forall j :: 0 <= j < |k| ==> k[j] in domain
    ensures k in Tuples(domain, |k|)
  {
    if k != [] {
      var l := k[..|k| - 1];
      TuplesComplete(domain, l);
      assert k == l + [k[|k| - 1]];
    }
  }

  ghost function Bound(arities: seq<nat>, domain: set<nat>, ids: seq<nat>): nat {
    if ids == [] then 0
    else
      var r := ids[|ids| - 1];
      Bound(arities, domain, ids[..|ids| - 1]) + if r < |arities| then 2 * |Tuples(domain, arities[r])| else 0
  }

  /** The active domain bounds the facts that an evaluation can produce. */
  lemma {:induction false} CountersBounded(db: DB, arities: seq<nat>, domain: set<nat>, ids: seq<nat>)
    requires DBFits(db, arities, domain)
    ensures FactsNumber(db, ids) + InconsFactsNumber(db, ids) <= Bound(arities, domain, ids)
  {
    if ids != [] {
      var r := ids[|ids| - 1];
      CountersBounded(db, arities, domain, ids[..|ids| - 1]);
      if r < |db| {
        forall k | k in db[r] ensures k in Tuples(domain, arities[r]) {
          assert TupleFits(k, arities[r], domain);
          TuplesComplete(domain, k);
        }
        SubsetSize(db[r].Keys, Tuples(domain, arities[r]));
        SubsetSize(InconsKeys(db[r]), Tuples(domain, arities[r]));
      } else {
        assert InconsKeys(map[]) == {};
      }
    }
  }
}
