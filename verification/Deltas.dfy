/** What the deltas of the semi-naive evaluation mean, and why rounds on deltas miss nothing, whether or not
    some tuple becomes inconsistent. */
module Deltas {
  import opened TruthValues
  import opened KBLiterals
  import opened KBRelations
  import opened RuleSemantics
  import opened Fixpoints
  import opened Runs

  // ---------------------------------------------------------------- recorded deltas

  ghost function DeltaOf(deltas: map<nat, FactsPool>, r: nat): Pool {
    if r in deltas && deltas[r].Valid() then deltas[r].Contents() else map[]
  }

  /** Every relation of the module has a delta. */
  ghost predicate DeltasFor(m: KBModule, deltas: map<nat, FactsPool>) {
    forall r :: r in m.relationIds ==> r in deltas && deltas[r].Valid()
  }

  /** The deltas are the changes between start and db. */
  ghost predicate Tracked(m: KBModule, start: DB, db: DB, deltas: map<nat, FactsPool>) {
    |start| == |db| && forall r :: r in m.relationIds && r < |db| ==> DeltaOf(deltas, r) == Diff(start[r], db[r])
  }

  /** The result of inserting one tuple, as AddResultsToRelation records it. */
  ghost function Recorded(q: Pool, d: Pool, t: KBTuple): Pool {
    if t.terms in q ==> q[t.terms] != Incons && Insert(q, t)[t.terms] == Incons
    then d[t.terms := Insert(q, t)[t.terms]] else d
  }

  /** One insertion keeps the delta exact, values included. */
  lemma RecordedTracks(p: Pool, q: Pool, t: KBTuple)
    requires PoolLeq(p, q) && NoUnknown(q) && NoUnknown(p) && t.value != Incons && t.value != Unknown
    ensures Recorded(q, Diff(p, q), t) == Diff(p, Insert(q, t))
    ensures PoolLeq(p, Insert(q, t)) && NoUnknown(Insert(q, t))
  {
    var q', k := Insert(q, t), t.terms;
    if k in q && !(q[k] != Incons && q'[k] == Incons) {
      assert q'[k] == q[k];
      assert q' == q;
    } else {
      forall x | x in q' && x != k ensures x in q && q'[x] == q[x] {
      }
      assert !Unchanged(p, q', k);
    }
  }

  /** An empty delta: nothing changed. */
  lemma EmptyDelta(p: Pool, q: Pool)
    requires PoolLeq(p, q)
    ensures Diff(p, q) == map[] <==> p == q
  {
    if Diff(p, q) == map[] {
      forall k | k in q ensures k in p && p[k] == q[k] {
        assert Unchanged(p, q, k) <==> k !in Diff(p, q);
      }
    }
  }

  // ---------------------------------------------------------------- instances over facts that stay

  /** The fact of the literal, if rules can change it at all, is the same in prev and db. */
  ghost predicate OldFact(m: KBModule, l: KBRuleLiteral, prev: DB, db: DB, s: Subst) {
    IsIdb(m, l.relId) ==> Unchanged(PoolOf(prev, l.relId), PoolOf(db, l.relId), Instance(l.lit.terms, s))
  }

  ghost predicate AllOld(m: KBModule, rule: KBRule, prev: DB, db: DB, s: Subst) {
    forall j :: 0 <= j < |rule.body| ==> OldFact(m, rule.body[j], prev, db, s)
  }

  /** Facts that are the same in a and b are the same in between. */
  lemma StillServes(m: KBModule, arities: seq<nat>, rule: KBRule, j: nat, a: DB, c: DB, b: DB, s: Subst)
    requires ValidModule(m, arities) && ValidRule(m, rule, arities) && j < |rule.body|
    requires Grows(m, a, c) && Grows(m, c, b) && OldFact(m, rule.body[j], a, b, s)
    ensures Serves(rule.body[j], PoolOf(a, rule.body[j].relId), PoolOf(c, rule.body[j].relId), s)
    ensures Serves(rule.body[j], PoolOf(c, rule.body[j].relId), PoolOf(a, rule.body[j].relId), s)
  {
    var r, k := rule.body[j].relId, Instance(rule.body[j].lit.terms, s);
    assert r < |a| ==> PoolLeq(a[r], c[r]) && PoolLeq(c[r], b[r]);
    if IsIdb(m, r) {
      IdbLiteralSafe(m, arities, rule, j);
    }
  }

  /** An instance over facts of a that are the same in b is an instance over everything in between. */
  lemma StillInstance(m: KBModule, arities: seq<nat>, rule: KBRule, a: DB, c: DB, b: DB, s: Subst)
    requires ValidModule(m, arities) && ValidRule(m, rule, arities) && Grows(m, a, c) && Grows(m, c, b)
    requires rule.body != [] && SatBody(rule, RefsOf(rule.body, a), s) && AllOld(m, rule, a, b, s)
    ensures Derives(rule, RefsOf(rule.body, c), HeadTuple(rule, RefsOf(rule.body, a), s))
  {
    hide SatBody, Serves, Grows, OldFact, ValidRule, ValidModule;
    var refs, refs' := RefsOf(rule.body, a), RefsOf(rule.body, c);
    forall i | 0 <= i < |rule.body| ensures Serves(rule.body[i], refs[i], refs'[i], s) {
      StillServes(m, arities, rule, i, a, c, b, s);
    }
    DerivedWhereServed(rule, refs, refs', s);
  }

  /** An instance over facts that did not change since prev is an instance over prev. */
  lemma OldInstance(m: KBModule, arities: seq<nat>, rule: KBRule, prev: DB, db: DB, s: Subst)
    requires ValidModule(m, arities) && ValidRule(m, rule, arities) && Grows(m, prev, db)
    requires rule.body != [] && SatBody(rule, RefsOf(rule.body, db), s) && AllOld(m, rule, prev, db, s)
    ensures SatBody(rule, RefsOf(rule.body, prev), s)
    ensures HeadTuple(rule, RefsOf(rule.body, prev), s) == HeadTuple(rule, RefsOf(rule.body, db), s)
  {
    hide SatBody, Serves, OldFact, ValidRule, ValidModule;
    var refs, refs' := RefsOf(rule.body, db), RefsOf(rule.body, prev);
    assert Grows(m, db, db);
    forall i | 0 <= i < |rule.body| ensures Serves(rule.body[i], refs[i], refs'[i], s) {
      StillServes(m, arities, rule, i, prev, db, db, s);
    }
    DerivedWhereServed(rule, refs, refs', s);
  }

  /** A changed fact of a satisfied literal is in the delta, with its value. */
  lemma ChangedFact(m: KBModule, arities: seq<nat>, rule: KBRule, prev: DB, start: DB, s: Subst, j: nat)
    requires ValidModule(m, arities) && ValidRule(m, rule, arities) && j < |rule.body|
    requires !OldFact(m, rule.body[j], prev, start, s)
    requires SatLiteral(rule.body[j], PoolOf(start, rule.body[j].relId), s)
    ensures var r := rule.body[j].relId;
            Serves(rule.body[j], PoolOf(start, r), Diff(PoolOf(prev, r), PoolOf(start, r)), s)
  {
    IdbLiteralSafe(m, arities, rule, j);
  }

  /** An instance over start that stays, and that has a changed fact at literal j, is found when the changes
      stand in for literal j. */
  lemma NewInstance(m: KBModule, arities: seq<nat>, rule: KBRule, prev: DB, start: DB, c: DB, b: DB, s: Subst, j: nat)
    requires ValidModule(m, arities) && ValidRule(m, rule, arities) && Grows(m, start, c) && Grows(m, c, b)
    requires rule.body != [] && SatBody(rule, RefsOf(rule.body, start), s) && AllOld(m, rule, start, b, s)
    requires j < |rule.body| && !OldFact(m, rule.body[j], prev, start, s)
    ensures DerivesAt(m, rule, prev, start, c, HeadTuple(rule, RefsOf(rule.body, start), s), j)
  {
    hide Serves, Grows, ValidRule, ValidModule, SatLiteral, Derives;
    var refs, refs' := RefsOf(rule.body, start), DeltaRefs(rule.body, prev, start, c, j);
    assert SatLiteral(rule.body[j], refs[j], s);
    ChangedFact(m, arities, rule, prev, start, s, j);
    forall i | 0 <= i < |rule.body| ensures Serves(rule.body[i], refs[i], refs'[i], s) {
      if i != j {
        StillServes(m, arities, rule, i, start, c, b, s);
      }
    }
    DerivedWhereServed(rule, refs, refs', s);
  }

  // ---------------------------------------------------------------- coverage

  /** The head of every consistent instance over prev whose facts stay the same until db is stored in db. */
  ghost predicate Covered(m: KBModule, rule: KBRule, prev: DB, db: DB) {
    && rule.body != []
    && forall s :: SatBody(rule, RefsOf(rule.body, prev), s) && AllOld(m, rule, prev, db, s)
                   && HeadTuple(rule, RefsOf(rule.body, prev), s).value != Incons
         ==> Absorbs(PoolOf(db, rule.headRelId), HeadTuple(rule, RefsOf(rule.body, prev), s))
  }

  ghost predicate CoveredUpTo(m: KBModule, n: nat, prev: DB, db: DB) {
    forall i :: 0 <= i < n && i < |m.rules| ==> Covered(m, m.rules[i], prev, db)
  }

  lemma OldBefore(m: KBModule, l: KBRuleLiteral, prev: DB, db: DB, db': DB, s: Subst)
    requires Grows(m, prev, db) && Grows(m, db, db') && OldFact(m, l, prev, db', s)
    ensures OldFact(m, l, prev, db, s)
  {
    assert l.relId < |db| ==> PoolLeq(prev[l.relId], db[l.relId]) && PoolLeq(db[l.relId], db'[l.relId]);
  }

  lemma AbsorbedStays(a: DB, b: DB, h: nat, t: KBTuple)
    requires DBLeq(a, b) && Absorbs(PoolOf(a, h), t)
    ensures Absorbs(PoolOf(b, h), t)
  {
  }

  lemma GrowsIsLeq(m: KBModule, a: DB, b: DB)
    requires Grows(m, a, b)
    ensures DBLeq(a, b)
  {
  }

  /** What is covered stays covered. */
  lemma CoveredGrows(m: KBModule, rule: KBRule, prev: DB, db: DB, db': DB)
    requires Covered(m, rule, prev, db) && Grows(m, prev, db) && Grows(m, db, db')
    ensures Covered(m, rule, prev, db')
  {
    hide OldFact, SatBody, Absorbs, Grows;
    var refs := RefsOf(rule.body, prev);
    forall s | SatBody(rule, refs, s) && AllOld(m, rule, prev, db', s) && HeadTuple(rule, refs, s).value != Incons
      ensures Absorbs(PoolOf(db', rule.headRelId), HeadTuple(rule, refs, s))
    {
      forall j | 0 <= j < |rule.body| ensures OldFact(m, rule.body[j], prev, db, s) {
        OldBefore(m, rule.body[j], prev, db, db', s);
      }
      assert DBLeq(db, db') by { GrowsIsLeq(m, db, db'); }
      AbsorbedStays(db, db', rule.headRelId, HeadTuple(rule, refs, s));
    }
  }

  /** A step of the first round covers its rule. */
  lemma NaiveStepCovers(m: KBModule, arities: seq<nat>, rule: KBRule, a: DB, c: DB, b: DB)
    requires ValidModule(m, arities) && ValidRule(m, rule, arities)
    requires Grows(m, a, c) && NaiveStep(rule, c, b) && Grows(m, c, b)
    ensures Covered(m, rule, a, b)
  {
    hide SatBody, AllOld, Grows, ValidRule, ValidModule, Absorbs, PoolLeq, Derives;
    var refs := RefsOf(rule.body, a);
    forall s | SatBody(rule, refs, s) && AllOld(m, rule, a, b, s) && HeadTuple(rule, refs, s).value != Incons
      ensures Absorbs(PoolOf(b, rule.headRelId), HeadTuple(rule, refs, s))
    {
      StillInstance(m, arities, rule, a, c, b, s);
      assert HeadTuple(rule, refs, s) in NaiveTuples(rule, c);
    }
  }

  /** A step on the changes since prev covers its rule, if that was covered over prev. */
  lemma DeltaStepCovers(m: KBModule, arities: seq<nat>, rule: KBRule, prev: DB, start: DB, c: DB, b: DB)
    requires ValidModule(m, arities) && ValidRule(m, rule, arities)
    requires Covered(m, rule, prev, start) && Grows(m, prev, start) && Grows(m, start, c) && Grows(m, c, b)
    requires DeltaStep(m, rule, prev, start, c, b)
    ensures Covered(m, rule, start, b)
  {
    hide SatBody, OldFact, Grows, ValidRule, ValidModule, Absorbs, PoolLeq, DerivesAt;
    var refs := RefsOf(rule.body, start);
    forall s | SatBody(rule, refs, s) && AllOld(m, rule, start, b, s) && HeadTuple(rule, refs, s).value != Incons
      ensures Absorbs(PoolOf(b, rule.headRelId), HeadTuple(rule, refs, s))
    {
      if j :| 0 <= j < |rule.body| && !OldFact(m, rule.body[j], prev, start, s) {
        NewInstance(m, arities, rule, prev, start, c, b, s, j);
        assert HeadTuple(rule, refs, s) in DeltaTuples(m, rule, prev, start, c);
      } else {
        OldInstance(m, arities, rule, prev, start, s);
        GrowsTransitive(m, start, c, b);
        GrowsIsLeq(m, start, b);
        AbsorbedStays(start, b, rule.headRelId, HeadTuple(rule, refs, s));
      }
    }
  }

  lemma CoveredOneMore(m: KBModule, n: nat, prev: DB, c: DB, b: DB)
    requires n < |m.rules| && CoveredUpTo(m, n, prev, c) && Grows(m, prev, c) && Grows(m, c, b)
    requires Covered(m, m.rules[n], prev, b)
    ensures CoveredUpTo(m, n + 1, prev, b)
  {
    hide Covered, Grows;
    forall i | 0 <= i < n + 1 ensures Covered(m, m.rules[i], prev, b) {
      if i < n {
        CoveredGrows(m, m.rules[i], prev, c, b);
      }
    }
  }

  /** The first round covers the facts it started from. */
  lemma {:induction false} FirstRoundCovers(m: KBModule, arities: seq<nat>, n: nat, a: DB, b: DB)
    requires ValidModule(m, arities) && n <= |m.rules| && NaiveRound(m, n, a, b)
    ensures CoveredUpTo(m, n, a, b) && Grows(m, a, b)
    decreases n
  {
    hide Covered, Grows, ValidRule;
    NaiveRoundGrows(m, n, a, b);
    if n > 0 {
      var rule := m.rules[n - 1];
      var c :| NaiveRound(m, n - 1, a, c) && NaiveStep(rule, c, b);
      FirstRoundCovers(m, arities, n - 1, a, c);
      StepGrowsHead(m, n - 1, c, b, NaiveTuples(rule, c));
      assert ValidRule(m, rule, arities);
      NaiveStepCovers(m, arities, rule, a, c, b);
      CoveredOneMore(m, n - 1, a, c, b);
    }
  }

  /** A round on the changes since prev covers start, if start covers prev. */
  lemma {:induction false} RoundCovers(m: KBModule, arities: seq<nat>, n: nat, prev: DB, start: DB, b: DB)
    requires ValidModule(m, arities) && n <= |m.rules| && DeltaRound(m, n, prev, start, b)
    requires CoveredUpTo(m, |m.rules|, prev, start) && Grows(m, prev, start)
    ensures CoveredUpTo(m, n, start, b) && Grows(m, start, b)
    decreases n
  {
    hide Covered, Grows, ValidRule;
    DeltaRoundGrows(m, n, prev, start, b);
    if n > 0 {
      var rule := m.rules[n - 1];
      var c :| DeltaRound(m, n - 1, prev, start, c) && DeltaStep(m, rule, prev, start, c, b);
      RoundCovers(m, arities, n - 1, prev, start, c);
      StepGrowsHead(m, n - 1, c, b, DeltaTuples(m, rule, prev, start, c));
      assert ValidRule(m, rule, arities);
      DeltaStepCovers(m, arities, rule, prev, start, c, b);
      CoveredOneMore(m, n - 1, start, c, b);
    }
  }

  /** After any number of rounds, what the last round started from is covered. */
  lemma {:induction false} RunCovers(m: KBModule, arities: seq<nat>, db0: DB, prev: DB, db: DB, n: nat)
    requires ValidModule(m, arities) && SemiNaiveRun(m, db0, prev, db, n)
    ensures CoveredUpTo(m, |m.rules|, prev, db) && Grows(m, prev, db)
    decreases n
  {
    hide CoveredUpTo, Grows, ValidModule;
    if n == 0 {
      FirstRoundCovers(m, arities, |m.rules|, db0, db);
    } else {
      var p :| SemiNaiveRun(m, db0, p, prev, n - 1) && DeltaRound(m, |m.rules|, p, prev, db);
      RunCovers(m, arities, db0, p, prev, n - 1);
      RoundCovers(m, arities, |m.rules|, p, prev, db);
    }
  }

  /** Over a database in which no used fact can change any more, covered means closed. */
  lemma CoveredIsClosed(m: KBModule, arities: seq<nat>, rule: KBRule, db: DB)
    requires ValidModule(m, arities) && ValidRule(m, rule, arities) && Covered(m, rule, db, db)
    ensures RuleClosed(rule, db)
  {
    hide ValidModule, ValidRule;
    var refs := RefsOf(rule.body, db);
    forall t | Derives(rule, refs, t) && t.value != Incons ensures Absorbs(PoolOf(db, rule.headRelId), t) {
      var s :| SatBody(rule, refs, s) && HeadTuple(rule, refs, s) == t;
      forall j | 0 <= j < |rule.body| ensures OldFact(m, rule.body[j], db, db, s) {
        if IsIdb(m, rule.body[j].relId) {
          IdbLiteralSafe(m, arities, rule, j);
          assert SatLiteral(rule.body[j], refs[j], s);
        }
      }
    }
  }

  /** When a round changes nothing the result is closed, whether or not it is consistent. */
  lemma SemiNaiveResultIsClosed(m: KBModule, arities: seq<nat>, db0: DB, db: DB)
    requires ValidModule(m, arities) && SemiNaiveResult(m, db0, db)
    ensures Closed(m, db)
  {
    hide Covered, RuleClosed, Grows, ValidRule;
    var n: nat :| SemiNaiveRun(m, db0, db, db, n);
    RunCovers(m, arities, db0, db, db, n);
    forall i | 0 <= i < |m.rules| ensures RuleClosed(m.rules[i], db) {
      assert ValidRule(m, m.rules[i], arities);
      CoveredIsClosed(m, arities, m.rules[i], db);
    }
  }
}
