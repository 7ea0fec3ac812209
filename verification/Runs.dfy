/** The course of the two evaluations, without pipelines, deltas or counters: which database each step must
    lead to. A step adds the consistent tuples that a rule derives; what they amount to is said by the
    knowledge order alone. */
module Runs {
  import opened TruthValues
  import opened KBLiterals
  import opened KBRelations
  import opened RuleSemantics
  import opened Fixpoints

  // ---------------------------------------------------------------- adding tuples

  /** q is the least pool above p that absorbs the tuples. */
  ghost predicate LeastWith(p: Pool, q: Pool, tuples: iset<KBTuple>) {
    && PoolLeq(p, q) && (forall t :: t in tuples ==> Absorbs(q, t))
    && forall u :: PoolLeq(p, u) && (forall t :: t in tuples ==> Absorbs(u, t)) ==> PoolLeq(q, u)
  }

  /** b is a with the tuples added to relation h. */
  ghost predicate AddsLeast(a: DB, b: DB, h: nat, tuples: iset<KBTuple>) {
    h < |a| == |b| && b == a[h := b[h]] && LeastWith(a[h], b[h], tuples)
  }

  lemma AddsLeastUnique(a: DB, b: DB, c: DB, h: nat, tuples: iset<KBTuple>)
    requires AddsLeast(a, b, h, tuples) && AddsLeast(a, c, h, tuples)
    ensures b == c
  {
    PoolLeqAntisymmetric(b[h], c[h]);
  }

  /** Inserting the tuples one after the other is adding them. */
  lemma AddedIsLeast(a: DB, h: nat, ts: seq<KBTuple>, tuples: iset<KBTuple>)
    requires h < |a| && forall t :: t in ts <==> t in tuples
    ensures AddsLeast(a, Added(a, h, ts), h, tuples)
  {
    forall u
      ensures PoolLeq(a[h], u) && (forall t :: t in tuples ==> Absorbs(u, t)) ==> PoolLeq(InsertAll(a[h], ts), u)
    {
      InsertAllIsLeast(a[h], ts, u);
    }
    InsertAllIsLeast(a[h], ts, a[h]);
  }

  lemma AddsLeastGrows(a: DB, b: DB, h: nat, tuples: iset<KBTuple>)
    requires AddsLeast(a, b, h, tuples)
    ensures DBLeq(a, b) && forall r :: 0 <= r < |a| && r != h ==> a[r] == b[r]
  {
  }

  /** Nothing new: nothing changes. */
  lemma AddsNothing(a: DB, b: DB, h: nat, tuples: iset<KBTuple>)
    requires AddsLeast(a, b, h, tuples) && forall t :: t in tuples ==> Absorbs(a[h], t)
    ensures b == a
  {
    assert PoolLeq(a[h], a[h]);
    PoolLeqAntisymmetric(a[h], b[h]);
  }

  // ---------------------------------------------------------------- the naive evaluation

  /** What a rule gives on the facts of a: its consistent tuples. */
  ghost function NaiveTuples(rule: KBRule, a: DB): iset<KBTuple>
    requires rule.body != []
  {
    iset t: KBTuple | Derives(rule, RefsOf(rule.body, a), t) && t.value != Incons
  }

  ghost predicate NaiveStep(rule: KBRule, a: DB, b: DB) {
    rule.body != [] && AddsLeast(a, b, rule.headRelId, NaiveTuples(rule, a))
  }

  /** The first n rules, one after the other, lead from a to b. */
  ghost predicate NaiveRound(m: KBModule, n: nat, a: DB, b: DB)
    requires n <= |m.rules|
    decreases n
  {
    if n == 0 then a == b
    else
      var rule := m.rules[n - 1];
      exists c :: NaiveRound(m, n - 1, a, c) && NaiveStep(rule, c, b)
  }

  /** n rounds lead from db0 to db. */
  ghost predicate NaiveRun(m: KBModule, db0: DB, db: DB, n: nat)
    decreases n
  {
    if n == 0 then db == db0 else exists c :: NaiveRun(m, db0, c, n - 1) && NaiveRound(m, |m.rules|, c, db)
  }

  /** Rounds lead to db, and a further round changes nothing. */
  ghost predicate NaiveResult(m: KBModule, db0: DB, db: DB) {
    (exists n: nat :: NaiveRun(m, db0, db, n)) && NaiveRound(m, |m.rules|, db, db)
  }

  // ---------------------------------------------------------------- the semi-naive evaluation

  ghost predicate Unchanged(p: Pool, q: Pool, k: seq<nat>) {
    k in p && k in q && p[k] == q[k]
  }

  /** The facts of q that are new or changed since p. */
  ghost function Diff(p: Pool, q: Pool): Pool {
    map k | k in q && !Unchanged(p, q, k) :: q[k]
  }

  ghost predicate IsIdb(m: KBModule, r: nat) {
    exists i :: 0 <= i < |m.rules| && m.rules[i].headRelId == r
  }

  /** The facts of a, with what changed between prev and start in place of literal j. */
  ghost function DeltaRefs(body: seq<KBRuleLiteral>, prev: DB, start: DB, a: DB, j: nat): seq<Pool>
    requires j < |body|
  {
    RefsOf(body, a)[j := Diff(PoolOf(prev, body[j].relId), PoolOf(start, body[j].relId))]
  }

  ghost predicate DerivesAt(m: KBModule, rule: KBRule, prev: DB, start: DB, a: DB, t: KBTuple, j: nat) {
    && j < |rule.body| && IsIdb(m, rule.body[j].relId)
    && Derives(rule, DeltaRefs(rule.body, prev, start, a, j), t)
  }

  /** What a rule gives when the changes stand in for one literal after the other. */
  ghost function DeltaTuples(m: KBModule, rule: KBRule, prev: DB, start: DB, a: DB): iset<KBTuple> {
    iset t: KBTuple | t.value != Incons && exists j: nat :: DerivesAt(m, rule, prev, start, a, t, j)
  }

  ghost predicate DeltaStep(m: KBModule, rule: KBRule, prev: DB, start: DB, a: DB, b: DB) {
    AddsLeast(a, b, rule.headRelId, DeltaTuples(m, rule, prev, start, a))
  }

  /** The first n rules on the changes between prev and start lead from start to b. */
  ghost predicate DeltaRound(m: KBModule, n: nat, prev: DB, start: DB, b: DB)
    requires n <= |m.rules|
    decreases n
  {
    if n == 0 then start == b
    else
      var rule := m.rules[n - 1];
      exists c :: DeltaRound(m, n - 1, prev, start, c) && DeltaStep(m, rule, prev, start, c, b)
  }

  /** A round on all facts and n rounds on changes lead from db0 to db; prev is the database before the last one. */
  ghost predicate SemiNaiveRun(m: KBModule, db0: DB, prev: DB, db: DB, n: nat)
    decreases n
  {
    if n == 0 then prev == db0 && NaiveRound(m, |m.rules|, db0, db)
    else exists p :: SemiNaiveRun(m, db0, p, prev, n - 1) && DeltaRound(m, |m.rules|, p, prev, db)
  }

  /** The run has come to a round that changed nothing. */
  ghost predicate SemiNaiveResult(m: KBModule, db0: DB, db: DB) {
    exists n: nat :: SemiNaiveRun(m, db0, db, db, n)
  }

  lemma NoRules(m: KBModule, prev: DB, a: DB)
    ensures NaiveRound(m, 0, a, a) && DeltaRound(m, 0, prev, a, a)
  {
  }

  lemma NaiveRoundOneMore(m: KBModule, i: nat, a: DB, c: DB, b: DB)
    requires i < |m.rules| && NaiveRound(m, i, a, c) && NaiveStep(m.rules[i], c, b)
    ensures NaiveRound(m, i + 1, a, b)
  {
  }

  lemma NaiveRunStarts(m: KBModule, db: DB)
    ensures NaiveRun(m, db, db, 0)
  {
  }

  lemma NaiveRunEnds(m: KBModule, db0: DB, db: DB, n: nat)
    requires NaiveRun(m, db0, db, n) && NaiveRound(m, |m.rules|, db, db)
    ensures NaiveResult(m, db0, db)
  {
  }

  lemma NaiveRunOneMore(m: KBModule, db0: DB, c: DB, db: DB, n: nat)
    requires NaiveRun(m, db0, c, n) && NaiveRound(m, |m.rules|, c, db)
    ensures NaiveRun(m, db0, db, n + 1)
  {
  }

  lemma DeltaRoundOneMore(m: KBModule, i: nat, prev: DB, start: DB, c: DB, b: DB)
    requires i < |m.rules| && DeltaRound(m, i, prev, start, c) && DeltaStep(m, m.rules[i], prev, start, c, b)
    ensures DeltaRound(m, i + 1, prev, start, b)
  {
  }

  lemma SemiNaiveRunOneMore(m: KBModule, db0: DB, p: DB, prev: DB, db: DB, n: nat)
    requires SemiNaiveRun(m, db0, p, prev, n) && DeltaRound(m, |m.rules|, p, prev, db)
    ensures SemiNaiveRun(m, db0, prev, db, n + 1)
  {
  }

  lemma RunEnds(m: KBModule, db0: DB, db: DB, n: nat)
    requires SemiNaiveRun(m, db0, db, db, n)
    ensures SemiNaiveResult(m, db0, db)
  {
  }

  // ---------------------------------------------------------------- what a run changes

  /** Knowledge grows from a to b, in relations of rule heads only. */
  ghost predicate Grows(m: KBModule, a: DB, b: DB) {
    DBLeq(a, b) && forall r :: 0 <= r < |a| && !IsIdb(m, r) ==> a[r] == b[r]
  }

  lemma GrowsReflexive(m: KBModule, a: DB)
    ensures Grows(m, a, a)
  {
  }

  lemma GrowsTransitive(m: KBModule, a: DB, b: DB, c: DB)
    requires Grows(m, a, b) && Grows(m, b, c)
    ensures Grows(m, a, c)
  {
    DBLeqTransitive(a, b, c);
  }

  lemma StepGrowsHead(m: KBModule, i: nat, a: DB, b: DB, tuples: iset<KBTuple>)
    requires i < |m.rules| && AddsLeast(a, b, m.rules[i].headRelId, tuples)
    ensures Grows(m, a, b)
  {
    AddsLeastGrows(a, b, m.rules[i].headRelId, tuples);
  }

  lemma {:induction false} NaiveRoundGrows(m: KBModule, n: nat, a: DB, b: DB)
    requires n <= |m.rules| && NaiveRound(m, n, a, b)
    ensures Grows(m, a, b)
    decreases n
  {
    hide Grows, AddsLeast, NaiveTuples;
    if n > 0 {
      var rule := m.rules[n - 1];
      var c :| NaiveRound(m, n - 1, a, c) && NaiveStep(rule, c, b);
      NaiveRoundGrows(m, n - 1, a, c);
      StepGrowsHead(m, n - 1, c, b, NaiveTuples(rule, c));
      GrowsTransitive(m, a, c, b);
    } else {
      GrowsReflexive(m, a);
    }
  }

  lemma {:induction false} DeltaRoundGrows(m: KBModule, n: nat, prev: DB, start: DB, b: DB)
    requires n <= |m.rules| && DeltaRound(m, n, prev, start, b)
    ensures Grows(m, start, b)
    decreases n
  {
    hide Grows, AddsLeast, DeltaTuples;
    if n > 0 {
      var rule := m.rules[n - 1];
      var c :| DeltaRound(m, n - 1, prev, start, c) && DeltaStep(m, rule, prev, start, c, b);
      DeltaRoundGrows(m, n - 1, prev, start, c);
      StepGrowsHead(m, n - 1, c, b, DeltaTuples(m, rule, prev, start, c));
      GrowsTransitive(m, start, c, b);
    } else {
      GrowsReflexive(m, start);
    }
  }

  // ---------------------------------------------------------------- the results are determined

  lemma {:induction false} NaiveRoundUnique(m: KBModule, n: nat, a: DB, b: DB, b': DB)
    requires n <= |m.rules| && NaiveRound(m, n, a, b) && NaiveRound(m, n, a, b')
    ensures b == b'
    decreases n
  {
    if n > 0 {
      var rule := m.rules[n - 1];
      var c :| NaiveRound(m, n - 1, a, c) && NaiveStep(rule, c, b);
      var c' :| NaiveRound(m, n - 1, a, c') && NaiveStep(rule, c', b');
      NaiveRoundUnique(m, n - 1, a, c, c');
      AddsLeastUnique(c, b, b', rule.headRelId, NaiveTuples(rule, c));
    }
  }

  lemma {:induction false} NaiveRunUnique(m: KBModule, db0: DB, a: DB, b: DB, n: nat)
    requires NaiveRun(m, db0, a, n) && NaiveRun(m, db0, b, n)
    ensures a == b
    decreases n
  {
    if n > 0 {
      var c :| NaiveRun(m, db0, c, n - 1) && NaiveRound(m, |m.rules|, c, a);
      var d :| NaiveRun(m, db0, d, n - 1) && NaiveRound(m, |m.rules|, d, b);
      NaiveRunUnique(m, db0, c, d, n - 1);
      NaiveRoundUnique(m, |m.rules|, c, a, b);
    }
  }

  /** Once a round changes nothing, the run stays where it is. */
  lemma {:induction false} NaiveRunStays(m: KBModule, db0: DB, db: DB, n: nat, db': DB, n': nat)
    requires NaiveRun(m, db0, db, n) && NaiveRound(m, |m.rules|, db, db) && NaiveRun(m, db0, db', n') && n <= n'
    ensures db' == db
    decreases n'
  {
    if n' > 0 {
      var c' :| NaiveRun(m, db0, c', n' - 1) && NaiveRound(m, |m.rules|, c', db');
      if n == n' {
        var c :| NaiveRun(m, db0, c, n - 1) && NaiveRound(m, |m.rules|, c, db);
        NaiveRunUnique(m, db0, c, c', n - 1);
        NaiveRoundUnique(m, |m.rules|, c, db, db');
      } else {
        NaiveRunStays(m, db0, db, n, c', n' - 1);
        NaiveRoundUnique(m, |m.rules|, db, db, db');
      }
    }
  }

  /** There is at most one result of the naive evaluation, consistent or not. */
  lemma NaiveResultUnique(m: KBModule, db0: DB, a: DB, b: DB)
    requires NaiveResult(m, db0, a) && NaiveResult(m, db0, b)
    ensures a == b
  {
    var n: nat :| NaiveRun(m, db0, a, n);
    var k: nat :| NaiveRun(m, db0, b, k);
    if n <= k {
      NaiveRunStays(m, db0, a, n, b, k);
    } else {
      NaiveRunStays(m, db0, b, k, a, n);
    }
  }

  lemma {:induction false} DeltaRoundUnique(m: KBModule, n: nat, prev: DB, start: DB, b: DB, b': DB)
    requires n <= |m.rules| && DeltaRound(m, n, prev, start, b) && DeltaRound(m, n, prev, start, b')
    ensures b == b'
    decreases n
  {
    if n > 0 {
      var rule := m.rules[n - 1];
      var c :| DeltaRound(m, n - 1, prev, start, c) && DeltaStep(m, rule, prev, start, c, b);
      var c' :| DeltaRound(m, n - 1, prev, start, c') && DeltaStep(m, rule, prev, start, c', b');
      DeltaRoundUnique(m, n - 1, prev, start, c, c');
      AddsLeastUnique(c, b, b', rule.headRelId, DeltaTuples(m, rule, prev, start, c));
    }
  }

  lemma {:induction false} SemiNaiveRunUnique(m: KBModule, db0: DB, p: DB, a: DB, q: DB, b: DB, n: nat)
    requires SemiNaiveRun(m, db0, p, a, n) && SemiNaiveRun(m, db0, q, b, n)
    ensures p == q && a == b
    decreases n
  {
    if n == 0 {
      NaiveRoundUnique(m, |m.rules|, db0, a, b);
    } else {
      var p' :| SemiNaiveRun(m, db0, p', p, n - 1) && DeltaRound(m, |m.rules|, p', p, a);
      var q' :| SemiNaiveRun(m, db0, q', q, n - 1) && DeltaRound(m, |m.rules|, q', q, b);
      SemiNaiveRunUnique(m, db0, p', p, q', q, n - 1);
      DeltaRoundUnique(m, |m.rules|, p', p, a, b);
    }
  }

  /** A safe literal takes its fact from its pool. */
  lemma SafeLiteralPicks(rule: KBRule, refs: seq<Pool>, t: KBTuple, j: nat)
    requires rule.body != [] && |refs| == |rule.body| && Derives(rule, refs, t)
    requires j < |rule.body| && !rule.body[j].IsUnsafe()
    ensures refs[j] != map[]
  {
    var s :| SatBody(rule, refs, s) && HeadTuple(rule, refs, s) == t;
    assert SatLiteral(rule.body[j], refs[j], s);
    assert Instance(rule.body[j].lit.terms, s) in refs[j];
  }

  lemma IdbLiteralSafe(m: KBModule, arities: seq<nat>, rule: KBRule, j: nat)
    requires ValidModule(m, arities) && ValidRule(m, rule, arities) && j < |rule.body| && IsIdb(m, rule.body[j].relId)
    ensures rule.body[j].relId in m.relationIds && !rule.body[j].IsUnsafe()
  {
    var i :| 0 <= i < |m.rules| && m.rules[i].headRelId == rule.body[j].relId;
    assert ValidRule(m, m.rules[i], arities) && ValidLiteral(m, rule.body[j], arities);
  }

  /** What is derived from changes needs a change. */
  lemma DerivesFromChange(m: KBModule, arities: seq<nat>, rule: KBRule, prev: DB, start: DB, a: DB, t: KBTuple, j: nat)
    requires ValidModule(m, arities) && ValidRule(m, rule, arities)
    ensures DerivesAt(m, rule, prev, start, a, t, j) ==>
      PoolOf(prev, rule.body[j].relId) != PoolOf(start, rule.body[j].relId)
  {
    if DerivesAt(m, rule, prev, start, a, t, j) {
      IdbLiteralSafe(m, arities, rule, j);
      SafeLiteralPicks(rule, DeltaRefs(rule.body, prev, start, a, j), t, j);
      var r := rule.body[j].relId;
      var k :| k in Diff(PoolOf(prev, r), PoolOf(start, r));
      assert !Unchanged(PoolOf(prev, r), PoolOf(start, r), k);
    }
  }

  /** A round on no changes changes nothing. */
  lemma {:induction false} DeltaRoundOfNothing(m: KBModule, arities: seq<nat>, n: nat, db: DB, b: DB)
    requires ValidModule(m, arities) && n <= |m.rules| && DeltaRound(m, n, db, db, b)
    ensures b == db
    decreases n
  {
    if n > 0 {
      var rule := m.rules[n - 1];
      var c :| DeltaRound(m, n - 1, db, db, c) && DeltaStep(m, rule, db, db, c, b);
      DeltaRoundOfNothing(m, arities, n - 1, db, c);
      assert ValidRule(m, rule, arities);
      forall t, j: nat ensures !DerivesAt(m, rule, db, db, c, t, j) {
        DerivesFromChange(m, arities, rule, db, db, c, t, j);
      }
      AddsNothing(c, b, rule.headRelId, DeltaTuples(m, rule, db, db, c));
    }
  }

  lemma {:induction false} SemiNaiveRunStays(m: KBModule, arities: seq<nat>, db0: DB, db: DB, n: nat, p: DB, q: DB,
                                             n': nat)
    requires ValidModule(m, arities) && SemiNaiveRun(m, db0, db, db, n) && SemiNaiveRun(m, db0, p, q, n') && n <= n'
    ensures p == q == db
    decreases n'
  {
    if n == n' {
      SemiNaiveRunUnique(m, db0, db, db, p, q, n);
    } else {
      var o :| SemiNaiveRun(m, db0, o, p, n' - 1) && DeltaRound(m, |m.rules|, o, p, q);
      SemiNaiveRunStays(m, arities, db0, db, n, o, p, n' - 1);
      DeltaRoundOfNothing(m, arities, |m.rules|, db, q);
    }
  }

  /** There is at most one result of the semi-naive evaluation, consistent or not. */
  lemma SemiNaiveResultUnique(m: KBModule, arities: seq<nat>, db0: DB, a: DB, b: DB)
    requires ValidModule(m, arities) && SemiNaiveResult(m, db0, a) && SemiNaiveResult(m, db0, b)
    ensures a == b
  {
    var n: nat :| SemiNaiveRun(m, db0, a, a, n);
    var k: nat :| SemiNaiveRun(m, db0, b, b, k);
    if n <= k {
      SemiNaiveRunStays(m, arities, db0, a, n, b, b, k);
    } else {
      SemiNaiveRunStays(m, arities, db0, b, k, a, a, n);
    }
  }
}
