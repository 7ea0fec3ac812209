/** The evaluators of one literal: EvalSubgoalFirst, EvalSubgoalNextWithoutUnknown and EvalSubgoalNext
    of src/Eval/EvalSubgoal.cc. */
module StageMethods {
  import opened TruthValues
  import opened Sequences
  import opened KBLiterals
  import opened KBRelations
  import opened RuleSemantics
  import opened Selections
  import opened JoinKeys
  import opened Projections
  import opened ParallelFilter
  import opened MergeJoin
  import opened EvalSubgoals
  import opened JoinStages

  // ---------------------------------------------------------------- what a stage returns

  /** subs lists, once each, the substitutions that satisfy the first n literals. */
  ghost predicate Enumerates(subs: seq<Subst>, body: seq<KBRuleLiteral>, refs: seq<Pool>, n: nat)
    requires n <= |body| == |refs|
  {
    Distinct(subs) && forall s :: s in subs <==> SatPrefix(body, refs, n, s)
  }

  /** Row k is the projection of substitution k, with the value of the body under it. */
  ghost predicate RowsFor(rows: seq<KBTuple>, subs: seq<Subst>, body: seq<KBRuleLiteral>, refs: seq<Pool>, n: nat,
                          dest: seq<KBTerm>, isTrue: bool)
    requires 0 < n <= |body| == |refs|
  {
    && |rows| == |subs|
    && forall k :: 0 <= k < |rows| ==>
      rows[k] == KBTuple(Instance(dest, subs[k]), ResolveTruthValue(BodyValue(body, refs, n, subs[k]), isTrue))
  }

  lemma InstanceInjective(cols: seq<KBTerm>, s: Subst, t: Subst)
    requires s.Keys == t.Keys == VarsOf(cols) && Instance(cols, s) == Instance(cols, t)
    ensures s == t
  {
    InstanceConsistent(cols, s);
    InstanceConsistent(cols, t);
    assert s == map v | v in VarsOf(cols) :: s[v];
  }

  lemma RowsDistinct(rows: seq<KBTuple>, subs: seq<Subst>, body: seq<KBRuleLiteral>, refs: seq<Pool>, n: nat,
                     cols: seq<KBTerm>)
    requires 0 < n <= |body| == |refs| && RowsFor(rows, subs, body, refs, n, cols, true) && Distinct(subs)
    requires forall s :: s in subs ==> s.Keys == VarsOf(cols)
    ensures Distinct(rows)
  {
    forall i, j | 0 <= i < j < |rows| ensures rows[i] != rows[j] {
      assert subs[i] in subs && subs[j] in subs;
      if Instance(cols, subs[i]) == Instance(cols, subs[j]) {
        InstanceInjective(cols, subs[i], subs[j]);
      }
    }
  }

  /** Rows projected on all variables so far are a table. */
  lemma RowsAreTable(rows: seq<KBTuple>, subs: seq<Subst>, body: seq<KBRuleLiteral>, refs: seq<Pool>, n: nat,
                     cols: seq<KBTerm>)
    requires 0 < n <= |body| == |refs| && Enumerates(subs, body, refs, n)
    requires RowsFor(rows, subs, body, refs, n, cols, true)
    requires Columns(cols) && VarsOf(cols) == VarsUpTo(body, n)
    ensures TableFor(rows, cols, body, refs, n)
  {
    RowsDistinct(rows, subs, body, refs, n, cols);
    forall t ensures t in rows <==> exists s :: SatPrefix(body, refs, n, s) && RowTuple(cols, body, refs, n, s) == t {
      if t in rows {
        var k :| 0 <= k < |rows| && rows[k] == t;
        assert subs[k] in subs && RowTuple(cols, body, refs, n, subs[k]) == t;
      }
      if s :| SatPrefix(body, refs, n, s) && RowTuple(cols, body, refs, n, s) == t {
        assert s in subs;
        var k :| 0 <= k < |subs| && subs[k] == s;
        assert rows[k] == t;
      }
    }
  }

  /** A permuted table is a table. */
  lemma TablePermuted(table: seq<KBTuple>, sorted: seq<KBTuple>, cols: seq<KBTerm>, body: seq<KBRuleLiteral>,
                      refs: seq<Pool>, n: nat)
    requires 0 < n <= |body| == |refs| && TableFor(table, cols, body, refs, n) && multiset(sorted) == multiset(table)
    ensures TableFor(sorted, cols, body, refs, n)
  {
    Permuted(sorted, table);
  }

  // ---------------------------------------------------------------- the first literal

  /** The fields of the evaluator of the first literal. */
  datatype FirstEval = FirstEval(selection: Selection, projection: seq<ProjectionId>, resultIsTrue: bool)

  ghost predicate FirstFor(first: FirstEval, l: KBRuleLiteral, dest: seq<KBTerm>) {
    SelectsInstances(first.selection, l) && IdsFor(l.lit.terms, dest, first.projection)
  }

  predicate Accepted(sel: Selection, fact: KBTuple) {
    sel.Selectable(fact.terms) && MatchesTruthValue(sel.valueSet, fact.value) && fact.value != Unknown
  }

  ghost function FactSubst(terms: seq<KBTerm>, fact: KBTuple): Subst {
    if |fact.terms| == |terms| then GroundOf(terms, fact.terms) else map[]
  }

  /** s, on the variables of the literal, picks a known fact with an accepted value. */
  ghost predicate SatSafe(l: KBRuleLiteral, pool: Pool, s: Subst) {
    && s.Keys == l.lit.Vars() && Known(pool, Instance(l.lit.terms, s))
    && MatchesTruthValue(l.logicSet, pool[Instance(l.lit.terms, s)])
  }

  lemma FirstPrefix(body: seq<KBRuleLiteral>, refs: seq<Pool>, s: Subst)
    requires 0 < |body| == |refs| && !body[0].IsUnsafe()
    ensures VarsUpTo(body, 1) == body[0].lit.Vars()
    ensures SatPrefix(body, refs, 1, s) <==> SatSafe(body[0], refs[0], s)
    ensures SatSafe(body[0], refs[0], s) ==> BodyValue(body, refs, 1, s) == refs[0][Instance(body[0].lit.terms, s)]
  {
    assert VarsUpTo(body, 1) == VarsUpTo(body, 0) + body[0].lit.Vars();
    assert SatFirst(body, refs, 1, s) <==> SatLiteral(body[0], refs[0], s);
  }

  lemma FactInPool(facts: FactsPool, fact: KBTuple)
    requires facts.Valid() && fact in facts.rows
    ensures fact.terms in facts.Contents() && facts.Contents()[fact.terms] == fact.value
  {
    RowsAreContents(facts);
    var i :| 0 <= i < |facts.rows| && facts.rows[i] == fact;
  }

  /** An accepted fact of the first literal stands for a substitution that satisfies it. */
  lemma AcceptedFact(sel: Selection, l: KBRuleLiteral, facts: FactsPool, fact: KBTuple)
    requires SelectsInstances(sel, l) && facts.Valid() && PoolFits(l, facts.Contents())
    requires fact in facts.rows && Accepted(sel, fact)
    ensures var s := FactSubst(l.lit.terms, fact);
            && SatSafe(l, facts.Contents(), s) && Instance(l.lit.terms, s) == fact.terms
            && facts.Contents()[fact.terms] == fact.value
  {
    FactInPool(facts, fact);
    GroundInstance(l.lit.terms, fact.terms);
  }

  lemma AcceptedComplete(sel: Selection, l: KBRuleLiteral, facts: FactsPool, s: Subst) returns (fact: KBTuple)
    requires SelectsInstances(sel, l) && facts.Valid() && SatSafe(l, facts.Contents(), s)
    ensures fact in facts.rows && Accepted(sel, fact) && FactSubst(l.lit.terms, fact) == s
  {
    InstanceConsistent(l.lit.terms, s);
    RowsAreContents(facts);
    var i :| 0 <= i < |facts.rows| && facts.rows[i].terms == Instance(l.lit.terms, s);
    fact := facts.rows[i];
  }

  /** Different accepted facts stand for different substitutions. */
  lemma AcceptedDistinct(sel: Selection, l: KBRuleLiteral, facts: FactsPool, i: nat, j: nat)
    requires SelectsInstances(sel, l) && facts.Valid() && PoolFits(l, facts.Contents()) && i < j < |facts.rows|
    requires Accepted(sel, facts.rows[i]) && Accepted(sel, facts.rows[j])
    ensures FactSubst(l.lit.terms, facts.rows[i]) != FactSubst(l.lit.terms, facts.rows[j])
  {
    AcceptedFact(sel, l, facts, facts.rows[i]);
    AcceptedFact(sel, l, facts, facts.rows[j]);
    assert facts.index[facts.rows[i].terms] == i && facts.index[facts.rows[j].terms] == j;
  }

  /** The accepted facts enumerate the substitutions that satisfy the literal. */
  lemma AcceptedEnumerate(sel: Selection, l: KBRuleLiteral, facts: FactsPool, pred: KBTuple -> bool,
                          h: KBTuple -> Subst)
    requires SelectsInstances(sel, l) && facts.Valid() && PoolFits(l, facts.Contents())
    requires forall fact :: pred(fact) == Accepted(sel, fact) && h(fact) == FactSubst(l.lit.terms, fact)
    ensures Distinct(Filtered(facts.rows, pred, h))
    ensures forall s :: s in Filtered(facts.rows, pred, h) <==> SatSafe(l, facts.Contents(), s)
  {
    hide SelectsInstances, PoolFits, Accepted, SatSafe, FactSubst, FactsPool.Valid;
    forall i, j | 0 <= i < j < |facts.rows| && pred(facts.rows[i]) && pred(facts.rows[j])
      ensures h(facts.rows[i]) != h(facts.rows[j])
    {
      AcceptedDistinct(sel, l, facts, i, j);
    }
    FilteredDistinct(facts.rows, pred, h);
    forall s ensures s in Filtered(facts.rows, pred, h) <==> SatSafe(l, facts.Contents(), s) {
      FilteredMembers(facts.rows, pred, h, s);
      if i :| 0 <= i < |facts.rows| && pred(facts.rows[i]) && h(facts.rows[i]) == s {
        AcceptedFact(sel, l, facts, facts.rows[i]);
      }
      if SatSafe(l, facts.Contents(), s) {
        var fact := AcceptedComplete(sel, l, facts, s);
        var i :| 0 <= i < |facts.rows| && facts.rows[i] == fact;
        assert pred(facts.rows[i]) && h(facts.rows[i]) == s;
      }
    }
  }

  /** The row made from an accepted fact is the projection of its substitution; it keeps the fact's own value. */
  lemma AcceptedRow(first: FirstEval, body: seq<KBRuleLiteral>, refs: seq<Pool>, facts: FactsPool, dest: seq<KBTerm>,
                    fact: KBTuple)
    requires 0 < |body| == |refs| && PoolFits(body[0], refs[0]) && FirstFor(first, body[0], dest) && !body[0].IsUnsafe()
    requires facts.Valid() && facts.Contents() == refs[0] && fact in facts.rows && Accepted(first.selection, fact)
    requires VarsOf(dest) <= body[0].lit.Vars()
    ensures var s := FactSubst(body[0].lit.terms, fact);
            BodyValue(body, refs, 1, s) == fact.value && ProjectedRow(first.projection, fact.terms) == Instance(dest, s)
  {
    var terms := body[0].lit.terms;
    var s := FactSubst(terms, fact);
    AcceptedFact(first.selection, body[0], facts, fact);
    FirstPrefix(body, refs, s);
    forall k | 0 <= k < |dest| ensures IdValue(first.projection[k], fact.terms) == TermValue(dest[k], s) {
      assert IdFor(terms, dest[k], first.projection[k]);
      assert dest[k].Variable? ==> Instance(terms, s)[first.projection[k].id] == TermValue(dest[k], s);
    }
  }

  lemma FirstOutcome(first: FirstEval, body: seq<KBRuleLiteral>, refs: seq<Pool>, facts: FactsPool, dest: seq<KBTerm>,
                     pred: KBTuple -> bool, f: KBTuple -> KBTuple, h: KBTuple -> Subst)
    requires 0 < |body| == |refs| && PoolFits(body[0], refs[0]) && FirstFor(first, body[0], dest) && !body[0].IsUnsafe()
    requires facts.Valid() && facts.Contents() == refs[0] && VarsOf(dest) <= body[0].lit.Vars()
    requires forall fact ::
      pred(fact) == Accepted(first.selection, fact) && h(fact) == FactSubst(body[0].lit.terms, fact)
    requires forall fact ::
      f(fact) == KBTuple(ProjectedRow(first.projection, fact.terms), ResolveTruthValue(fact.value, first.resultIsTrue))
    requires Distinct(Filtered(facts.rows, pred, h))
    requires forall s :: s in Filtered(facts.rows, pred, h) <==> SatSafe(body[0], refs[0], s)
    ensures Enumerates(Filtered(facts.rows, pred, h), body, refs, 1)
    ensures RowsFor(Filtered(facts.rows, pred, f), Filtered(facts.rows, pred, h), body, refs, 1, dest,
                    first.resultIsTrue)
  {
    var rows, subs := Filtered(facts.rows, pred, f), Filtered(facts.rows, pred, h);
    forall s ensures s in subs <==> SatPrefix(body, refs, 1, s) {
      FirstPrefix(body, refs, s);
    }
    FilteredTogether(facts.rows, pred, f, h);
    forall k | 0 <= k < |rows|
      ensures rows[k]
        == KBTuple(Instance(dest, subs[k]), ResolveTruthValue(BodyValue(body, refs, 1, subs[k]), first.resultIsTrue))
    {
      var fact := FilteredSource(facts.rows, pred, f, h, k);
      AcceptedRow(first, body, refs, facts, dest, fact);
    }
  }

  method EvaluateFirst(first: FirstEval, facts: FactsPool, threads: nat,
                       ghost body: seq<KBRuleLiteral>, ghost refs: seq<Pool>, ghost dest: seq<KBTerm>)
    returns (rows: seq<KBTuple>, ghost subs: seq<Subst>)
    requires 0 < |body| == |refs| && PoolFits(body[0], refs[0]) && FirstFor(first, body[0], dest) && !body[0].IsUnsafe()
    requires facts.Valid() && facts.Contents() == refs[0] && VarsOf(dest) <= body[0].lit.Vars() && threads >= 1
    ensures Enumerates(subs, body, refs, 1) && RowsFor(rows, subs, body, refs, 1, dest, first.resultIsTrue)
  {
    var pred := (fact: KBTuple) => Accepted(first.selection, fact);
    var f := (fact: KBTuple) =>
      KBTuple(ProjectedRow(first.projection, fact.terms), ResolveTruthValue(fact.value, first.resultIsTrue));
    rows := Select(facts.rows, threads, pred, f);
    ghost var h := (fact: KBTuple) => FactSubst(body[0].lit.terms, fact);
    subs := Filtered(facts.rows, pred, h);
    AcceptedEnumerate(first.selection, body[0], facts, pred, h);
    FirstOutcome(first, body, refs, facts, dest, pred, f, h);
  }

  // ---------------------------------------------------------------- the later literals

  /** The fields of the evaluator of a later literal. */
  datatype NextEval = NextEval(selection: Selection, join: Join, joinProjection: seq<JoinId>, resultIsTrue: bool)

  /** The evaluator was built for literal n over the columns of the stage, projecting on dest. */
  ghost predicate NextFor(next: NextEval, g: Stage, vs: seq<nat>, dest: seq<KBTerm>)
    requires g.n < |g.body|
  {
    && SelectsInstances(next.selection, g.Lit())
    && JoinFor(next.join, g.cols, g.Terms(), vs)
    && (forall v :: v in vs <==> v in VarsOf(g.cols) && v in VarsOf(g.Terms()))
    && JoinIdsFor(g.cols, g.Terms(), dest, next.joinProjection)
    && LeftColumnsLow(next.joinProjection)
  }

  lemma IdsFit(g: Stage, dest: seq<KBTerm>, ids: seq<JoinId>)
    requires g.Valid() && JoinIdsFor(g.cols, g.Terms(), dest, ids) && VarsOf(dest) <= VarsUpTo(g.body, g.n + 1)
    ensures Fits(ids, |g.cols|, |g.Terms()|)
  {
    forall k | 0 <= k < |ids| ensures JoinIdFor(g.cols, g.Terms(), dest[k], ids[k])
      && (dest[k].Variable? ==> dest[k] in g.cols || dest[k] in g.Terms())
    {
      if dest[k].Variable? {
        assert dest[k] in dest && dest[k].id in VarsOf(dest);
        assert dest[k].id in VarsOf(g.cols) || dest[k].id in VarsOf(g.Terms());
      }
    }
  }

  lemma InputsJoinable(next: NextEval, g: Stage, vs: seq<nat>, dest: seq<KBTerm>, left: seq<KBTuple>,
                       right: seq<Candidate>)
    requires Ready(g, next.join, vs, left, right) && NextFor(next, g, vs, dest) && SortedKeys(LeftKeys(next.join, left))
    requires VarsOf(dest) <= VarsUpTo(g.body, g.n + 1)
    ensures Joinable(left, right, next.join, next.joinProjection)
    ensures forall l :: 0 <= l < |left| ==> Fits(next.joinProjection, |left[l].terms|, |g.Terms()|)
  {
    IdsFit(g, dest, next.joinProjection);
    forall l | 0 <= l < |left| ensures |left[l].terms| == |g.cols| && NullFree(left[l].terms) {
      assert left[l] in left;
      var s := TableRow(g, left, left[l]);
      ColumnsNullFree(g.body, g.refs, g.n, g.cols, s);
    }
    forall r | 0 <= r < |right| ensures |right[r].tuple.terms| == |g.Terms()| && NullFree(right[r].tuple.terms) {
      assert right[r] in right;
      assert PoolFits(g.body[g.n], g.refs[g.n]);
    }
  }

  /** The substitutions of the emitted origins. */
  ghost predicate SubsOf(g: Stage, left: seq<KBTuple>, right: seq<Candidate>, o: seq<Origin>, subs: seq<Subst>)
    requires g.n < |g.body|
  {
    |subs| == |o| && forall k :: 0 <= k < |o| ==> subs[k] == SubstOf(g, left, right, o[k])
  }

  lemma OutcomeEnumerates(g: Stage, join: Join, vs: seq<nat>, left: seq<KBTuple>, right: seq<Candidate>, o: seq<Origin>,
                          subs: seq<Subst>)
    requires Ready(g, join, vs, left, right) && Distinct(o) && SubsOf(g, left, right, o, subs)
    requires forall x :: x in o <==> Wanted(g, join, left, right, x)
    ensures Enumerates(subs, g.body, g.refs, g.n + 1)
  {
    forall i, j | 0 <= i < j < |o| ensures subs[i] != subs[j] {
      assert o[i] in o && o[j] in o;
      if subs[i] == subs[j] {
        WantedInjective(g, join, vs, left, right, o[i], o[j]);
      }
    }
    forall s ensures s in subs <==> SatPrefix(g.body, g.refs, g.n + 1, s) {
      if s in subs {
        var k :| 0 <= k < |o| && subs[k] == s;
        assert o[k] in o;
        WantedSat(g, join, vs, left, right, o[k]);
      }
      if SatPrefix(g.body, g.refs, g.n + 1, s) {
        var x := WantedComplete(g, join, vs, left, right, s);
        assert x in o;
        var k :| 0 <= k < |o| && o[k] == x;
        assert subs[k] == s;
      }
    }
  }

  lemma OutcomeRows(next: NextEval, g: Stage, vs: seq<nat>, dest: seq<KBTerm>, left: seq<KBTuple>,
                    right: seq<Candidate>,
                    o: seq<Origin>, rows: seq<KBTuple>, subs: seq<Subst>)
    requires Ready(g, next.join, vs, left, right) && NextFor(next, g, vs, dest)
    requires VarsOf(dest) <= VarsUpTo(g.body, g.n + 1)
    requires RowsOf(left, right, next.joinProjection, next.resultIsTrue, o, rows) && SubsOf(g, left, right, o, subs)
    requires forall x :: x in o ==> Wanted(g, next.join, left, right, x)
    ensures RowsFor(rows, subs, g.body, g.refs, g.n + 1, dest, next.resultIsTrue)
  {
    forall k | 0 <= k < |rows|
      ensures rows[k]
        == KBTuple(Instance(dest, subs[k]),
                   ResolveTruthValue(BodyValue(g.body, g.refs, g.n + 1, subs[k]), next.resultIsTrue))
    {
      assert o[k] in o;
      WantedRow(g, next.join, vs, left, right, o[k], dest, next.joinProjection, next.resultIsTrue);
    }
  }

  /** The scan that the literal calls for emits the wanted origins. */
  method ScanSorted(next: NextEval, left: seq<KBTuple>, right: seq<Candidate>, ghost g: Stage)
    returns (rows: seq<KBTuple>, ghost o: seq<Origin>)
    requires g.n < |g.body| && next.selection.valueSet == g.Lit().logicSet && LeftColumnsLow(next.joinProjection)
    requires Joinable(left, right, next.join, next.joinProjection)
    requires forall l :: 0 <= l < |left| ==> Fits(next.joinProjection, |left[l].terms|, |g.Terms()|)
    ensures RowsOf(left, right, next.joinProjection, next.resultIsTrue, o, rows) && Distinct(o)
    ensures forall x :: x in o <==> Wanted(g, next.join, left, right, x)
  {
    hide RowsOf, Joined, Complemented, NestedLoopRows, Distinct, LeftColumnsLow, Joinable;
    if next.selection.HasUnknown() {
      rows, o := MergeJoinUnknown(left, right, next.join, next.joinProjection, next.resultIsTrue,
                                  next.selection.HasOnlyUnknown(), |g.Terms()|);
    } else {
      rows, o := MergeJoinSafe(left, right, next.join, next.joinProjection, next.resultIsTrue);
    }
  }

  method JoinSorted(next: NextEval, left: seq<KBTuple>, right: seq<Candidate>, ghost g: Stage, ghost vs: seq<nat>,
                    ghost dest: seq<KBTerm>)
    returns (rows: seq<KBTuple>, ghost subs: seq<Subst>)
    requires Ready(g, next.join, vs, left, right) && NextFor(next, g, vs, dest)
    requires VarsOf(dest) <= VarsUpTo(g.body, g.n + 1)
    requires Joinable(left, right, next.join, next.joinProjection)
    requires forall l :: 0 <= l < |left| ==> Fits(next.joinProjection, |left[l].terms|, |g.Terms()|)
    ensures Enumerates(subs, g.body, g.refs, g.n + 1)
    ensures RowsFor(rows, subs, g.body, g.refs, g.n + 1, dest, next.resultIsTrue)
  {
    hide RowsOf, Wanted, Distinct, Enumerates, RowsFor, LeftColumnsLow, Joinable, JoinFor, JoinIdsFor, TableFor,
         Candidates, SubstOf, SortedKeys;
    ghost var o;
    rows, o := ScanSorted(next, left, right, g);
    subs := seq(|o|, k requires 0 <= k < |o| => SubstOf(g, left, right, o[k]));
    OutcomeEnumerates(g, next.join, vs, left, right, o, subs);
    OutcomeRows(next, g, vs, dest, left, right, o, rows, subs);
  }

  /** Sorting the inputs keeps the table and the candidates and makes them fit for the scan. */
  lemma SortedInputs(next: NextEval, g: Stage, vs: seq<nat>, dest: seq<KBTerm>, tmpTable: seq<KBTuple>,
                     selected: seq<Candidate>,
                     left: seq<KBTuple>, right: seq<Candidate>, leftKey: KBTuple -> seq<nat>,
                     rightKey: Candidate -> seq<nat>)
    requires g.Valid() && NextFor(next, g, vs, dest) && VarsOf(dest) <= VarsUpTo(g.body, g.n + 1)
    requires TableFor(tmpTable, g.cols, g.body, g.refs, g.n) && multiset(left) == multiset(tmpTable)
    requires Candidates(g.Lit(), g.Pool(), selected) && multiset(right) == multiset(selected)
    requires SortedByKey(left, leftKey) && SortedByKey(right, rightKey)
    requires forall t :: leftKey(t) == next.join.LeftKey(t.terms)
    requires forall c :: rightKey(c) == next.join.RightKey(c.tuple.terms)
    ensures Ready(g, next.join, vs, left, right)
    ensures Joinable(left, right, next.join, next.joinProjection)
    ensures forall l :: 0 <= l < |left| ==> Fits(next.joinProjection, |left[l].terms|, |g.Terms()|)
  {
    TablePermuted(tmpTable, left, g.cols, g.body, g.refs, g.n);
    Permuted(right, selected);
    var lk, rk := LeftKeys(next.join, left), RightKeys(next.join, right);
    assert forall i :: 0 <= i < |left| ==> lk[i] == leftKey(left[i]);
    assert forall i :: 0 <= i < |right| ==> rk[i] == rightKey(right[i]);
    assert SortedKeys(lk) && SortedKeys(rk);
    InputsJoinable(next, g, vs, dest, left, right);
  }

  method EvaluateNext(next: NextEval, tmpTable: seq<KBTuple>, facts: FactsPool, threads: nat,
                      ghost g: Stage, ghost vs: seq<nat>, ghost dest: seq<KBTerm>)
    returns (rows: seq<KBTuple>, ghost subs: seq<Subst>)
    requires g.Valid() && NextFor(next, g, vs, dest) && VarsOf(dest) <= VarsUpTo(g.body, g.n + 1) && threads >= 1
    requires facts.Valid() && facts.Contents() == g.Pool()
    requires TableFor(tmpTable, g.cols, g.body, g.refs, g.n)
    ensures Enumerates(subs, g.body, g.refs, g.n + 1)
    ensures RowsFor(rows, subs, g.body, g.refs, g.n + 1, dest, next.resultIsTrue)
  {
    assert PoolFits(g.body[g.n], g.refs[g.n]);
    var selected := SelectCandidates(facts, next.selection, g.Lit(), threads);
    var leftKey := (t: KBTuple) => KeyOf(next.join.leftIndices, t.terms);
    var rightKey := (c: Candidate) => KeyOf(next.join.rightIndices, c.tuple.terms);
    var left := SortRelation(tmpTable, leftKey, threads);
    var right := SortRelation(selected, rightKey, threads);
    SortedInputs(next, g, vs, dest, tmpTable, selected, left, right, leftKey, rightKey);
    rows, subs := JoinSorted(next, left, right, g, vs, dest);
  }
}
