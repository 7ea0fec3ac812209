/** The evaluation of one rule without disjunction: EvaluateRuleWithoutDisjunction of
    src/Eval/EvalRule.cc, which chains the evaluators of its literals. */
module EvalRules {
  import opened Sequences
  import opened KBLiterals
  import opened KBRelations
  import opened RuleSemantics
  import opened Selections
  import opened Projections
  import opened EvalSubgoals
  import opened JoinStages
  import opened StageMethods

  // ---------------------------------------------------------------- the counter of rule variables

  /** One entry of the insertion-ordered map from a variable to the number of literals that use it. */
  datatype OrderedVarMapEntry = OrderedVarMapEntry(term: nat, count: nat)

  /** The variables of the map, in the order of their insertion. */
  ghost function Names(m: seq<OrderedVarMapEntry>): seq<nat> {
    seq(|m|, k requires 0 <= k < |m| => m[k].term)
  }

  /** Every variable has one entry, and its count is positive. */
  ghost predicate ValidCounter(m: seq<OrderedVarMapEntry>) {
    Distinct(Names(m)) && forall k :: 0 <= k < |m| ==> m[k].count > 0
  }

  method Find(m: seq<OrderedVarMapEntry>, v: nat) returns (pos: nat)
    ensures pos <= |m|
    ensures pos < |m| ==> m[pos].term == v
    ensures pos == |m| ==> v !in Names(m)
  {
    pos := 0;
    while pos < |m| && m[pos].term != v
      invariant pos <= |m| && forall k :: 0 <= k < pos ==> m[k].term != v
    {
      pos := pos + 1;
    }
  }

  /** Adding variables keeps the entries in place and appends entries for the new variables. */
  method AddToRuleVars(ruleVars: seq<OrderedVarMapEntry>, vars: seq<nat>) returns (m: seq<OrderedVarMapEntry>)
    requires ValidCounter(ruleVars)
    ensures ValidCounter(m) && Names(ruleVars) <= Names(m)
    ensures forall v :: v in Names(m) <==> v in Names(ruleVars) || v in vars
    ensures ruleVars == [] && Distinct(vars) ==> Names(m) == vars
  {
    m := ruleVars;
    for i := 0 to |vars|
      invariant ValidCounter(m) && Names(ruleVars) <= Names(m)
      invariant forall v :: v in Names(m) <==> v in Names(ruleVars) || v in vars[..i]
      invariant ruleVars == [] && Distinct(vars) ==> Names(m) == vars[..i]
    {
      assert vars[..i + 1] == vars[..i] + [vars[i]];
      var pos := Find(m, vars[i]);
      if pos == |m| {
        assert Names(m + [OrderedVarMapEntry(vars[i], 1)]) == Names(m) + [vars[i]];
        m := m + [OrderedVarMapEntry(vars[i], 1)];
      } else {
        assert Names(m)[pos] == vars[i];
        assert Names(m[pos := OrderedVarMapEntry(vars[i], m[pos].count + 1)]) == Names(m);
        m := m[pos := OrderedVarMapEntry(vars[i], m[pos].count + 1)];
      }
    }
  }

  /** The removal stops at one: no variable ever leaves the map. */
  method RemoveFromRuleVars(ruleVars: seq<OrderedVarMapEntry>, vars: seq<nat>) returns (m: seq<OrderedVarMapEntry>)
    requires ValidCounter(ruleVars)
    ensures ValidCounter(m) && Names(m) == Names(ruleVars)
  {
    m := ruleVars;
    for i := 0 to |vars|
      invariant ValidCounter(m) && Names(m) == Names(ruleVars)
    {
      var pos := Find(m, vars[i]);
      if pos == |m| {
        continue;
      }
      var count := m[pos].count - 1;
      if count > 0 {
        assert Names(m[pos := OrderedVarMapEntry(m[pos].term, count)]) == Names(m);
        m := m[pos := OrderedVarMapEntry(m[pos].term, count)];
      }
    }
  }

  ghost function Variables(names: seq<nat>): seq<KBTerm> {
    seq(|names|, k requires 0 <= k < |names| => Variable(names[k]))
  }

  lemma VariablesMember(names: seq<nat>, v: nat)
    ensures Variable(v) in Variables(names) <==> v in names
  {
    if v in names {
      var k :| 0 <= k < |names| && names[k] == v;
      assert Variables(names)[k] == Variable(v);
    }
  }

  method GetVarSet(m: seq<OrderedVarMapEntry>) returns (vars: seq<KBTerm>)
    requires ValidCounter(m)
    ensures vars == Variables(Names(m))
  {
    vars := [];
    for i := 0 to |m|
      invariant vars == Variables(Names(m[..i]))
    {
      if m[i].count > 0 {
        vars := vars + [Variable(m[i].term)];
      }
    }
    assert m[..|m|] == m;
  }

  /** The variables of the rule: those of the head first, then those of the body. */
  ghost predicate RuleVars(rule: KBRule, names: seq<nat>) {
    && Distinct(names) && rule.head.varSet <= names
    && forall v :: v in names <==> v in rule.head.Vars() || v in VarsUpTo(rule.body, |rule.body|)
  }

  method MakeVarsCounter(literals: seq<KBRuleLiteral>, head: KBLiteral) returns (m: seq<OrderedVarMapEntry>)
    requires head.Valid() && forall i :: 0 <= i < |literals| ==> literals[i].lit.Valid()
    ensures ValidCounter(m) && head.varSet <= Names(m)
    ensures forall v :: v in Names(m) <==> v in head.Vars() || v in VarsUpTo(literals, |literals|)
  {
    m := AddToRuleVars([], head.varSet);
    for i := 0 to |literals|
      invariant ValidCounter(m) && head.varSet <= Names(m)
      invariant forall v :: v in Names(m) <==> v in head.Vars() || v in VarsUpTo(literals, i)
    {
      m := AddToRuleVars(m, literals[i].lit.varSet);
    }
  }

  // ---------------------------------------------------------------- the columns between the stages

  /** The columns after n literals: the variables of the rule that these literals bind, or, after the
      last literal, the terms of the head. */
  ghost function DestAt(rule: KBRule, names: seq<nat>, n: nat): seq<KBTerm>
    requires n <= |rule.body|
  {
    if n == |rule.body| then rule.head.terms else Present(Variables(names), VarsUpTo(rule.body, n))
  }

  ghost predicate IsTrueAt(rule: KBRule, n: nat) {
    n == |rule.body| ==> !rule.negated
  }

  lemma {:induction false} PresentDistinct(dest: seq<KBTerm>, vars: set<nat>)
    requires Distinct(dest)
    ensures Distinct(Present(dest, vars))
  {
    if dest != [] {
      var l, t := dest[..|dest| - 1], dest[|dest| - 1];
      PresentDistinct(l, vars);
      PresentMembers(l, vars, t);
      assert t !in l;
    }
  }

  lemma {:induction false} PresentConcat(a: seq<KBTerm>, b: seq<KBTerm>, vars: set<nat>)
    ensures Present(a + b, vars) == Present(a, vars) + Present(b, vars)
  {
    if b == [] {
      assert a + b == a;
    } else {
      var l := b[..|b| - 1];
      PresentConcat(a, l, vars);
      assert (a + b)[..|a + b| - 1] == a + l;
      assert (a + b)[|a + b| - 1] == b[|b| - 1];
    }
  }

  lemma {:induction false} PresentGrows(dest: seq<KBTerm>, vars: set<nat>, more: set<nat>)
    requires vars <= more
    ensures |Present(dest, vars)| <= |Present(dest, more)| <= |dest|
  {
    if dest != [] {
      PresentGrows(dest[..|dest| - 1], vars, more);
    }
  }

  /** The columns after n literals are exactly the variables these bind. */
  lemma ColumnsAt(rule: KBRule, names: seq<nat>, n: nat)
    requires RuleVars(rule, names) && n < |rule.body|
    ensures Columns(DestAt(rule, names, n)) && VarsOf(DestAt(rule, names, n)) == VarsUpTo(rule.body, n)
  {
    var vars, bound := Variables(names), VarsUpTo(rule.body, n);
    assert Distinct(vars);
    PresentDistinct(vars, bound);
    var cols := DestAt(rule, names, n);
    forall t ensures t in cols <==> t.Variable? && t.id in bound {
      PresentMembers(vars, bound, t);
      if t.Variable? && t.id in bound {
        VarsUpToSubset(rule.body, n, |rule.body|);
        VariablesMember(names, t.id);
      }
    }
    assert forall i :: 0 <= i < |cols| ==> cols[i] in cols;
    forall v ensures v in VarsOf(cols) <==> v in bound {
      assert Variable(v) in cols <==> v in bound;
    }
  }

  lemma {:induction false} VarsAtMost(terms: seq<KBTerm>, vars: seq<nat>)
    requires Distinct(vars) && forall v :: v in vars ==> v in VarsOf(terms)
    ensures |vars| <= |terms|
  {
    if vars != [] {
      var l, v := vars[..|vars| - 1], vars[|vars| - 1];
      assert v in vars && Variable(v) in terms;
      var i :| 0 <= i < |terms| && terms[i] == Variable(v);
      var rest := terms[..i] + terms[i + 1..];
      forall w | w in l ensures w in VarsOf(rest) {
        assert w in vars && Variable(w) in terms;
        var k :| 0 <= k < |terms| && terms[k] == Variable(w);
        assert k != i && rest[if k < i then k else k - 1] == Variable(w);
      }
      VarsAtMost(rest, l);
    }
  }

  lemma PresentFirst(a: seq<KBTerm>, b: seq<KBTerm>, vars: set<nat>, i: nat)
    requires Distinct(Present(a + b, vars)) && i < |Present(a + b, vars)| && Present(a + b, vars)[i] in a
    ensures i < |a|
  {
    var cols, t := Present(a + b, vars), Present(a + b, vars)[i];
    PresentConcat(a, b, vars);
    PresentGrows(a, vars, vars);
    PresentMembers(a + b, vars, t);
    PresentMembers(a, vars, t);
    var j :| 0 <= j < |Present(a, vars)| && Present(a, vars)[j] == t;
    assert cols[j] == t;
  }

  /** The head variables come first in every intermediate table. */
  lemma HeadColumnsLow(rule: KBRule, names: seq<nat>, n: nat, i: nat)
    requires RuleVars(rule, names) && rule.head.Valid() && n < |rule.body|
    requires i < |DestAt(rule, names, n)| && DestAt(rule, names, n)[i] in rule.head.terms
    ensures i < |rule.head.terms|
  {
    var cols := DestAt(rule, names, n);
    ColumnsAt(rule, names, n);
    assert cols[i].id in VarsOf(rule.head.terms);
    assert Variables(names) == Variables(rule.head.varSet) + Variables(names[|rule.head.varSet|..]);
    VarsAtMost(rule.head.terms, rule.head.varSet);
    VariablesMember(rule.head.varSet, cols[i].id);
    PresentFirst(Variables(rule.head.varSet), Variables(names[|rule.head.varSet|..]), VarsUpTo(rule.body, n), i);
  }

  // ---------------------------------------------------------------- the evaluator

  /** The evaluators of the body literals, as the rule evaluator keeps them. */
  datatype EvalRule = EvalRule(first: FirstEval, nexts: seq<NextEval>)

  datatype CreateResult = Created(evaluator: EvalRule) | FirstEvaluationUnsafe

  ghost predicate NextBuilt(rule: KBRule, names: seq<nat>, next: NextEval, n: nat, vs: seq<nat>)
    requires 0 < n < |rule.body|
  {
    && NextFor(next, Stage(rule.body, [], n, DestAt(rule, names, n)), vs, DestAt(rule, names, n + 1))
    && next.resultIsTrue == IsTrueAt(rule, n + 1)
  }

  ghost predicate SomeNextBuilt(rule: KBRule, names: seq<nat>, next: NextEval, n: nat)
    requires 0 < n < |rule.body|
  {
    exists vs :: NextBuilt(rule, names, next, n, vs)
  }

  ghost predicate NextsBuilt(rule: KBRule, names: seq<nat>, nexts: seq<NextEval>)
    requires |nexts| < |rule.body|
  {
    forall k :: 0 <= k < |nexts| ==> SomeNextBuilt(rule, names, nexts[k], k + 1)
  }

  ghost predicate FirstBuilt(rule: KBRule, names: seq<nat>, first: FirstEval)
    requires rule.body != []
  {
    FirstFor(first, rule.body[0], DestAt(rule, names, 1)) && first.resultIsTrue == IsTrueAt(rule, 1)
  }

  /** The evaluators were built for the rule, each on the columns of the one before. */
  ghost predicate EvalFor(rule: KBRule, names: seq<nat>, e: EvalRule) {
    && RuleVars(rule, names) && rule.body != [] && |e.nexts| == |rule.body| - 1
    && FirstBuilt(rule, names, e.first)
    && NextsBuilt(rule, names, e.nexts)
  }

  /** The rule as its checker accepts it, the order of the literals aside. */
  ghost predicate CoveredRule(rule: KBRule) {
    && rule.body != [] && rule.head.Valid()
    && (forall i :: 0 <= i < |rule.body| ==> rule.body[i].lit.Valid())
    && rule.head.Vars() <= VarsUpTo(rule.body, |rule.body|)
  }

  lemma FirstVars(body: seq<KBRuleLiteral>)
    requires body != []
    ensures VarsUpTo(body, 1) == body[0].lit.Vars()
  {
    assert VarsUpTo(body, 1) == VarsUpTo(body, 0) + body[0].lit.Vars();
  }

  method CreateFirst(rule: KBRule, projectTo: seq<KBTerm>, isTrue: bool, ghost names: seq<nat>)
    returns (first: FirstEval, result: seq<KBTerm>)
    requires CoveredRule(rule) && RuleVars(rule, names) && isTrue == IsTrueAt(rule, 1)
    requires projectTo == if |rule.body| == 1 then rule.head.terms else Variables(names)
    ensures FirstBuilt(rule, names, first) && result == DestAt(rule, names, 1)
  {
    var l := rule.body[0];
    var selection := MakeSelection(l);
    var ids := MakeProjectionIds(l.lit, projectTo);
    FirstVars(rule.body);
    if |rule.body| == 1 {
      PresentAll(projectTo, l.lit.Vars());
    }
    first := FirstEval(selection, ids, isTrue);
    result := FirstResultTerms(ids, l.lit.terms, DestAt(rule, names, 1));
  }

  /** No complement reads a column beyond the result: intermediate tables only grow, and the columns
      of the head variables come first. */
  lemma ComplementSafe(rule: KBRule, names: seq<nat>, n: nat, ids: seq<JoinId>)
    requires CoveredRule(rule) && RuleVars(rule, names) && 0 < n < |rule.body|
    requires JoinIdsFor(DestAt(rule, names, n), rule.body[n].lit.terms, DestAt(rule, names, n + 1), ids)
    ensures LeftColumnsLow(ids)
  {
    var cols, dest := DestAt(rule, names, n), DestAt(rule, names, n + 1);
    PresentGrows(Variables(names), VarsUpTo(rule.body, n), VarsUpTo(rule.body, n + 1));
    forall k | 0 <= k < |ids|
      ensures (ids[k].Left? ==> ids[k].id < |ids|) && (ids[k].Both? ==> ids[k].left < |ids|)
    {
      assert JoinIdFor(cols, rule.body[n].lit.terms, dest[k], ids[k]);
      if n + 1 == |rule.body| && (ids[k].Left? || ids[k].Both?) {
        HeadColumnsLow(rule, names, n, if ids[k].Left? then ids[k].id else ids[k].left);
      }
    }
  }

  method CreateNext(rule: KBRule, n: nat, cols: seq<KBTerm>, projectTo: seq<KBTerm>, isTrue: bool,
                    ghost names: seq<nat>)
    returns (next: NextEval, result: seq<KBTerm>, ghost vs: seq<nat>)
    requires CoveredRule(rule) && RuleVars(rule, names) && 0 < n < |rule.body|
    requires cols == DestAt(rule, names, n) && isTrue == IsTrueAt(rule, n + 1)
    requires projectTo == if n + 1 == |rule.body| then rule.head.terms else Variables(names)
    ensures NextBuilt(rule, names, next, n, vs) && result == DestAt(rule, names, n + 1)
  {
    var l := rule.body[n];
    ColumnsAt(rule, names, n);
    var left := MakeLiteral(cols);
    var selection := MakeSelection(l);
    var join;
    join, vs := MakeEqualIndices(left, l.lit);
    var ids := MakeJoinProjectionIds(left, l.lit, projectTo);
    if n + 1 == |rule.body| {
      PresentAll(projectTo, left.Vars() + l.lit.Vars());
    }
    next := NextEval(selection, join, ids, isTrue);
    ComplementSafe(rule, names, n, ids);
    result := ResultTerms(ids, cols, l.lit.terms, DestAt(rule, names, n + 1));
  }

  lemma AppendBuilt(rule: KBRule, names: seq<nat>, nexts: seq<NextEval>, next: NextEval, vs: seq<nat>)
    requires |nexts| + 1 < |rule.body| && NextsBuilt(rule, names, nexts)
    requires NextBuilt(rule, names, next, |nexts| + 1, vs)
    ensures NextsBuilt(rule, names, nexts + [next])
  {
    assert SomeNextBuilt(rule, names, next, |nexts| + 1);
  }

  method CreateMore(rule: KBRule, n: nat, cols: seq<KBTerm>, projectTo: seq<KBTerm>, isTrue: bool,
                    ghost names: seq<nat>,
                    nexts: seq<NextEval>)
    returns (nexts': seq<NextEval>, result: seq<KBTerm>)
    requires CoveredRule(rule) && RuleVars(rule, names) && 0 < n < |rule.body|
    requires cols == DestAt(rule, names, n) && isTrue == IsTrueAt(rule, n + 1)
    requires projectTo == if n + 1 == |rule.body| then rule.head.terms else Variables(names)
    requires |nexts| == n - 1 && NextsBuilt(rule, names, nexts)
    ensures |nexts'| == n && NextsBuilt(rule, names, nexts') && result == DestAt(rule, names, n + 1)
  {
    ghost var vs;
    var next;
    next, result, vs := CreateNext(rule, n, cols, projectTo, isTrue, names);
    nexts' := nexts + [next];
    AppendBuilt(rule, names, nexts, next, vs);
  }

  method CreateChain(rule: KBRule, varsCounter: seq<OrderedVarMapEntry>) returns (e: EvalRule)
    requires CoveredRule(rule) && |rule.body| > 1 && ValidCounter(varsCounter) && RuleVars(rule, Names(varsCounter))
    ensures EvalFor(rule, Names(varsCounter), e)
  {
    ghost var names := Names(varsCounter);
    var counter := RemoveFromRuleVars(varsCounter, rule.body[0].lit.varSet);
    var vars := GetVarSet(counter);
    var first, tmp := CreateFirst(rule, vars, true, names);
    var nexts := [];
    for i := 1 to |rule.body| - 1
      invariant |nexts| == i - 1 && tmp == DestAt(rule, names, i)
      invariant ValidCounter(counter) && Names(counter) == names
      invariant NextsBuilt(rule, names, nexts)
    {
      counter := RemoveFromRuleVars(counter, rule.body[i].lit.varSet);
      vars := GetVarSet(counter);
      nexts, tmp := CreateMore(rule, i, tmp, vars, true, names, nexts);
    }
    nexts, tmp := CreateMore(rule, |rule.body| - 1, tmp, rule.head.terms, !rule.negated, names, nexts);
    e := EvalRule(first, nexts);
  }

  /** Builds the evaluators; the first literal must not accept unknown. */
  method CreateEvalRule(rule: KBRule) returns (r: CreateResult, ghost names: seq<nat>)
    requires CoveredRule(rule)
    ensures r.FirstEvaluationUnsafe? <==> rule.body[0].IsUnsafe()
    ensures r.Created? ==> EvalFor(rule, names, r.evaluator)
  {
    var counter := MakeVarsCounter(rule.body, rule.head);
    names := Names(counter);
    if rule.body[0].IsUnsafe() {
      return FirstEvaluationUnsafe, names;
    }
    var first, tmp;
    if |rule.body| == 1 {
      first, tmp := CreateFirst(rule, rule.head.terms, !rule.negated, names);
      return Created(EvalRule(first, [])), names;
    }
    var evaluator := CreateChain(rule, counter);
    r := Created(evaluator);
  }

  // ---------------------------------------------------------------- evaluation

  ghost function Refs(pools: seq<FactsPool>): (refs: seq<Pool>)
    requires forall i :: 0 <= i < |pools| ==> pools[i].Valid()
    ensures |refs| == |pools|
  {
    seq(|pools|, i requires 0 <= i < |pools| => pools[i].Contents())
  }

  /** The head tuples of the substitutions, in their order. */
  ghost predicate HeadTuplesOf(rows: seq<KBTuple>, rule: KBRule, refs: seq<Pool>, subs: seq<Subst>)
    requires rule.body != [] && |refs| == |rule.body|
  {
    |rows| == |subs| && forall k :: 0 <= k < |rows| ==> rows[k] == HeadTuple(rule, refs, subs[k])
  }

  /** The table after n literals, and the substitutions it stands for. */
  ghost predicate StageDone(rule: KBRule, names: seq<nat>, refs: seq<Pool>, n: nat, rows: seq<KBTuple>,
                            subs: seq<Subst>) {
    && 0 < n <= |rule.body| == |refs|
    && Enumerates(subs, rule.body, refs, n)
    && RowsFor(rows, subs, rule.body, refs, n, DestAt(rule, names, n), IsTrueAt(rule, n))
  }

  lemma StageReady(rule: KBRule, names: seq<nat>, g: Stage, next: NextEval, vs: seq<nat>)
    requires WellFormedRule(rule) && RuleVars(rule, names) && g.body == rule.body && RefsFit(rule.body, g.refs)
    requires 0 < g.n < |rule.body| && g.cols == DestAt(rule, names, g.n) && NextBuilt(rule, names, next, g.n, vs)
    ensures g.Valid() && NextFor(next, g, vs, DestAt(rule, names, g.n + 1))
    ensures VarsOf(DestAt(rule, names, g.n + 1)) <= VarsUpTo(rule.body, g.n + 1)
  {
    ColumnsAt(rule, names, g.n);
    if g.n + 1 < |rule.body| {
      ColumnsAt(rule, names, g.n + 1);
    }
  }

  method EvaluateStage(rule: KBRule, next: NextEval, tmpTable: seq<KBTuple>, facts: FactsPool, threads: nat, n: nat,
                       ghost refs: seq<Pool>, ghost names: seq<nat>, ghost before: seq<Subst>)
    returns (rows: seq<KBTuple>, ghost subs: seq<Subst>)
    requires WellFormedRule(rule) && RuleVars(rule, names) && RefsFit(rule.body, refs) && threads >= 1
    requires 0 < n < |rule.body| && SomeNextBuilt(rule, names, next, n)
    requires facts.Valid() && facts.Contents() == refs[n]
    requires StageDone(rule, names, refs, n, tmpTable, before)
    ensures StageDone(rule, names, refs, n + 1, rows, subs)
  {
    ghost var vs :| NextBuilt(rule, names, next, n, vs);
    ghost var g := Stage(rule.body, refs, n, DestAt(rule, names, n));
    StageReady(rule, names, g, next, vs);
    RowsAreTable(tmpTable, before, rule.body, refs, n, g.cols);
    rows, subs := EvaluateNext(next, tmpTable, facts, threads, g, vs, DestAt(rule, names, n + 1));
  }

  ghost predicate ContentsAre(relations: seq<FactsPool>, refs: seq<Pool>) {
    && |relations| == |refs|
    && forall i :: 0 <= i < |relations| ==> relations[i].Valid() && relations[i].Contents() == refs[i]
  }

  lemma FirstDestBound(rule: KBRule, names: seq<nat>)
    requires WellFormedRule(rule) && RuleVars(rule, names)
    ensures VarsOf(DestAt(rule, names, 1)) <= rule.body[0].lit.Vars()
  {
    FirstVars(rule.body);
    if |rule.body| > 1 {
      ColumnsAt(rule, names, 1);
    }
  }

  method EvaluateBegin(rule: KBRule, first: FirstEval, facts: FactsPool, threads: nat, ghost names: seq<nat>,
                       ghost refs: seq<Pool>)
    returns (rows: seq<KBTuple>, ghost subs: seq<Subst>)
    requires WellFormedRule(rule) && RuleVars(rule, names) && FirstBuilt(rule, names, first) && threads >= 1
    requires facts.Valid() && RefsFit(rule.body, refs) && facts.Contents() == refs[0]
    ensures StageDone(rule, names, refs, 1, rows, subs)
  {
    assert PoolFits(rule.body[0], refs[0]);
    FirstDestBound(rule, names);
    rows, subs := EvaluateFirst(first, facts, threads, rule.body, refs, DestAt(rule, names, 1));
  }

  method EvaluateAll(rule: KBRule, e: EvalRule, relations: seq<FactsPool>, threads: nat, ghost names: seq<nat>,
                     ghost refs: seq<Pool>)
    returns (result: seq<KBTuple>, ghost subs: seq<Subst>)
    requires WellFormedRule(rule) && EvalFor(rule, names, e) && threads >= 1
    requires ContentsAre(relations, refs) && RefsFit(rule.body, refs)
    ensures StageDone(rule, names, refs, |rule.body|, result, subs)
  {
    result, subs := EvaluateBegin(rule, e.first, relations[0], threads, names, refs);
    for n := 1 to |rule.body|
      invariant StageDone(rule, names, refs, n, result, subs)
    {
      result, subs := EvaluateStage(rule, e.nexts[n - 1], result, relations[n], threads, n, refs, names, subs);
    }
  }

  lemma HeadTuplesAreDerived(rule: KBRule, refs: seq<Pool>, result: seq<KBTuple>, subs: seq<Subst>)
    requires rule.body != [] && |refs| == |rule.body| && Enumerates(subs, rule.body, refs, |rule.body|)
    requires HeadTuplesOf(result, rule, refs, subs)
    ensures forall t :: t in result <==> Derives(rule, refs, t)
  {
    forall t ensures t in result <==> Derives(rule, refs, t) {
      if t in result {
        var k :| 0 <= k < |result| && result[k] == t;
        assert subs[k] in subs && SatBody(rule, refs, subs[k]);
      }
      if s :| SatBody(rule, refs, s) && HeadTuple(rule, refs, s) == t {
        assert s in subs;
        var k :| 0 <= k < |subs| && subs[k] == s;
        assert result[k] == t;
      }
    }
  }

  lemma LastStageIsHead(rule: KBRule, names: seq<nat>, refs: seq<Pool>, rows: seq<KBTuple>, subs: seq<Subst>)
    requires StageDone(rule, names, refs, |rule.body|, rows, subs)
    ensures rule.body != [] && |refs| == |rule.body|
    ensures Enumerates(subs, rule.body, refs, |rule.body|) && HeadTuplesOf(rows, rule, refs, subs)
  {
    hide Enumerates;
  }

  /** The evaluation of a rule yields exactly one head tuple for every substitution that satisfies
      the body, and nothing else. */
  method Evaluate(rule: KBRule, e: EvalRule, relations: seq<FactsPool>, threads: nat, ghost names: seq<nat>)
    returns (result: seq<KBTuple>, ghost subs: seq<Subst>)
    requires WellFormedRule(rule) && EvalFor(rule, names, e) && threads >= 1
    requires forall i :: 0 <= i < |relations| ==> relations[i].Valid()
    requires RefsFit(rule.body, Refs(relations))
    ensures Enumerates(subs, rule.body, Refs(relations), |rule.body|)
    ensures HeadTuplesOf(result, rule, Refs(relations), subs)
    ensures forall t :: t in result <==> Derives(rule, Refs(relations), t)
  {
    hide StageDone, HeadTuplesOf, Derives, Enumerates, RuleVars, FirstBuilt, NextsBuilt;
    assert rule.body != [] && |Refs(relations)| == |rule.body|;
    result, subs := EvaluateAll(rule, e, relations, threads, names, Refs(relations));
    LastStageIsHead(rule, names, Refs(relations), result, subs);
    HeadTuplesAreDerived(rule, Refs(relations), result, subs);
  }
}
