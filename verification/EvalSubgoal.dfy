/** The evaluation of one body literal against the table built so far (src/Eval/EvalSubgoal.cc,
    src/Eval/Join.cc, and GetOrderedUniqueVarIndices of src/KB/KBLiteral.cc). */
module EvalSubgoals {
  import opened TruthValues
  import opened Sequences
  import opened KBLiterals
  import opened KBRelations
  import opened RuleSemantics
  import opened Selections
  import opened JoinKeys
  import opened ParallelFilter
  import opened MergeJoin

  // ---------------------------------------------------------------- which columns form the key

  /** A list of distinct variables: the columns of a table. */
  ghost predicate Columns(terms: seq<KBTerm>) {
    Distinct(terms) && forall i :: 0 <= i < |terms| ==> terms[i].Variable?
  }

  method GetOrderedUniqueVarIndices(l: KBLiteral) returns (indices: seq<nat>)
    requires l.Valid()
    ensures forall i :: i in indices <==> exists v :: v in l.varIndices && l.varIndices[v][0] == i
  {
    indices := [];
    for k := 0 to |l.varSet|
      invariant forall i :: i in indices <==>
        exists j :: 0 <= j < k && l.varSet[j] in l.varIndices && l.varIndices[l.varSet[j]][0] == i
    {
      assert l.varSet[k] in l.varSet;
      indices := indices + [l.varIndices[l.varSet[k]][0]];
    }
    forall i ensures i in indices <==> exists v :: v in l.varIndices && l.varIndices[v][0] == i {
      if v :| v in l.varIndices && l.varIndices[v][0] == i {
        assert v in l.varSet;
      }
    }
  }

  /** The join compares the columns of the common variables, in increasing order of the variables. */
  ghost predicate JoinFor(join: Join, l: seq<KBTerm>, r: seq<KBTerm>, vs: seq<nat>) {
    && Ascending(vs)
    && |join.leftIndices| == |join.rightIndices| == |vs|
    && (forall k :: 0 <= k < |vs| ==> join.leftIndices[k] < |l| && l[join.leftIndices[k]] == Variable(vs[k]))
    && (forall k :: 0 <= k < |vs| ==> join.rightIndices[k] < |r| && r[join.rightIndices[k]] == Variable(vs[k]))
  }

  method PushEqualIndices(v: nat, left: KBLiteral, right: KBLiteral, included: seq<nat>, join: Join, ghost vs: seq<nat>)
    returns (join': Join)
    requires left.Valid() && right.Valid() && Columns(left.terms) && v in left.varIndices && v in right.varIndices
    requires forall i :: i in included <==> exists w :: w in right.varIndices && right.varIndices[w][0] == i
    requires JoinFor(join, left.terms, right.terms, vs) && Ascending(vs + [v])
    ensures JoinFor(join', left.terms, right.terms, vs + [v])
  {
    join' := join;
    var ls, rs := left.varIndices[v], right.varIndices[v];
    assert IsIndexList(left.terms, v, ls) && IsIndexList(right.terms, v, rs);
    assert ls[0] in ls && ls[|ls| - 1] in ls && rs[0] in rs;
    assert |ls| == 1;
    for i := 0 to |ls|
      invariant join' == if i == 0 then join else Join(join.leftIndices + [ls[0]], join.rightIndices + [rs[0]])
    {
      for j := 0 to |rs|
        invariant join' == if j == 0 then join else Join(join.leftIndices + [ls[0]], join.rightIndices + [rs[0]])
      {
        assert rs[j] in rs;
        if rs[j] in included {
          var w :| w in right.varIndices && right.varIndices[w][0] == rs[j];
          assert IsIndexList(right.terms, w, right.varIndices[w]) && right.varIndices[w][0] in right.varIndices[w];
          assert w == v;
          join' := Join(join'.leftIndices + [ls[i]], join'.rightIndices + [rs[j]]);
        } else {
          assert right.varIndices[v][0] == rs[0];
          assert j > 0;
        }
      }
    }
  }

  ghost predicate CommonKeys(keys: seq<nat>, m: map<nat, seq<nat>>, vs: seq<nat>) {
    forall v :: v in vs <==> v in keys && v in m
  }

  lemma CommonKeysBelow(keys: seq<nat>, i: nat, m: map<nat, seq<nat>>, vs: seq<nat>)
    requires Ascending(keys) && i < |keys| && CommonKeys(keys[..i], m, vs) && Ascending(vs)
    ensures Ascending(vs + [keys[i]])
  {
    forall k | 0 <= k < |vs| ensures vs[k] < keys[i] {
      assert vs[k] in vs;
    }
  }

  method MakeEqualIndices(left: KBLiteral, right: KBLiteral) returns (join: Join, ghost vs: seq<nat>)
    requires left.Valid() && right.Valid() && Columns(left.terms)
    ensures JoinFor(join, left.terms, right.terms, vs)
    ensures forall v :: v in vs <==> v in left.Vars() && v in right.Vars()
  {
    var included := GetOrderedUniqueVarIndices(right);
    var keys := KeysInOrder(left.varIndices.Keys);
    join, vs := Join([], []), [];
    for i := 0 to |keys|
      invariant JoinFor(join, left.terms, right.terms, vs)
      invariant CommonKeys(keys[..i], right.varIndices, vs)
    {
      assert keys[i] in keys && keys[..i + 1] == keys[..i] + [keys[i]];
      if keys[i] in right.varIndices {
        CommonKeysBelow(keys, i, right.varIndices, vs);
        join := PushEqualIndices(keys[i], left, right, included, join, vs);
        vs := vs + [keys[i]];
      }
    }
    assert keys[..|keys|] == keys;
  }

  // ---------------------------------------------------------------- the selected rows

  ghost predicate CandidateOf(l: KBRuleLiteral, pool: Pool, c: Candidate) {
    && Known(pool, c.tuple.terms) && Consistent(l.lit.terms, c.tuple.terms)
    && c.tuple.value == ResolveToTrueOrIncons(pool[c.tuple.terms])
    && c.matches == MatchesTruthValue(l.logicSet, pool[c.tuple.terms])
  }

  /** The known instances of the literal, each once; for a safe literal only the accepted ones. */
  ghost predicate Candidates(l: KBRuleLiteral, pool: Pool, right: seq<Candidate>) {
    Distinct(right) && forall c :: c in right <==> CandidateOf(l, pool, c) && (l.IsUnsafe() || c.matches)
  }

  function ToCandidate(valueSet: set<TruthValue>, fact: KBTuple): Candidate {
    Candidate(KBTuple(fact.terms, ResolveToTrueOrIncons(fact.value)), MatchesTruthValue(valueSet, fact.value))
  }

  predicate Passes(sel: Selection, fact: KBTuple) {
    && fact.value != Unknown && sel.Selectable(fact.terms)
    && (sel.HasUnknown() || MatchesTruthValue(sel.valueSet, fact.value))
  }

  lemma PassesIsCandidate(facts: FactsPool, sel: Selection, l: KBRuleLiteral, fact: KBTuple)
    requires facts.Valid() && SelectsInstances(sel, l) && PoolFits(l, facts.Contents()) && fact in facts.rows
    ensures Passes(sel, fact) <==> (CandidateOf(l, facts.Contents(), ToCandidate(l.logicSet, fact))
                                    && (l.IsUnsafe() || MatchesTruthValue(l.logicSet, fact.value)))
  {
    RowsAreContents(facts);
    var i :| 0 <= i < |facts.rows| && facts.rows[i] == fact;
    assert fact.terms in facts.Contents() && facts.Contents()[fact.terms] == fact.value;
  }

  /** A candidate is made from the row of its own terms. */
  lemma CandidateFromRow(facts: FactsPool, l: KBRuleLiteral, c: Candidate)
    requires facts.Valid() && CandidateOf(l, facts.Contents(), c)
    ensures exists fact :: fact in facts.rows && ToCandidate(l.logicSet, fact) == c
  {
    RowsAreContents(facts);
    var i :| 0 <= i < |facts.rows| && facts.rows[i].terms == c.tuple.terms;
    assert facts.rows[i] in facts.rows && ToCandidate(l.logicSet, facts.rows[i]) == c;
  }

  lemma FilteredCandidates(facts: FactsPool, sel: Selection, l: KBRuleLiteral, pred: KBTuple -> bool,
                           f: KBTuple -> Candidate)
    requires facts.Valid() && SelectsInstances(sel, l) && PoolFits(l, facts.Contents())
    requires forall fact :: pred(fact) == Passes(sel, fact) && f(fact) == ToCandidate(l.logicSet, fact)
    ensures Candidates(l, facts.Contents(), Filtered(facts.rows, pred, f))
  {
    hide SelectsInstances, CandidateOf, PoolFits, Passes;
    var right := Filtered(facts.rows, pred, f);
    forall i, j | 0 <= i < j < |facts.rows| ensures f(facts.rows[i]) != f(facts.rows[j]) {
      assert facts.index[facts.rows[i].terms] == i && facts.index[facts.rows[j].terms] == j;
    }
    FilteredDistinct(facts.rows, pred, f);
    forall c ensures c in right <==> CandidateOf(l, facts.Contents(), c) && (l.IsUnsafe() || c.matches) {
      FilteredMembers(facts.rows, pred, f, c);
      if c in right {
        var i :| 0 <= i < |facts.rows| && pred(facts.rows[i]) && f(facts.rows[i]) == c;
        PassesIsCandidate(facts, sel, l, facts.rows[i]);
      }
      if CandidateOf(l, facts.Contents(), c) && (l.IsUnsafe() || c.matches) {
        CandidateFromRow(facts, l, c);
        var fact :| fact in facts.rows && ToCandidate(l.logicSet, fact) == c;
        PassesIsCandidate(facts, sel, l, fact);
        var i :| 0 <= i < |facts.rows| && facts.rows[i] == fact;
        assert pred(facts.rows[i]) && f(facts.rows[i]) == c;
      }
    }
  }

  method SelectCandidates(facts: FactsPool, sel: Selection, ghost l: KBRuleLiteral, threads: nat)
    returns (right: seq<Candidate>)
    requires facts.Valid() && SelectsInstances(sel, l) && PoolFits(l, facts.Contents()) && threads >= 1
    ensures Candidates(l, facts.Contents(), right)
  {
    var pred := (fact: KBTuple) => Passes(sel, fact);
    var f := (fact: KBTuple) => ToCandidate(sel.valueSet, fact);
    right := Select(facts.rows, threads, pred, f);
    FilteredCandidates(facts, sel, l, pred, f);
  }
}
