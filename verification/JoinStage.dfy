/** A join stage of the pipeline: the table of the substitutions that satisfy the first n literals,
    joined with the candidates of literal n, gives the substitutions that satisfy n + 1 literals. */
module JoinStages {
  import opened TruthValues
  import opened Sequences
  import opened KBLiterals
  import opened KBRelations
  import opened RuleSemantics
  import opened Selections
  import opened JoinKeys
  import opened Projections
  import opened MergeJoin
  import opened EvalSubgoals

  /** Where the pipeline stands: the body, the pools it reads, the literal to join, and the columns
      of the table that holds the first n literals. */
  datatype Stage = Stage(body: seq<KBRuleLiteral>, refs: seq<Pool>, n: nat, cols: seq<KBTerm>) {
    ghost predicate Valid() {
      && 0 < n < |body| && RefsFit(body, refs)
      && (forall i :: 0 <= i < |body| ==> body[i].lit.Valid())
      && Columns(cols) && VarsOf(cols) == VarsUpTo(body, n)
      && SafeOrder(body)
    }

    ghost function Lit(): KBRuleLiteral
      requires n < |body|
    {
      body[n]
    }

    ghost function Terms(): seq<KBTerm>
      requires n < |body|
    {
      body[n].lit.terms
    }

    ghost function Pool(): Pool
      requires n < |refs|
    {
      refs[n]
    }
  }

  // ---------------------------------------------------------------- tables

  ghost function RowTuple(cols: seq<KBTerm>, body: seq<KBRuleLiteral>, refs: seq<Pool>, n: nat, s: Subst): KBTuple
    requires 0 < n <= |body| == |refs|
  {
    KBTuple(Instance(cols, s), BodyValue(body, refs, n, s))
  }

  /** The table holds exactly one row for every substitution that satisfies the first n literals. */
  ghost predicate TableFor(table: seq<KBTuple>, cols: seq<KBTerm>, body: seq<KBRuleLiteral>, refs: seq<Pool>, n: nat)
    requires 0 < n <= |body| == |refs|
  {
    && Distinct(table)
    && forall t :: t in table <==> exists s :: SatPrefix(body, refs, n, s) && RowTuple(cols, body, refs, n, s) == t
  }

  /** The substitution of a row. */
  lemma TableRow(g: Stage, table: seq<KBTuple>, t: KBTuple) returns (s: Subst)
    requires g.Valid() && TableFor(table, g.cols, g.body, g.refs, g.n) && t in table
    ensures |t.terms| == |g.cols| && s == GroundOf(g.cols, t.terms)
    ensures SatPrefix(g.body, g.refs, g.n, s) && t == RowTuple(g.cols, g.body, g.refs, g.n, s)
  {
    s :| SatPrefix(g.body, g.refs, g.n, s) && RowTuple(g.cols, g.body, g.refs, g.n, s) == t;
    InstanceConsistent(g.cols, s);
    assert GroundOf(g.cols, t.terms) == s;
  }

  // ---------------------------------------------------------------- the key order

  lemma FirstDifference(a: seq<nat>, b: seq<nat>, k: nat) returns (m: nat)
    requires |a| == |b| && k < |a| && a[k] != b[k]
    ensures m <= k && a[m] != b[m] && forall j :: 0 <= j < m ==> a[j] == b[j]
  {
    m := 0;
    while a[m] == b[m]
      invariant m <= k && forall j :: 0 <= j < m ==> a[j] == b[j]
      decreases k - m
    {
      m := m + 1;
    }
  }

  /** Comparing two keys is comparing the substitutions in the key order. */
  lemma LexKeyBelow(vs: seq<nat>, a: seq<nat>, b: seq<nat>, s: Subst, g: Subst, vars: set<nat>)
    requires Ascending(vs) && |a| == |b| == |vs| && forall v :: v in vs <==> v in vars
    requires forall k :: 0 <= k < |vs| ==> vs[k] in s && vs[k] in g && a[k] == s[vs[k]] && b[k] == g[vs[k]]
    ensures LexLess(a, b) <==> KeyBelow(vars, s, g)
    ensures a == b <==> Agree(vars, s, g)
  {
    if k :| 0 <= k < |vs| && a[k] != b[k] {
      var m := FirstDifference(a, b, k);
      LexAt(a, b, m);
      assert forall u :: u in vars && u < vs[m] ==> exists j :: 0 <= j < m && vs[j] == u;
      if LexLess(a, b) {
        assert vs[m] in vs && KeyBelowAt(vars, s, g, vs[m]);
      }
      if KeyBelow(vars, s, g) {
        var v :| v in vars && KeyBelowAt(vars, s, g, v);
        assert v in vs;
        var j :| 0 <= j < |vs| && vs[j] == v;
        assert vs[m] in vs && j <= m;
      }
      assert vs[k] in vs;
    } else {
      assert a == b;
      LexTotal(a, b);
      forall v | v in vars ensures v in s && v in g && s[v] == g[v] {
        assert v in vs;
      }
    }
  }

  /** The keys of a table row and a candidate compare as their substitutions do. */
  lemma KeysCompare(g: Stage, join: Join, vs: seq<nat>, s: Subst, r: seq<nat>)
    requires g.Valid() && JoinFor(join, g.cols, g.Terms(), vs)
    requires forall v :: v in vs <==> v in VarsOf(g.cols) && v in VarsOf(g.Terms())
    requires VarsOf(g.cols) <= s.Keys && Consistent(g.Terms(), r)
    ensures var l, gr, common := Instance(g.cols, s), GroundOf(g.Terms(), r), VarsOf(g.cols) * VarsOf(g.Terms());
            && (join.LeftKey(l) == join.RightKey(r) <==> Agree(common, s, gr))
            && (LexLess(join.LeftKey(l), join.RightKey(r)) <==> KeyBelow(common, s, gr))
  {
    var l, gr := Instance(g.cols, s), GroundOf(g.Terms(), r);
    GroundInstance(g.Terms(), r);
    forall k | 0 <= k < |vs|
      ensures vs[k] in s && vs[k] in gr && join.LeftKey(l)[k] == s[vs[k]] && join.RightKey(r)[k] == gr[vs[k]]
    {
      assert vs[k] in vs;
      assert l[join.leftIndices[k]] == TermValue(g.cols[join.leftIndices[k]], s);
    }
    LexKeyBelow(vs, join.LeftKey(l), join.RightKey(r), s, gr, VarsOf(g.cols) * VarsOf(g.Terms()));
  }

  // ---------------------------------------------------------------- matched pairs

  /** The substitution of a matched pair. */
  ghost function Merged(g: Stage, s: Subst, r: seq<nat>): Subst
    requires g.n < |g.body| && |r| == |g.Terms()|
  {
    s + GroundOf(g.Terms(), r)
  }

  lemma UnionAgrees(s: Subst, t: Subst)
    requires Agree(s.Keys * t.Keys, s, t)
    ensures (s + t).Keys == s.Keys + t.Keys && Agree(s.Keys, s, s + t) && Agree(t.Keys, t, s + t)
  {
  }

  lemma MergedAgrees(g: Stage, s: Subst, r: seq<nat>)
    requires g.Valid() && s.Keys == VarsUpTo(g.body, g.n) && Consistent(g.Terms(), r)
    requires Agree(VarsOf(g.cols) * VarsOf(g.Terms()), s, GroundOf(g.Terms(), r))
    ensures var t := Merged(g, s, r);
            && t.Keys == VarsUpTo(g.body, g.n + 1)
            && Agree(VarsUpTo(g.body, g.n), s, t)
            && Agree(VarsOf(g.Terms()), GroundOf(g.Terms(), r), t)
            && Instance(g.Terms(), t) == r
  {
    hide RefsFit, SafeOrder, Columns, Instance;
    var gr, t := GroundOf(g.Terms(), r), Merged(g, s, r);
    GroundInstance(g.Terms(), r);
    UnionAgrees(s, gr);
    InstanceAgrees(g.Terms(), gr, t);
  }

  lemma KnownSatisfies(l: KBRuleLiteral, pool: Pool, c: Candidate, t: Subst)
    requires CandidateOf(l, pool, c) && c.matches && l.lit.Vars() <= t.Keys && Instance(l.lit.terms, t) == c.tuple.terms
    ensures SatLiteral(l, pool, t)
  {
  }

  lemma SatOneMore(body: seq<KBRuleLiteral>, refs: seq<Pool>, n: nat, t: Subst)
    requires n < |body| == |refs| && SatFirst(body, refs, n, t) && SatLiteral(body[n], refs[n], t)
    ensures SatFirst(body, refs, n + 1, t)
  {
  }

  /** A row of the table and an accepted candidate that agrees with it give a substitution that
      satisfies one literal more, with the conjunction of the values. */
  lemma MatchedSat(g: Stage, s: Subst, c: Candidate)
    requires g.Valid() && SatPrefix(g.body, g.refs, g.n, s)
    requires CandidateOf(g.Lit(), g.Pool(), c) && c.matches
    requires Agree(VarsOf(g.cols) * VarsOf(g.Terms()), s, GroundOf(g.Terms(), c.tuple.terms))
    ensures var t := Merged(g, s, c.tuple.terms);
            && SatPrefix(g.body, g.refs, g.n + 1, t)
            && BodyValue(g.body, g.refs, g.n + 1, t) == Conjunction(BodyValue(g.body, g.refs, g.n, s), c.tuple.value)
  {
    var t := Merged(g, s, c.tuple.terms);
    MergedAgrees(g, s, c.tuple.terms);
    SatFirstAgrees(g.body, g.refs, g.n, s, t);
    KnownSatisfies(g.Lit(), g.Pool(), c, t);
    SatOneMore(g.body, g.refs, g.n, t);
    BodyValueAgrees(g.body, g.refs, g.n, s, t);
  }

  ghost function Restricted(g: Stage, t: Subst): Subst
    requires g.n < |g.body| && t.Keys >= VarsUpTo(g.body, g.n)
  {
    map v | v in VarsUpTo(g.body, g.n) :: t[v]
  }

  lemma MapParts(t: Subst, a: set<nat>, b: set<nat>)
    requires t.Keys == a + b
    ensures (map v | v in a :: t[v]) + (map v | v in b :: t[v]) == t
  {
    var m := (map v | v in a :: t[v]) + (map v | v in b :: t[v]);
    assert m.Keys == t.Keys;
  }

  lemma MergedRestores(g: Stage, t: Subst)
    requires g.n < |g.body| && t.Keys == VarsUpTo(g.body, g.n + 1)
    ensures Consistent(g.Terms(), Instance(g.Terms(), t))
    ensures Agree(VarsOf(g.Terms()), t, GroundOf(g.Terms(), Instance(g.Terms(), t)))
    ensures Merged(g, Restricted(g, t), Instance(g.Terms(), t)) == t
  {
    InstanceConsistent(g.Terms(), t);
    MapParts(t, VarsUpTo(g.body, g.n), VarsOf(g.Terms()));
  }

  /** Conversely a substitution that satisfies n + 1 literals and picks a known fact comes from a pair. */
  lemma MatchedComplete(g: Stage, t: Subst) returns (s: Subst, c: Candidate)
    requires g.Valid() && SatPrefix(g.body, g.refs, g.n + 1, t) && Known(g.Pool(), Instance(g.Terms(), t))
    ensures SatPrefix(g.body, g.refs, g.n, s) && CandidateOf(g.Lit(), g.Pool(), c) && c.matches
    ensures Agree(VarsOf(g.cols) * VarsOf(g.Terms()), s, GroundOf(g.Terms(), c.tuple.terms))
    ensures Merged(g, s, c.tuple.terms) == t
  {
    var r := Instance(g.Terms(), t);
    s := Restricted(g, t);
    MergedRestores(g, t);
    SatFirstAgrees(g.body, g.refs, g.n, t, s);
    assert SatLiteral(g.body[g.n], g.refs[g.n], t);
    c := Candidate(KBTuple(r, ResolveToTrueOrIncons(g.Pool()[r])), true);
  }

  // ---------------------------------------------------------------- complemented rows

  /** A row of the table that no candidate matches satisfies an unknown-aware literal exactly when
      the scan reaches it. */
  lemma UnmatchedSat(body: seq<KBRuleLiteral>, refs: seq<Pool>, n: nat, s: Subst)
    requires 0 < n < |body| == |refs| && body[n].IsUnsafe() && body[n].lit.Vars() <= VarsUpTo(body, n)
    requires SatPrefix(body, refs, n, s)
    requires !Known(refs[n], Instance(body[n].lit.terms, s)) && Reached(body[n].lit.terms, refs[n], s)
    ensures SatPrefix(body, refs, n + 1, s)
    ensures BodyValue(body, refs, n + 1, s) == BodyValue(body, refs, n, s)
  {
    assert VarsUpTo(body, n + 1) == VarsUpTo(body, n);
    assert SatLiteral(body[n], refs[n], s);
  }

  /** Candidates and the facts that substitutions pick are the same things. */
  lemma CandidatePicks(g: Stage, c: Candidate)
    requires g.Valid() && CandidateOf(g.Lit(), g.Pool(), c)
    ensures Picks(g.Terms(), g.Pool(), GroundOf(g.Terms(), c.tuple.terms))
  {
    GroundInstance(g.Terms(), c.tuple.terms);
  }

  lemma PickIsCandidate(g: Stage, right: seq<Candidate>, p: Subst) returns (q: nat)
    requires g.Valid() && g.Lit().IsUnsafe() && Candidates(g.Lit(), g.Pool(), right)
    requires p.Keys >= VarsOf(g.Terms()) && Known(g.Pool(), Instance(g.Terms(), p))
    ensures q < |right| && right[q].tuple.terms == Instance(g.Terms(), p)
    ensures Agree(VarsOf(g.Terms()), p, GroundOf(g.Terms(), right[q].tuple.terms))
  {
    var r := Instance(g.Terms(), p);
    InstanceConsistent(g.Terms(), p);
    var c := Candidate(KBTuple(r, ResolveToTrueOrIncons(g.Pool()[r])),
                       MatchesTruthValue(g.Lit().logicSet, g.Pool()[r]));
    assert CandidateOf(g.Lit(), g.Pool(), c);
    q :| 0 <= q < |right| && right[q] == c;
  }

  /** The row of s and the candidates, as an unknown-aware scan finds them. */
  ghost predicate AtRow(g: Stage, join: Join, vs: seq<nat>, left: seq<KBTuple>, right: seq<Candidate>, l: nat,
                        s: Subst) {
    && g.Valid() && g.Lit().IsUnsafe() && JoinFor(join, g.cols, g.Terms(), vs)
    && (forall v :: v in vs <==> v in VarsOf(g.cols) && v in VarsOf(g.Terms()))
    && Candidates(g.Lit(), g.Pool(), right) && SortedKeys(RightKeys(join, right))
    && l < |left| && left[l].terms == Instance(g.cols, s) && s.Keys == VarsUpTo(g.body, g.n)
  }

  /** Without candidates the literal picks nothing, so every row is reached. */
  lemma NoCandidates(g: Stage, right: seq<Candidate>, s: Subst)
    requires g.Valid() && g.Lit().IsUnsafe() && Candidates(g.Lit(), g.Pool(), right) && right == []
    ensures Reached(g.Terms(), g.Pool(), s)
  {
    if p :| Picks(g.Terms(), g.Pool(), p) {
      var q := PickIsCandidate(g, right, p);
    }
  }

  lemma CandidateIsConsistent(g: Stage, right: seq<Candidate>, q: nat)
    requires g.Valid() && Candidates(g.Lit(), g.Pool(), right) && q < |right|
    ensures Consistent(g.Terms(), right[q].tuple.terms) && CandidateOf(g.Lit(), g.Pool(), right[q])
  {
    assert right[q] in right;
  }

  lemma KeyBelowBoth(vars: set<nat>, s: Subst, p: Subst, q: Subst)
    requires Agree(vars, p, q)
    ensures KeyBelow(vars, s, q) ==> KeyBelow(vars, s, p)
  {
    if v :| v in vars && KeyBelowAt(vars, s, q, v) {
      assert KeyBelowAt(vars, s, p, v);
    }
  }

  /** The key of a row and the key of a candidate that p picks. */
  lemma PickKey(g: Stage, join: Join, vs: seq<nat>, left: seq<KBTuple>, right: seq<Candidate>, l: nat, s: Subst, q: nat,
                p: Subst)
    requires AtRow(g, join, vs, left, right, l, s) && q < |right|
    requires Agree(VarsOf(g.Terms()), p, GroundOf(g.Terms(), right[q].tuple.terms))
    ensures LexLess(LeftKeys(join, left)[l], RightKeys(join, right)[q]) ==> KeyBelow(VarsOf(g.Terms()), s, p)
  {
    hide Candidates, KeyBelow, LexLess, JoinFor;
    var vars := VarsOf(g.Terms());
    assert VarsOf(g.cols) * vars == vars;
    assert Consistent(g.Terms(), right[q].tuple.terms) by { CandidateIsConsistent(g, right, q); }
    KeysCompare(g, join, vs, s, right[q].tuple.terms);
    KeyBelowBoth(vars, s, p, GroundOf(g.Terms(), right[q].tuple.terms));
  }

  /** A row with a pick that it is not below is not below the first candidate. */
  lemma ReachedByScan(g: Stage, join: Join, vs: seq<nat>, left: seq<KBTuple>, right: seq<Candidate>, l: nat, s: Subst,
                      p: Subst)
    requires AtRow(g, join, vs, left, right, l, s) && right != []
    requires Picks(g.Terms(), g.Pool(), p) && !KeyBelow(VarsOf(g.Terms()), s, p)
    ensures LexLeq(RightKeys(join, right)[0], LeftKeys(join, left)[l])
  {
    hide Candidates, KeyBelow, LexLess;
    var lk, rk := LeftKeys(join, left), RightKeys(join, right);
    var q := PickIsCandidate(g, right, p);
    PickKey(g, join, vs, left, right, l, s, q, p);
    LexTotal(lk[l], rk[q]);
    LexTotal(rk[0], rk[0]);
    assert LexLeq(rk[0], rk[q]);
    LexLeqTransitive(rk[0], rk[q], lk[l]);
  }

  /** A row that is not below the first candidate has a pick that it is not below. */
  lemma ScanReaches(g: Stage, join: Join, vs: seq<nat>, left: seq<KBTuple>, right: seq<Candidate>, l: nat, s: Subst)
    requires AtRow(g, join, vs, left, right, l, s) && right != []
    requires LexLeq(RightKeys(join, right)[0], LeftKeys(join, left)[l])
    ensures Reached(g.Terms(), g.Pool(), s)
  {
    hide Candidates, KeyBelow, JoinFor;
    CandidateIsConsistent(g, right, 0);
    var gr := GroundOf(g.Terms(), right[0].tuple.terms);
    CandidatePicks(g, right[0]);
    var vars := VarsOf(g.Terms());
    assert VarsOf(g.cols) * vars == vars;
    KeysCompare(g, join, vs, s, right[0].tuple.terms);
    assert Picks(g.Terms(), g.Pool(), gr) && !KeyBelow(vars, s, gr);
  }

  /** The scan reaches a row exactly when there is no candidate or the row is not below the first one. */
  lemma ReachedMeans(g: Stage, join: Join, vs: seq<nat>, left: seq<KBTuple>, right: seq<Candidate>, l: nat, s: Subst)
    requires AtRow(g, join, vs, left, right, l, s)
    ensures Reached(g.Terms(), g.Pool(), s)
      <==> right == [] || LexLeq(RightKeys(join, right)[0], LeftKeys(join, left)[l])
  {
    hide Candidates, KeyBelow, LexLeq, JoinFor;
    if right == [] {
      NoCandidates(g, right, s);
    } else if LexLeq(RightKeys(join, right)[0], LeftKeys(join, left)[l]) {
      ScanReaches(g, join, vs, left, right, l, s);
    } else if Reached(g.Terms(), g.Pool(), s) {
      CandidateIsConsistent(g, right, 0);
      CandidatePicks(g, right[0]);
      var p :| Picks(g.Terms(), g.Pool(), p) && !KeyBelow(VarsOf(g.Terms()), s, p);
      ReachedByScan(g, join, vs, left, right, l, s, p);
    }
  }

  lemma PartnerMeansKnown(g: Stage, join: Join, vs: seq<nat>, left: seq<KBTuple>, right: seq<Candidate>, l: nat,
                          s: Subst)
    requires g.Valid() && g.Lit().IsUnsafe() && JoinFor(join, g.cols, g.Terms(), vs)
    requires forall v :: v in vs <==> v in VarsOf(g.cols) && v in VarsOf(g.Terms())
    requires Candidates(g.Lit(), g.Pool(), right)
    requires l < |left| && left[l].terms == Instance(g.cols, s) && s.Keys == VarsUpTo(g.body, g.n)
    ensures LeftKeys(join, left)[l] in RightKeys(join, right) <==> Known(g.Pool(), Instance(g.Terms(), s))
  {
    var lk, rk := LeftKeys(join, left), RightKeys(join, right);
    assert VarsOf(g.cols) * VarsOf(g.Terms()) == VarsOf(g.Terms());
    if Known(g.Pool(), Instance(g.Terms(), s)) {
      var q := PickIsCandidate(g, right, s);
      assert right[q] in right;
      KeysCompare(g, join, vs, s, right[q].tuple.terms);
      assert lk[l] == rk[q];
    }
    if lk[l] in rk {
      var q :| 0 <= q < |rk| && rk[q] == lk[l];
      assert right[q] in right;
      KeysCompare(g, join, vs, s, right[q].tuple.terms);
      GroundInstance(g.Terms(), right[q].tuple.terms);
      InstanceAgrees(g.Terms(), s, GroundOf(g.Terms(), right[q].tuple.terms));
    }
  }

  /** The scan's test for a complement says: nothing is known about the instance, and the scan reaches it. */
  lemma ComplementedMeans(g: Stage, join: Join, vs: seq<nat>, left: seq<KBTuple>, right: seq<Candidate>, l: nat,
                          s: Subst)
    requires AtRow(g, join, vs, left, right, l, s)
    ensures Complemented(LeftKeys(join, left), RightKeys(join, right), Unmatched(l))
      <==> (!Known(g.Pool(), Instance(g.Terms(), s)) && Reached(g.Terms(), g.Pool(), s))
  {
    PartnerMeansKnown(g, join, vs, left, right, l, s);
    ReachedMeans(g, join, vs, left, right, l, s);
    hide Reached, Candidates, LexLeq;
  }

  // ---------------------------------------------------------------- the stage as a whole

  /** The inputs of a stage: the table, sorted, and the candidates, sorted. */
  ghost predicate Ready(g: Stage, join: Join, vs: seq<nat>, left: seq<KBTuple>, right: seq<Candidate>) {
    && g.Valid() && JoinFor(join, g.cols, g.Terms(), vs)
    && (forall v :: v in vs <==> v in VarsOf(g.cols) && v in VarsOf(g.Terms()))
    && TableFor(left, g.cols, g.body, g.refs, g.n)
    && Candidates(g.Lit(), g.Pool(), right) && SortedKeys(RightKeys(join, right))
  }

  /** The origins a stage emits. */
  ghost predicate Wanted(g: Stage, join: Join, left: seq<KBTuple>, right: seq<Candidate>, x: Origin)
    requires g.n < |g.body|
  {
    if g.Lit().IsUnsafe() then
      JoinedOrComplemented(LeftKeys(join, left), RightKeys(join, right), Flags(right), g.Lit().logicSet == {Unknown}, x)
    else Joined(LeftKeys(join, left), RightKeys(join, right), Flags(right), x)
  }

  ghost function SubstOf(g: Stage, left: seq<KBTuple>, right: seq<Candidate>, x: Origin): Subst
    requires g.n < |g.body|
  {
    if x.l >= |left| || |left[x.l].terms| != |g.cols| then map[]
    else match x
      case Unmatched(l) => GroundOf(g.cols, left[l].terms)
      case Matched(l, r) =>
        if r < |right| && |right[r].tuple.terms| == |g.Terms()| then
          Merged(g, GroundOf(g.cols, left[l].terms), right[r].tuple.terms)
        else map[]
  }

  /** Matched origins of a stage are pairs that agree and are accepted, whatever the literal. */
  lemma WantedMatched(g: Stage, join: Join, vs: seq<nat>, left: seq<KBTuple>, right: seq<Candidate>, x: Origin)
    returns (s: Subst)
    requires Ready(g, join, vs, left, right) && Wanted(g, join, left, right, x) && x.Matched?
    ensures x.l < |left| && x.r < |right| && |left[x.l].terms| == |g.cols| && |right[x.r].tuple.terms| == |g.Terms()|
    ensures s == GroundOf(g.cols, left[x.l].terms) && SatPrefix(g.body, g.refs, g.n, s)
    ensures left[x.l] == RowTuple(g.cols, g.body, g.refs, g.n, s)
    ensures CandidateOf(g.Lit(), g.Pool(), right[x.r]) && right[x.r].matches
    ensures Agree(VarsOf(g.cols) * VarsOf(g.Terms()), s, GroundOf(g.Terms(), right[x.r].tuple.terms))
  {
    assert left[x.l] in left && right[x.r] in right;
    s := TableRow(g, left, left[x.l]);
    KeysCompare(g, join, vs, s, right[x.r].tuple.terms);
  }

  lemma WantedUnmatched(g: Stage, join: Join, vs: seq<nat>, left: seq<KBTuple>, right: seq<Candidate>, x: Origin)
    returns (s: Subst)
    requires Ready(g, join, vs, left, right) && Wanted(g, join, left, right, x) && x.Unmatched?
    ensures x.l < |left| && |left[x.l].terms| == |g.cols|
    ensures s == GroundOf(g.cols, left[x.l].terms) && SatPrefix(g.body, g.refs, g.n, s)
    ensures left[x.l] == RowTuple(g.cols, g.body, g.refs, g.n, s)
    ensures g.Lit().IsUnsafe() && !Known(g.Pool(), Instance(g.Terms(), s)) && Reached(g.Terms(), g.Pool(), s)
  {
    assert left[x.l] in left;
    s := TableRow(g, left, left[x.l]);
    ComplementedMeans(g, join, vs, left, right, x.l, s);
  }

  /** Every emitted origin stands for a substitution that satisfies n + 1 literals. */
  lemma WantedSat(g: Stage, join: Join, vs: seq<nat>, left: seq<KBTuple>, right: seq<Candidate>, x: Origin)
    requires Ready(g, join, vs, left, right) && Wanted(g, join, left, right, x)
    ensures SatPrefix(g.body, g.refs, g.n + 1, SubstOf(g, left, right, x))
    ensures BodyValue(g.body, g.refs, g.n + 1, SubstOf(g, left, right, x))
      == if x.Matched? then Conjunction(left[x.l].value, right[x.r].tuple.value) else left[x.l].value
  {
    if x.Matched? {
      var s := WantedMatched(g, join, vs, left, right, x);
      MatchedSat(g, s, right[x.r]);
    } else {
      var s := WantedUnmatched(g, join, vs, left, right, x);
      UnmatchedSat(g.body, g.refs, g.n, s);
    }
  }

  lemma TableIndex(g: Stage, left: seq<KBTuple>, s: Subst) returns (l: nat)
    requires g.Valid() && TableFor(left, g.cols, g.body, g.refs, g.n) && SatPrefix(g.body, g.refs, g.n, s)
    ensures l < |left| && left[l] == RowTuple(g.cols, g.body, g.refs, g.n, s) && GroundOf(g.cols, left[l].terms) == s
  {
    var t := RowTuple(g.cols, g.body, g.refs, g.n, s);
    assert t in left;
    l :| 0 <= l < |left| && left[l] == t;
    InstanceConsistent(g.cols, s);
  }

  lemma KnownComplete(g: Stage, join: Join, vs: seq<nat>, left: seq<KBTuple>, right: seq<Candidate>, t: Subst)
    returns (x: Origin)
    requires Ready(g, join, vs, left, right) && SatPrefix(g.body, g.refs, g.n + 1, t)
    requires Known(g.Pool(), Instance(g.Terms(), t))
    ensures Wanted(g, join, left, right, x) && SubstOf(g, left, right, x) == t
  {
    hide JoinFor, TableFor, SortedKeys, RefsFit, SafeOrder, SatPrefix;
    var s, c := MatchedComplete(g, t);
    var l := TableIndex(g, left, s);
    assert c in right;
    var r :| 0 <= r < |right| && right[r] == c;
    KeysCompare(g, join, vs, s, c.tuple.terms);
    x := Matched(l, r);
    assert Joined(LeftKeys(join, left), RightKeys(join, right), Flags(right), x);
  }

  /** A substitution that satisfies n + 1 literals without a known fact for the last one. */
  lemma UnknownPrefix(g: Stage, t: Subst)
    requires g.Valid() && SatPrefix(g.body, g.refs, g.n + 1, t) && !Known(g.Pool(), Instance(g.Terms(), t))
    ensures g.Lit().IsUnsafe() && Reached(g.Terms(), g.Pool(), t) && SatPrefix(g.body, g.refs, g.n, t)
  {
    hide Reached;
    assert SatLiteral(g.body[g.n], g.refs[g.n], t);
    assert VarsUpTo(g.body, g.n + 1) == VarsUpTo(g.body, g.n);
  }

  lemma UnknownComplete(g: Stage, join: Join, vs: seq<nat>, left: seq<KBTuple>, right: seq<Candidate>, t: Subst)
    returns (x: Origin)
    requires Ready(g, join, vs, left, right) && SatPrefix(g.body, g.refs, g.n + 1, t)
    requires !Known(g.Pool(), Instance(g.Terms(), t))
    ensures Wanted(g, join, left, right, x) && SubstOf(g, left, right, x) == t
  {
    hide JoinFor, Candidates, TableFor, SortedKeys, Reached, Complemented, SatLiteral;
    UnknownPrefix(g, t);
    var l := TableIndex(g, left, t);
    ComplementedMeans(g, join, vs, left, right, l, t);
    x := Unmatched(l);
  }

  /** Every substitution that satisfies n + 1 literals is emitted. */
  lemma WantedComplete(g: Stage, join: Join, vs: seq<nat>, left: seq<KBTuple>, right: seq<Candidate>, t: Subst)
    returns (x: Origin)
    requires Ready(g, join, vs, left, right) && SatPrefix(g.body, g.refs, g.n + 1, t)
    ensures Wanted(g, join, left, right, x) && SubstOf(g, left, right, x) == t
  {
    if Known(g.Pool(), Instance(g.Terms(), t)) {
      x := KnownComplete(g, join, vs, left, right, t);
    } else {
      x := UnknownComplete(g, join, vs, left, right, t);
    }
  }

  /** The rows of an origin can be read off its substitution, so no substitution is emitted twice. */
  lemma WantedReadsOff(g: Stage, join: Join, vs: seq<nat>, left: seq<KBTuple>, right: seq<Candidate>, x: Origin)
    requires Ready(g, join, vs, left, right) && Wanted(g, join, left, right, x)
    ensures x.l < |left| && left[x.l].terms == Instance(g.cols, SubstOf(g, left, right, x))
    ensures x.Matched? ==> x.r < |right| && right[x.r].tuple.terms == Instance(g.Terms(), SubstOf(g, left, right, x))
    ensures x.Matched? <==> Known(g.Pool(), Instance(g.Terms(), SubstOf(g, left, right, x)))
  {
    if x.Matched? {
      var s := WantedMatched(g, join, vs, left, right, x);
      MergedAgrees(g, s, right[x.r].tuple.terms);
      InstanceAgrees(g.cols, s, SubstOf(g, left, right, x));
    } else {
      var s := WantedUnmatched(g, join, vs, left, right, x);
    }
  }

  lemma SameTermsSameRow(g: Stage, left: seq<KBTuple>, l: nat, m: nat)
    requires g.Valid() && TableFor(left, g.cols, g.body, g.refs, g.n)
    requires l < |left| && m < |left| && left[l].terms == left[m].terms
    ensures l == m
  {
    assert left[l] in left && left[m] in left;
    var s := TableRow(g, left, left[l]);
    var t := TableRow(g, left, left[m]);
  }

  lemma WantedInjective(g: Stage, join: Join, vs: seq<nat>, left: seq<KBTuple>, right: seq<Candidate>, x: Origin,
                        y: Origin)
    requires Ready(g, join, vs, left, right) && Wanted(g, join, left, right, x) && Wanted(g, join, left, right, y)
    requires SubstOf(g, left, right, x) == SubstOf(g, left, right, y)
    ensures x == y
  {
    WantedReadsOff(g, join, vs, left, right, x);
    WantedReadsOff(g, join, vs, left, right, y);
    SameTermsSameRow(g, left, x.l, y.l);
    if x.Matched? {
      var s := WantedMatched(g, join, vs, left, right, x);
      var s' := WantedMatched(g, join, vs, left, right, y);
      assert right[x.r] == right[y.r];
    }
  }

  /** One entry of an emitted row. */
  lemma ProjectedEntry(cols: seq<KBTerm>, terms: seq<KBTerm>, t: KBTerm, id: JoinId, s: Subst, l: seq<nat>, r: seq<nat>)
    requires JoinIdFor(cols, terms, t, id) && (t.Variable? ==> t in cols || t in terms)
    requires l == Instance(cols, s) && NullFree(l)
    requires r == Instance(terms, s) || (t.Variable? ==> t in cols)
    ensures ProjectedValue(id, l, r) == TermValue(t, s)
  {
    match id
    case Left(i) => assert l[i] == TermValue(cols[i], s);
    case Right(i) => assert t !in cols && r[i] == TermValue(terms[i], s);
    case Both(i, _) => assert l[i] == TermValue(cols[i], s);
    case JoinConstant(_) =>
  }

  /** Values of satisfying substitutions come from facts, so none of them is the null marker. */
  lemma ColumnsNullFree(body: seq<KBRuleLiteral>, refs: seq<Pool>, n: nat, cols: seq<KBTerm>, s: Subst)
    requires n <= |body| && RefsFit(body, refs) && SafeOrder(body) && SatFirst(body, refs, n, s)
    requires Columns(cols) && VarsOf(cols) <= VarsUpTo(body, n)
    ensures NullFree(Instance(cols, s))
  {
    forall i | 0 <= i < |cols| ensures TermValue(cols[i], s) != NULL_VAL {
      assert cols[i] in cols && cols[i].id in VarsOf(cols);
      SatNotNull(body, refs, n, s, cols[i].id);
    }
  }

  lemma VarsUpToSubset(body: seq<KBRuleLiteral>, m: nat, n: nat)
    requires m <= n <= |body|
    ensures VarsUpTo(body, m) <= VarsUpTo(body, n)
  {
  }

  lemma WantedTerms(g: Stage, s: Subst, dest: seq<KBTerm>, ids: seq<JoinId>, l: seq<nat>, r: seq<nat>)
    requires g.Valid() && SatPrefix(g.body, g.refs, g.n + 1, s)
    requires JoinIdsFor(g.cols, g.Terms(), dest, ids) && VarsOf(dest) <= VarsUpTo(g.body, g.n + 1)
    requires l == Instance(g.cols, s) && (r == Instance(g.Terms(), s) || (r == [] && g.Lit().IsUnsafe()))
    ensures Projected(ids, l, r) == Instance(dest, s)
  {
    VarsUpToSubset(g.body, g.n, g.n + 1);
    ColumnsNullFree(g.body, g.refs, g.n + 1, g.cols, s);
    forall k | 0 <= k < |ids| ensures ProjectedValue(ids[k], l, r) == TermValue(dest[k], s) {
      var t := dest[k];
      assert t in dest && JoinIdFor(g.cols, g.Terms(), t, ids[k]);
      if t.Variable? {
        assert t.id in VarsOf(dest);
        assert t.id in VarsOf(g.cols) || t.id in VarsOf(g.Terms());
      }
      ProjectedEntry(g.cols, g.Terms(), t, ids[k], s, l, r);
    }
  }

  /** The emitted row is the projection of the substitution. */
  lemma WantedRow(g: Stage, join: Join, vs: seq<nat>, left: seq<KBTuple>, right: seq<Candidate>, x: Origin,
                  dest: seq<KBTerm>, ids: seq<JoinId>, isTrue: bool)
    requires Ready(g, join, vs, left, right) && Wanted(g, join, left, right, x)
    requires JoinIdsFor(g.cols, g.Terms(), dest, ids) && VarsOf(dest) <= VarsUpTo(g.body, g.n + 1)
    ensures RowOf(left, right, ids, isTrue, x)
      == KBTuple(Instance(dest, SubstOf(g, left, right, x)),
                 ResolveTruthValue(BodyValue(g.body, g.refs, g.n + 1, SubstOf(g, left, right, x)), isTrue))
  {
    var s := SubstOf(g, left, right, x);
    WantedSat(g, join, vs, left, right, x);
    WantedReadsOff(g, join, vs, left, right, x);
    if x.Matched? {
      WantedTerms(g, s, dest, ids, left[x.l].terms, right[x.r].tuple.terms);
    } else {
      var s' := WantedUnmatched(g, join, vs, left, right, x);
      WantedTerms(g, s, dest, ids, left[x.l].terms, []);
    }
  }
}
