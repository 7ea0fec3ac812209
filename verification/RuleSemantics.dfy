/** What a rule means: the substitutions that satisfy its body, and the head tuple of each. */
module RuleSemantics {
  import opened TruthValues
  import opened KBLiterals
  import opened KBRelations

  /** A substitution of ground values for variables. */
  type Subst = map<nat, nat>

  ghost function TermValue(t: KBTerm, s: Subst): nat {
    match t
    case Constant(c) => c
    case Variable(v) => if v in s then s[v] else NULL_VAL
  }

  ghost function Instance(terms: seq<KBTerm>, s: Subst): seq<nat> {
    seq(|terms|, k requires 0 <= k < |terms| => TermValue(terms[k], s))
  }

  ghost predicate Known(pool: Pool, k: seq<nat>) {
    k in pool && pool[k] != Unknown
  }

  /** Selection::matchesTruthValue. */
  predicate MatchesTruthValue(valueSet: set<TruthValue>, v: TruthValue) {
    valueSet == {} || (valueSet != {Unknown} && v in valueSet)
  }

  // ---------------------------------------------------------------- body literals

  ghost predicate KeyBelowAt(vars: set<nat>, g: Subst, s: Subst, v: nat) {
    && v in g && v in s && g[v] < s[v]
    && forall u :: u in vars && u < v ==> u in g && u in s && g[u] == s[u]
  }

  /** The order of join keys: the least variable on which g and s differ decides. */
  ghost predicate KeyBelow(vars: set<nat>, g: Subst, s: Subst) {
    exists v :: v in vars && KeyBelowAt(vars, g, s, v)
  }

  /** g picks a known fact of the pool that is an instance of the literal. */
  ghost predicate Picks(terms: seq<KBTerm>, pool: Pool, g: Subst) {
    g.Keys == VarsOf(terms) && Known(pool, Instance(terms, g))
  }

  /** The scan of an unknown-aware join reaches s unless s lies below every known instance. */
  ghost predicate Reached(terms: seq<KBTerm>, pool: Pool, s: Subst) {
    (exists g :: Picks(terms, pool, g)) ==>
      exists g :: Picks(terms, pool, g) && !KeyBelow(VarsOf(terms), s, g)
  }

  /** s satisfies the literal: the fact it picks is known with an accepted value, or the literal
      accepts unknown, nothing is known about the fact, and the scan reaches s. */
  ghost predicate SatLiteral(l: KBRuleLiteral, pool: Pool, s: Subst) {
    && l.lit.Vars() <= s.Keys
    && var k := Instance(l.lit.terms, s);
       if Known(pool, k) then MatchesTruthValue(l.logicSet, pool[k])
       else l.IsUnsafe() && Reached(l.lit.terms, pool, s)
  }

  // ---------------------------------------------------------------- bodies and heads

  ghost function VarsUpTo(body: seq<KBRuleLiteral>, n: nat): set<nat>
    requires n <= |body|
  {
    if n == 0 then {} else VarsUpTo(body, n - 1) + body[n - 1].lit.Vars()
  }

  ghost predicate SatFirst(body: seq<KBRuleLiteral>, refs: seq<Pool>, n: nat, s: Subst)
    requires n <= |body| == |refs|
  {
    forall i :: 0 <= i < n ==> SatLiteral(body[i], refs[i], s)
  }

  /** s assigns exactly the variables of the first n literals and satisfies each of them. */
  ghost predicate SatPrefix(body: seq<KBRuleLiteral>, refs: seq<Pool>, n: nat, s: Subst)
    requires n <= |body| == |refs|
  {
    s.Keys == VarsUpTo(body, n) && SatFirst(body, refs, n, s)
  }

  /** The value of the first n literals: the first fact keeps its own value, every later one counts
      as true or inconsistent, and the conjunction of them all is taken. */
  ghost function BodyValue(body: seq<KBRuleLiteral>, refs: seq<Pool>, n: nat, s: Subst): TruthValue
    requires 0 < n <= |body| == |refs|
  {
    var k := Instance(body[n - 1].lit.terms, s);
    var v := if Known(refs[n - 1], k) then refs[n - 1][k] else True;
    if n == 1 then v
    else if Known(refs[n - 1], k) then Conjunction(BodyValue(body, refs, n - 1, s), ResolveToTrueOrIncons(v))
    else BodyValue(body, refs, n - 1, s)
  }

  /** The first literal is safe, and unknown-aware literals bind no variable of their own. */
  ghost predicate SafeOrder(body: seq<KBRuleLiteral>) {
    && body != [] && !body[0].IsUnsafe()
    && forall i :: 0 <= i < |body| && body[i].IsUnsafe() ==> body[i].lit.Vars() <= VarsUpTo(body, i)
  }

  /** The rules the evaluator accepts: the first literal is safe, every variable of an unknown-aware
      literal is bound before it, and every head variable is bound by the body. */
  ghost predicate WellFormedRule(rule: KBRule) {
    && rule.head.Valid() && SafeOrder(rule.body)
    && (forall i :: 0 <= i < |rule.body| ==> rule.body[i].lit.Valid())
    && rule.head.Vars() <= VarsUpTo(rule.body, |rule.body|)
    && Constant(NULL_VAL) !in rule.head.terms
  }

  /** The pools fit the body: rows of the right length, without null. */
  ghost predicate PoolFits(l: KBRuleLiteral, pool: Pool) {
    forall k :: k in pool ==> |k| == |l.lit.terms| && NullFree(k)
  }

  ghost predicate RefsFit(body: seq<KBRuleLiteral>, refs: seq<Pool>) {
    |refs| == |body| && forall i :: 0 <= i < |body| ==> PoolFits(body[i], refs[i])
  }

  ghost predicate SatBody(rule: KBRule, refs: seq<Pool>, s: Subst)
    requires |refs| == |rule.body|
  {
    SatPrefix(rule.body, refs, |rule.body|, s)
  }

  ghost function HeadTuple(rule: KBRule, refs: seq<Pool>, s: Subst): KBTuple
    requires rule.body != [] && |refs| == |rule.body|
  {
    KBTuple(Instance(rule.head.terms, s), ResolveTruthValue(BodyValue(rule.body, refs, |rule.body|, s), !rule.negated))
  }

  ghost predicate Derives(rule: KBRule, refs: seq<Pool>, t: KBTuple)
    requires rule.body != [] && |refs| == |rule.body|
  {
    exists s :: SatBody(rule, refs, s) && HeadTuple(rule, refs, s) == t
  }

  // ---------------------------------------------------------------- what values come out

  ghost predicate InconsUsed(body: seq<KBRuleLiteral>, refs: seq<Pool>, i: nat, s: Subst)
    requires i < |body| == |refs|
  {
    var k := Instance(body[i].lit.terms, s);
    k in refs[i] && refs[i][k] == Incons
  }

  /** Some fact that the body uses is inconsistent. */
  ghost predicate UsesIncons(body: seq<KBRuleLiteral>, refs: seq<Pool>, n: nat, s: Subst)
    requires n <= |body| == |refs|
  {
    exists i :: 0 <= i < n && InconsUsed(body, refs, i, s)
  }

  /** The value of a body is False exactly when the first fact is, whatever the other facts are;
      otherwise it is Incons exactly when some used fact is, and True in the remaining case. */
  lemma {:induction false} BodyValueIs(body: seq<KBRuleLiteral>, refs: seq<Pool>, n: nat, s: Subst)
    requires 0 < n <= |body| == |refs| && SatFirst(body, refs, n, s)
    requires !body[0].IsUnsafe()
    ensures var first := refs[0][Instance(body[0].lit.terms, s)];
            BodyValue(body, refs, n, s)
            == if first == False then False else if UsesIncons(body, refs, n, s) then Incons else True
  {
    var k := Instance(body[n - 1].lit.terms, s);
    assert SatLiteral(body[n - 1], refs[n - 1], s) && SatLiteral(body[0], refs[0], s);
    assert InconsUsed(body, refs, n - 1, s) <==> Known(refs[n - 1], k) && refs[n - 1][k] == Incons;
    if n > 1 {
      BodyValueIs(body, refs, n - 1, s);
      if UsesIncons(body, refs, n, s) && !(Known(refs[n - 1], k) && refs[n - 1][k] == Incons) {
        var i :| 0 <= i < n && InconsUsed(body, refs, i, s);
        assert i < n - 1;
      }
    }
  }

  /** The value of a derived head. With a plain head it is False exactly when the first fact is, and with
      a negated head True exactly then; otherwise it is Incons exactly when some used fact is, and in the
      remaining case True with a plain head and False with a negated one. */
  lemma HeadValueIs(rule: KBRule, refs: seq<Pool>, s: Subst)
    requires rule.body != [] && |refs| == |rule.body| && SatBody(rule, refs, s) && Unknown !in rule.body[0].logicSet
    ensures Instance(rule.body[0].lit.terms, s) in refs[0]
    ensures var first, v := refs[0][Instance(rule.body[0].lit.terms, s)], HeadTuple(rule, refs, s).value;
            if first == False then v == (if rule.negated then True else False)
            else if UsesIncons(rule.body, refs, |rule.body|, s) then v == Incons
            else v == (if rule.negated then False else True)
  {
    assert SatLiteral(rule.body[0], refs[0], s);
    BodyValueIs(rule.body, refs, |rule.body|, s);
  }

  ghost predicate IsHeadTuple(rule: KBRule, refs: seq<Pool>, s: Subst, t: KBTuple)
    requires rule.body != [] && |refs| == |rule.body|
  {
    var k := Instance(rule.body[0].lit.terms, s);
    && t.terms == Instance(rule.head.terms, s)
    && if k in refs[0] && refs[0][k] == False then t.value == (if rule.negated then True else False)
       else if UsesIncons(rule.body, refs, |rule.body|, s) then t.value == Incons
       else t.value == (if rule.negated then False else True)
  }

  /** What a rule derives, in plain terms. */
  lemma DerivesMeans(rule: KBRule, refs: seq<Pool>, t: KBTuple)
    requires rule.body != [] && |refs| == |rule.body| && Unknown !in rule.body[0].logicSet
    ensures Derives(rule, refs, t) <==> exists s :: SatBody(rule, refs, s) && IsHeadTuple(rule, refs, s, t)
  {
    forall s | SatBody(rule, refs, s) ensures HeadTuple(rule, refs, s) == t <==> IsHeadTuple(rule, refs, s, t) {
      HeadValueIs(rule, refs, s);
    }
  }

  // ---------------------------------------------------------------- which values a literal accepts

  /** When a literal holds. A known fact is accepted if the literal names no values, or if it names its
      value and is not for unknown only. Without a known fact the literal must name Unknown, and the
      scan must reach the instance. */
  lemma SatLiteralMeans(l: KBRuleLiteral, pool: Pool, s: Subst)
    requires VarsOf(l.lit.terms) <= s.Keys
    ensures var k := Instance(l.lit.terms, s);
            SatLiteral(l, pool, s) <==>
              if k in pool && pool[k] != Unknown
              then l.logicSet == {} || (l.logicSet != {Unknown} && pool[k] in l.logicSet)
              else Unknown in l.logicSet && Reached(l.lit.terms, pool, s)
  {
    hide Reached;
  }

  /** A positive literal accepts exactly the facts that are true or inconsistent, a negated one exactly
      those that are false or inconsistent; neither accepts what is not known. */
  lemma LiteralsAccept(l: KBRuleLiteral, pool: Pool, s: Subst)
    requires VarsOf(l.lit.terms) <= s.Keys
    ensures var k := Instance(l.lit.terms, s);
            && (l.logicSet == {True, Incons} ==>
                  (SatLiteral(l, pool, s) <==> k in pool && (pool[k] == True || pool[k] == Incons)))
            && (l.logicSet == {False, Incons} ==>
                  (SatLiteral(l, pool, s) <==> k in pool && (pool[k] == False || pool[k] == Incons)))
            && (l.logicSet == {Unknown} && k in pool && pool[k] != Unknown ==> !SatLiteral(l, pool, s))
  {
    hide Reached;
  }

  /** TruthValueSet::getNegation: true and false trade places. */
  function SetNegation(values: set<TruthValue>): set<TruthValue> {
    if True in values then if False in values then values else values - {True} + {False}
    else if False in values then values - {False} + {True}
    else values
  }

  /** The values that a literal of a program accepts: p, !p, p in values or !p in values. */
  function ConvertedSet(negated: bool, values: set<TruthValue>): set<TruthValue> {
    if negated && values == {} then {False, Incons}
    else if negated then SetNegation(values)
    else if values == {} then {True, Incons}
    else values
  }

  /** A literal of a program is unknown-aware exactly if it asks for unknown, and accepts a known fact exactly
      if the value of the fact, true and false exchanged for a negated literal, is asked for; without values
      that is true or inconsistent. */
  lemma ConvertedLiteralAccepts(l: KBRuleLiteral, pool: Pool, s: Subst, negated: bool, values: set<TruthValue>)
    requires VarsOf(l.lit.terms) <= s.Keys && l.logicSet == ConvertedSet(negated, values)
    ensures l.IsUnsafe() <==> Unknown in values
    ensures var k := Instance(l.lit.terms, s);
            k in pool && pool[k] != Unknown ==>
              var v := if !negated || pool[k] == Incons then pool[k] else if pool[k] == True then False else True;
              SatLiteral(l, pool, s) <==> if values == {} then v == True || v == Incons else v in values
  {
    hide Reached;
  }

  // ---------------------------------------------------------------- what a literal depends on

  ghost predicate Agree(vars: set<nat>, s: Subst, t: Subst) {
    forall v :: v in vars ==> v in s && v in t && s[v] == t[v]
  }

  lemma InstanceAgrees(terms: seq<KBTerm>, s: Subst, t: Subst)
    requires Agree(VarsOf(terms), s, t)
    ensures Instance(terms, s) == Instance(terms, t)
  {
    forall i | 0 <= i < |terms| ensures TermValue(terms[i], s) == TermValue(terms[i], t) {
      assert terms[i].Variable? ==> terms[i].id in VarsOf(terms);
    }
  }

  lemma KeyBelowAgrees(vars: set<nat>, s: Subst, t: Subst, g: Subst)
    requires Agree(vars, s, t) && KeyBelow(vars, s, g)
    ensures KeyBelow(vars, t, g)
  {
    var v :| v in vars && KeyBelowAt(vars, s, g, v);
    assert KeyBelowAt(vars, t, g, v);
  }

  lemma SatLiteralAgrees(l: KBRuleLiteral, pool: Pool, s: Subst, t: Subst)
    requires Agree(l.lit.Vars(), s, t) && SatLiteral(l, pool, s)
    ensures SatLiteral(l, pool, t)
  {
    var vars := l.lit.Vars();
    assert vars <= t.Keys;
    InstanceAgrees(l.lit.terms, s, t);
    if Reached(l.lit.terms, pool, s) && exists g :: Picks(l.lit.terms, pool, g) {
      var g :| Picks(l.lit.terms, pool, g) && !KeyBelow(vars, s, g);
      if KeyBelow(vars, t, g) {
        KeyBelowAgrees(vars, t, s, g);
      }
    }
  }

  lemma VarsUpToContains(body: seq<KBRuleLiteral>, n: nat, i: nat)
    requires i < n <= |body|
    ensures body[i].lit.Vars() <= VarsUpTo(body, n)
  {
  }

  lemma SatFirstAgrees(body: seq<KBRuleLiteral>, refs: seq<Pool>, n: nat, s: Subst, t: Subst)
    requires n <= |body| == |refs| && Agree(VarsUpTo(body, n), s, t) && SatFirst(body, refs, n, s)
    ensures SatFirst(body, refs, n, t)
  {
    forall i | 0 <= i < n ensures SatLiteral(body[i], refs[i], t) {
      VarsUpToContains(body, n, i);
      SatLiteralAgrees(body[i], refs[i], s, t);
    }
  }

  lemma BodyValueAgrees(body: seq<KBRuleLiteral>, refs: seq<Pool>, n: nat, s: Subst, t: Subst)
    requires 0 < n <= |body| == |refs| && Agree(VarsUpTo(body, n), s, t)
    ensures BodyValue(body, refs, n, s) == BodyValue(body, refs, n, t)
  {
    InstanceAgrees(body[n - 1].lit.terms, s, t);
    if n > 1 {
      BodyValueAgrees(body, refs, n - 1, s, t);
    }
  }

  /** A variable of a literal that picks a known fact has a value of that fact. */
  lemma KnownNotNull(l: KBRuleLiteral, pool: Pool, s: Subst, v: nat)
    requires PoolFits(l, pool) && Known(pool, Instance(l.lit.terms, s)) && v in l.lit.Vars() && v in s
    ensures s[v] != NULL_VAL
  {
    var k := Instance(l.lit.terms, s);
    assert Variable(v) in l.lit.terms;
    var i :| 0 <= i < |l.lit.terms| && l.lit.terms[i] == Variable(v);
    assert k[i] == TermValue(l.lit.terms[i], s);
  }

  /** Where a variable of a body gets its value: from a known fact of a literal. */
  lemma {:induction false} SatNotNull(body: seq<KBRuleLiteral>, refs: seq<Pool>, n: nat, s: Subst, v: nat)
    requires n <= |body| && RefsFit(body, refs) && SafeOrder(body) && SatFirst(body, refs, n, s)
    requires v in VarsUpTo(body, n)
    ensures v in s && s[v] != NULL_VAL
  {
    if v in VarsUpTo(body, n - 1) {
      SatNotNull(body, refs, n - 1, s, v);
    } else {
      assert SatLiteral(body[n - 1], refs[n - 1], s);
      KnownNotNull(body[n - 1], refs[n - 1], s, v);
    }
  }
}
