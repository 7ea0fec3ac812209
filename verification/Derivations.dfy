/** What FIRST sets say about strings: derivations of sentential forms by the rules of a grammar. */
module Derivations {
  import opened FirstFollow

  type Form = seq<Symbol>

  ghost function Replaced(u: Form, i: nat, z: Form): Form
    requires i < |u|
  {
    u[..i] + z + u[i + 1..]
  }

  /** A nonterminal can be replaced by the right-hand side of its rule k, a class of terminals by its
      member k. */
  ghost predicate CanReplace(rules: seq<Rule>, x: Symbol, k: nat) {
    match x
    case Terminal(_) => false
    case NonTerminal(a) => k < |rules| && rules[k].lhs == a
    case MultiTerminal(xs) => k in xs
  }

  ghost function Replacement(rules: seq<Rule>, x: Symbol, k: nat): Form
    requires CanReplace(rules, x, k)
  {
    if x.NonTerminal? then rules[k].rhs else [Terminal(k)]
  }

  ghost predicate StepAt(rules: seq<Rule>, u: Form, v: Form, i: nat, k: nat) {
    i < |u| && CanReplace(rules, u[i], k) && v == Replaced(u, i, Replacement(rules, u[i], k))
  }

  ghost predicate Step(rules: seq<Rule>, u: Form, v: Form) {
    exists i: nat, k: nat :: StepAt(rules, u, v, i, k)
  }

  /** v is derived from u in n steps. */
  ghost predicate DerivesIn(rules: seq<Rule>, u: Form, v: Form, n: nat)
    decreases n
  {
    if n == 0 then u == v else exists w :: Step(rules, u, w) && DerivesIn(rules, w, v, n - 1)
  }

  ghost predicate DerivesForm(rules: seq<Rule>, u: Form, v: Form) {
    exists n: nat :: DerivesIn(rules, u, v, n)
  }

  // ---------------------------------------------------------------- derivations compose

  lemma {:induction false} Composed(rules: seq<Rule>, u: Form, v: Form, w: Form, n: nat, m: nat)
    requires DerivesIn(rules, u, v, n) && DerivesIn(rules, v, w, m)
    ensures DerivesIn(rules, u, w, n + m)
    decreases n
  {
    if n > 0 {
      var x :| Step(rules, u, x) && DerivesIn(rules, x, v, n - 1);
      Composed(rules, x, v, w, n - 1, m);
    }
  }

  lemma Transitive(rules: seq<Rule>, u: Form, v: Form, w: Form)
    requires DerivesForm(rules, u, v) && DerivesForm(rules, v, w)
    ensures DerivesForm(rules, u, w)
  {
    var n: nat :| DerivesIn(rules, u, v, n);
    var m: nat :| DerivesIn(rules, v, w, m);
    Composed(rules, u, v, w, n, m);
  }

  lemma Reflexive(rules: seq<Rule>, u: Form)
    ensures DerivesForm(rules, u, u)
  {
    assert DerivesIn(rules, u, u, 0);
  }

  lemma OneStep(rules: seq<Rule>, u: Form, v: Form)
    requires Step(rules, u, v)
    ensures DerivesForm(rules, u, v)
  {
    assert DerivesIn(rules, v, v, 0);
    assert DerivesIn(rules, u, v, 1);
  }

  lemma StepBefore(rules: seq<Rule>, u: Form, v: Form, q: Form)
    requires Step(rules, u, v)
    ensures Step(rules, u + q, v + q)
  {
    var i: nat, k: nat :| StepAt(rules, u, v, i, k);
    var z := Replacement(rules, u[i], k);
    assert (u + q)[..i] == u[..i] && (u + q)[i + 1..] == u[i + 1..] + q;
    assert v + q == Replaced(u + q, i, z);
    assert StepAt(rules, u + q, v + q, i, k);
  }

  /** A derivation goes on in front of other symbols. */
  lemma {:induction false} DerivesBefore(rules: seq<Rule>, u: Form, v: Form, q: Form, n: nat)
    requires DerivesIn(rules, u, v, n)
    ensures DerivesIn(rules, u + q, v + q, n)
    decreases n
  {
    if n > 0 {
      var w :| Step(rules, u, w) && DerivesIn(rules, w, v, n - 1);
      StepBefore(rules, u, w, q);
      DerivesBefore(rules, w, v, q, n - 1);
    }
  }

  /** Deriving the first symbol. */
  lemma FirstSymbol(rules: seq<Rule>, u: Form, v: Form)
    requires u != [] && DerivesForm(rules, [u[0]], v)
    ensures DerivesForm(rules, u, v + u[1..])
  {
    var n: nat :| DerivesIn(rules, [u[0]], v, n);
    DerivesBefore(rules, [u[0]], v, u[1..], n);
    assert [u[0]] + u[1..] == u;
  }

  lemma ByRule(rules: seq<Rule>, r: nat)
    requires r < |rules|
    ensures DerivesForm(rules, [NonTerminal(rules[r].lhs)], rules[r].rhs)
  {
    var u := [NonTerminal(rules[r].lhs)];
    assert Replaced(u, 0, rules[r].rhs) == rules[r].rhs;
    assert StepAt(rules, u, rules[r].rhs, 0, r);
    OneStep(rules, u, rules[r].rhs);
  }

  // ---------------------------------------------------------------- from trees to derivations

  lemma {:induction false} AllEmptyDerive(rules: seq<Rule>, u: Form, i: nat, h: nat)
    requires i <= |u| && forall j :: 0 <= j < i ==> u[j].NonTerminal? && DerivesEmpty(rules, u[j].index, h)
    ensures DerivesForm(rules, u, u[i..])
    decreases h, 2, i
  {
    hide DerivesForm, DerivesEmpty;
    if i == 0 {
      Reflexive(rules, u);
      assert u[0..] == u;
    } else {
      assert u[0].NonTerminal? && DerivesEmpty(rules, u[0].index, h);
      EmptyDerives(rules, u[0].index, h);
      FirstSymbol(rules, u, []);
      assert [] + u[1..] == u[1..];
      AllEmptyDerive(rules, u[1..], i - 1, h);
      assert u[1..][i - 1..] == u[i..];
      Transitive(rules, u, u[1..], u[i..]);
    }
  }

  lemma {:induction false} EmptyDerives(rules: seq<Rule>, a: nat, h: nat)
    requires DerivesEmpty(rules, a, h)
    ensures DerivesForm(rules, [NonTerminal(a)], [])
    decreases h, 1, 0
  {
    var r :| 0 <= r < |rules| && EmptyBy(rules, rules[r], a, h);
    AllEmptyDerive(rules, rules[r].rhs, |rules[r].rhs|, h - 1);
    assert rules[r].rhs[|rules[r].rhs|..] == [];
    ByRule(rules, r);
    Transitive(rules, [NonTerminal(a)], rules[r].rhs, []);
  }

  ghost predicate StartsWith(v: Form, t: nat) {
    v != [] && v[0] == Terminal(t)
  }

  /** Some form that begins with terminal t is derived. */
  ghost predicate DerivesFirst(rules: seq<Rule>, u: Form, t: nat) {
    exists v :: StartsWith(v, t) && DerivesForm(rules, u, v)
  }

  lemma BeginsWith(rules: seq<Rule>, a: nat, t: nat, h: nat) returns (r: nat, i: nat)
    requires Begins(rules, a, t, h)
    ensures h > 0 && r < |rules| && i < |rules[r].rhs| && rules[r].lhs == a
    ensures forall j :: 0 <= j < i ==> rules[r].rhs[j].NonTerminal? && Nullable(rules, rules[r].rhs[j].index)
    ensures match rules[r].rhs[i]
            case Terminal(x) => x == t
            case MultiTerminal(xs) => t in xs
            case NonTerminal(x) => Begins(rules, x, t, h - 1)
  {
    r, i :| 0 <= r < |rules| && 0 <= i < |rules[r].rhs| && BeginsBy(rules, rules[r], i, a, t, h);
  }

  lemma SymbolDerives(rules: seq<Rule>, x: Symbol, t: nat)
    requires match x case Terminal(y) => y == t case MultiTerminal(ys) => t in ys case NonTerminal(_) => false
    ensures DerivesFirst(rules, [x], t)
  {
    var v := [Terminal(t)];
    if x.MultiTerminal? {
      assert Replaced([x], 0, v) == v;
      assert StepAt(rules, [x], v, 0, t);
      OneStep(rules, [x], v);
    } else {
      Reflexive(rules, v);
    }
    assert StartsWith(v, t);
  }

  lemma {:induction false} BeginsDerives(rules: seq<Rule>, a: nat, t: nat, h: nat)
    requires Begins(rules, a, t, h)
    ensures DerivesFirst(rules, [NonTerminal(a)], t)
    decreases h
  {
    hide Begins, DerivesForm, Nullable;
    var r, i := BeginsWith(rules, a, t, h);
    var rhs := rules[r].rhs;
    var k := CommonHeight(rules, rhs, i);
    AllEmptyDerive(rules, rhs, i, k);
    ByRule(rules, r);
    Transitive(rules, [NonTerminal(a)], rhs, rhs[i..]);
    if rhs[i].NonTerminal? {
      BeginsDerives(rules, rhs[i].index, t, h - 1);
    } else {
      SymbolDerives(rules, rhs[i], t);
    }
    var v :| StartsWith(v, t) && DerivesForm(rules, [rhs[i]], v);
    FirstSymbol(rules, rhs[i..], v);
    Transitive(rules, [NonTerminal(a)], rhs[i..], v + rhs[i..][1..]);
    assert StartsWith(v + rhs[i..][1..], t);
  }

  // ---------------------------------------------------------------- from derivations to trees

  /** The symbols before i vanish. */
  ghost predicate VanishBefore(rules: seq<Rule>, u: Form, i: nat)
    requires i <= |u|
  {
    forall j :: 0 <= j < i ==> u[j].NonTerminal? && Nullable(rules, u[j].index)
  }

  ghost predicate SymbolBegins(rules: seq<Rule>, x: Symbol, t: nat) {
    match x
    case Terminal(y) => t == y
    case MultiTerminal(ys) => t in ys
    case NonTerminal(a) => CanBegin(rules, a, t)
  }

  ghost predicate BegunAt(rules: seq<Rule>, u: Form, i: int, t: nat) {
    0 <= i < |u| && VanishBefore(rules, u, i) && SymbolBegins(rules, u[i], t)
  }

  ghost predicate FormBegins(rules: seq<Rule>, u: Form, t: nat) {
    exists i :: BegunAt(rules, u, i, t)
  }

  lemma TerminalStays(rules: seq<Rule>, k: nat)
    ensures !VanishBefore(rules, [Terminal(k)], 1)
  {
    assert [Terminal(k)][0] == Terminal(k);
  }

  /** A replacement that vanishes is that of a nonterminal that vanishes. */
  lemma ReplacementVanishes(rules: seq<Rule>, x: Symbol, k: nat)
    requires CanReplace(rules, x, k) && VanishBefore(rules, Replacement(rules, x, k), |Replacement(rules, x, k)|)
    ensures x.NonTerminal? && Nullable(rules, x.index)
  {
    TerminalStays(rules, k);
    if x.NonTerminal? {
      var h := CommonHeight(rules, rules[k].rhs, |rules[k].rhs|);
      assert EmptyBy(rules, rules[k], x.index, h + 1);
      assert DerivesEmpty(rules, x.index, h + 1);
    }
  }

  lemma Entries(u: Form, i: nat, z: Form)
    requires i < |u|
    ensures var v := Replaced(u, i, z);
            && |v| == |u| - 1 + |z|
            && (forall j :: 0 <= j < i ==> u[j] == v[j])
            && (forall j :: 0 <= j < |z| ==> z[j] == v[i + j])
            && (forall j :: i < j < |u| ==> u[j] == v[j - 1 + |z|])
  {
  }

  /** The symbols before i vanish after a step, wherever i lies in the replacement. */
  lemma VanishParts(rules: seq<Rule>, u: Form, i: nat, z: Form, n: nat)
    requires i < |u| && n <= |Replaced(u, i, z)| && VanishBefore(rules, Replaced(u, i, z), n)
    ensures i <= n ==> VanishBefore(rules, u, i)
    ensures i <= n <= i + |z| ==> VanishBefore(rules, z, n - i)
    ensures i + |z| <= n ==> VanishBefore(rules, z, |z|) && forall j :: i < j <= n - |z| ==>
      u[j].NonTerminal? && Nullable(rules, u[j].index)
  {
    hide Nullable, Replaced;
    Entries(u, i, z);
  }

  /** The symbols that vanish after a step vanished before it. */
  lemma VanishBack(rules: seq<Rule>, u: Form, v: Form, i: nat, k: nat, n: nat)
    requires StepAt(rules, u, v, i, k) && i + |Replacement(rules, u[i], k)| <= n <= |v| && VanishBefore(rules, v, n)
    ensures n + 1 - |Replacement(rules, u[i], k)| <= |u|
    ensures VanishBefore(rules, u, n + 1 - |Replacement(rules, u[i], k)|)
  {
    var z := Replacement(rules, u[i], k);
    VanishParts(rules, u, i, z, n);
    ReplacementVanishes(rules, u[i], k);
    hide Nullable;
  }

  lemma VanishSame(rules: seq<Rule>, u: Form, v: Form, n: nat)
    requires n <= |u| && n <= |v| && VanishBefore(rules, v, n) && forall m :: 0 <= m < n ==> u[m] == v[m]
    ensures VanishBefore(rules, u, n)
  {
  }

  /** What begins a replacement begins the symbol that it replaces. */
  lemma BeginsInside(rules: seq<Rule>, x: Symbol, k: nat, j: nat, t: nat)
    requires CanReplace(rules, x, k) && j < |Replacement(rules, x, k)|
    requires VanishBefore(rules, Replacement(rules, x, k), j) && SymbolBegins(rules, Replacement(rules, x, k)[j], t)
    ensures SymbolBegins(rules, x, t)
  {
    if x.NonTerminal? {
      ContributionBegins(rules, k, j, t);
    }
  }

  /** What begins a form after a step began it before, by position j of the form. */
  lemma BegunBack(rules: seq<Rule>, u: Form, v: Form, i: nat, k: nat, j: nat, t: nat)
    requires StepAt(rules, u, v, i, k) && BegunAt(rules, v, j, t)
    ensures var m := |Replacement(rules, u[i], k)|;
            BegunAt(rules, u, if j < i then j else if j < i + m then i else j + 1 - m, t)
  {
    hide CanReplace, SymbolBegins, Replaced, Nullable, VanishBefore;
    var z := Replacement(rules, u[i], k);
    Entries(u, i, z);
    if j < i {
      VanishSame(rules, u, v, j);
    } else if j < i + |z| {
      VanishParts(rules, u, i, z, j);
      assert z[j - i] == v[j];
      BeginsInside(rules, u[i], k, j - i, t);
    } else {
      VanishBack(rules, u, v, i, k, j);
    }
  }

  lemma {:induction false} DerivedEmptyVanishes(rules: seq<Rule>, u: Form, n: nat)
    requires DerivesIn(rules, u, [], n)
    ensures VanishBefore(rules, u, |u|)
    decreases n
  {
    if n > 0 {
      var w :| Step(rules, u, w) && DerivesIn(rules, w, [], n - 1);
      DerivedEmptyVanishes(rules, w, n - 1);
      var i: nat, k: nat :| StepAt(rules, u, w, i, k);
      Entries(u, i, Replacement(rules, u[i], k));
      VanishBack(rules, u, w, i, k, |w|);
    }
  }

  lemma {:induction false} DerivedFirstBegins(rules: seq<Rule>, u: Form, v: Form, n: nat, t: nat)
    requires DerivesIn(rules, u, v, n) && StartsWith(v, t)
    ensures FormBegins(rules, u, t)
    decreases n
  {
    if n == 0 {
      assert BegunAt(rules, u, 0, t);
    } else {
      var w :| Step(rules, u, w) && DerivesIn(rules, w, v, n - 1);
      DerivedFirstBegins(rules, w, v, n - 1, t);
      var i: nat, k: nat :| StepAt(rules, u, w, i, k);
      var j :| BegunAt(rules, w, j, t);
      BegunBack(rules, u, w, i, k, j, t);
    }
  }

  // ---------------------------------------------------------------- what the sets mean

  /** The marked nonterminals are those that derive the empty string. */
  lemma LambdaMeansDerivesEmpty(rules: seq<Rule>, n: nat, lambda: seq<bool>, a: nat)
    requires IsGrammar(rules, n) && LambdaClosed(rules, n, lambda) && LambdaLeast(rules, n, lambda) && a < n
    ensures lambda[a] <==> DerivesForm(rules, [NonTerminal(a)], [])
  {
    LambdaMeansNullable(rules, n, lambda, a);
    if h: nat :| DerivesEmpty(rules, a, h) {
      EmptyDerives(rules, a, h);
    }
    if k: nat :| DerivesIn(rules, [NonTerminal(a)], [], k) {
      DerivedEmptyVanishes(rules, [NonTerminal(a)], k);
    }
  }

  /** The FIRST set of a nonterminal holds exactly the terminals with which a string that it derives begins. */
  lemma FirstMeansDerives(rules: seq<Rule>, n: nat, lambda: seq<bool>, first: seq<set<nat>>, a: nat, t: nat)
    requires IsGrammar(rules, n) && LambdaClosed(rules, n, lambda) && LambdaLeast(rules, n, lambda)
    requires FirstClosed(rules, n, lambda, first) && FirstLeast(rules, n, lambda, first) && a < n
    ensures t in first[a] <==> DerivesFirst(rules, [NonTerminal(a)], t)
  {
    hide LambdaClosed, LambdaLeast, FirstLeast;
    FirstMeansBegins(rules, n, lambda, first, a, t);
    if h: nat :| Begins(rules, a, t, h) {
      BeginsDerives(rules, a, t, h);
    }
    if v :| StartsWith(v, t) && DerivesForm(rules, [NonTerminal(a)], v) {
      var k: nat :| DerivesIn(rules, [NonTerminal(a)], v, k);
      DerivedFirstBegins(rules, [NonTerminal(a)], v, k, t);
    }
  }
}
