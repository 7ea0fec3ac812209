/** Terms, tuples and literals of the knowledge base (src/KB/KBTerm.h, KBTuple.h, KBLiteral.cc,
    KBRuleLiteral.h, KBHeadLiteral.h, KBRule.h). A term is the 32-bit number it is interned to. */
module KBLiterals {
  import opened TruthValues
  import opened Sequences

  /** The marker for a missing value. */
  const NULL_VAL := 0xFFFF_FFFF

  datatype KBTerm = Variable(id: nat) | Constant(val: nat)

  datatype KBTuple = KBTuple(terms: seq<nat>, value: TruthValue)

  ghost predicate NullFree(terms: seq<nat>) {
    forall i :: 0 <= i < |terms| ==> terms[i] != NULL_VAL
  }

  ghost function VarsOf(terms: seq<KBTerm>): set<nat> {
    set t | t in terms && t.Variable? :: t.id
  }

  /** `l` lists the positions of variable v in `terms`, in order. */
  ghost predicate IsIndexList(terms: seq<KBTerm>, v: nat, l: seq<nat>) {
    && (forall i, j :: 0 <= i < j < |l| ==> l[i] < l[j])
    && (forall k :: k in l <==> 0 <= k < |terms| && terms[k] == Variable(v))
  }

  ghost predicate IsVarIndices(terms: seq<KBTerm>, m: map<nat, seq<nat>>) {
    m.Keys == VarsOf(terms) && forall v :: v in m ==> m[v] != [] && IsIndexList(terms, v, m[v])
  }

  lemma ExtendIndexList(terms: seq<KBTerm>, t: KBTerm, v: nat, l: seq<nat>)
    requires IsIndexList(terms, v, l)
    ensures IsIndexList(terms + [t], v, if t == Variable(v) then l + [|terms|] else l)
  {
    var l' := if t == Variable(v) then l + [|terms|] else l;
    forall i, j | 0 <= i < j < |l'| ensures l'[i] < l'[j] {
      assert l'[i] in l;
    }
  }

  lemma VarsOfAppend(terms: seq<KBTerm>, t: KBTerm)
    ensures VarsOf(terms + [t]) == VarsOf(terms) + (if t.Variable? then {t.id} else {})
  {
    assert forall x :: x in terms + [t] <==> x in terms || x == t;
  }

  lemma ExtendIndices(terms: seq<KBTerm>, t: KBTerm, m: map<nat, seq<nat>>, l: seq<nat>)
    requires IsVarIndices(terms, m)
    requires t.Variable? ==> l == (if t.id in m then m[t.id] else []) + [|terms|]
    ensures IsVarIndices(terms + [t], if t.Variable? then m[t.id := l] else m)
  {
    VarsOfAppend(terms, t);
    var m' := if t.Variable? then m[t.id := l] else m;
    forall v | v in m' ensures m'[v] != [] && IsIndexList(terms + [t], v, m'[v]) {
      if v in m {
        ExtendIndexList(terms, t, v, m[v]);
      } else {
        assert v !in VarsOf(terms);
        ExtendIndexList(terms, t, v, []);
      }
    }
  }

  lemma NoIndices()
    ensures IsVarIndices([], map[])
  {
    assert VarsOf([]) == {};
  }

  method CreateSameVarsIndices(terms: seq<KBTerm>) returns (indices: map<nat, seq<nat>>)
    ensures IsVarIndices(terms, indices)
  {
    hide IsVarIndices;
    indices := map[];
    NoIndices();
    for i := 0 to |terms|
      invariant IsVarIndices(terms[..i], indices)
    {
      var t := terms[i];
      assert terms[..i + 1] == terms[..i] + [t] && |terms[..i]| == i;
      if t.Variable? {
        if t.id !in indices {
          ExtendIndices(terms[..i], t, indices, [i]);
          indices := indices[t.id := [i]];
        } else {
          ExtendIndices(terms[..i], t, indices, indices[t.id] + [i]);
          indices := indices[t.id := indices[t.id] + [i]];
        }
      } else {
        ExtendIndices(terms[..i], t, indices, []);
      }
    }
    assert terms[..|terms|] == terms;
  }

  /** The variables of `terms` without repetition. */
  ghost predicate IsVarSet(terms: seq<KBTerm>, vars: seq<nat>) {
    Distinct(vars) && forall v :: v in vars <==> v in VarsOf(terms)
  }

  method MakeVarSet(terms: seq<KBTerm>) returns (vars: seq<nat>)
    ensures IsVarSet(terms, vars)
  {
    vars := [];
    for i := 0 to |terms|
      invariant IsVarSet(terms[..i], vars)
    {
      var t := terms[i];
      assert terms[..i + 1] == terms[..i] + [t];
      if t.Variable? && t.id !in vars {
        vars := vars + [t.id];
      }
    }
    assert terms[..|terms|] == terms;
  }

  datatype KBLiteral = KBLiteral(terms: seq<KBTerm>, varIndices: map<nat, seq<nat>>, varSet: seq<nat>) {
    ghost predicate Valid() {
      IsVarIndices(terms, varIndices) && IsVarSet(terms, varSet)
    }

    ghost function Vars(): set<nat> { VarsOf(terms) }
  }

  method MakeLiteral(terms: seq<KBTerm>) returns (literal: KBLiteral)
    ensures literal.Valid() && literal.terms == terms
  {
    var indices := CreateSameVarsIndices(terms);
    var vars := MakeVarSet(terms);
    literal := KBLiteral(terms, indices, vars);
  }

  /** A body literal: the relation it reads and the truth values it accepts. */
  datatype KBRuleLiteral = KBRuleLiteral(relId: nat, lit: KBLiteral, logicSet: set<TruthValue>) {
    predicate IsUnsafe() { Unknown in logicSet }
  }

  /** A rule without disjunction and without predicate functions. */
  datatype KBRule = KBRule(headRelId: nat, head: KBLiteral, negated: bool, body: seq<KBRuleLiteral>)
}
