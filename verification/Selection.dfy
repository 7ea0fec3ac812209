/** Instances of literals and the row selection of src/Eval/Selection.h. */
module Selections {
  import opened TruthValues
  import opened KBLiterals
  import opened RuleSemantics

  // ---------------------------------------------------------------- rows and substitutions

  /** The row has the constants of the literal, and equal values where the literal repeats a variable. */
  ghost predicate Consistent(terms: seq<KBTerm>, row: seq<nat>) {
    && |row| == |terms|
    && (forall i :: 0 <= i < |terms| && terms[i].Constant? ==> row[i] == terms[i].val)
    && (forall i, j :: 0 <= i < j < |terms| && terms[i] == terms[j] ==> row[i] == row[j])
  }

  ghost function PositionOf(terms: seq<KBTerm>, v: nat): (i: nat)
    requires v in VarsOf(terms)
    ensures i < |terms| && terms[i] == Variable(v)
  {
    var i: nat :| i < |terms| && terms[i] == Variable(v);
    i
  }

  /** The substitution a row stands for. */
  ghost function GroundOf(terms: seq<KBTerm>, row: seq<nat>): Subst
    requires |row| == |terms|
  {
    map v | v in VarsOf(terms) :: row[PositionOf(terms, v)]
  }

  lemma GroundInstance(terms: seq<KBTerm>, row: seq<nat>)
    requires Consistent(terms, row)
    ensures Instance(terms, GroundOf(terms, row)) == row
    ensures forall i :: 0 <= i < |terms| && terms[i].Variable? ==>
      terms[i].id in GroundOf(terms, row) && GroundOf(terms, row)[terms[i].id] == row[i]
  {
    var s := GroundOf(terms, row);
    forall i | 0 <= i < |terms| ensures TermValue(terms[i], s) == row[i] {
      if terms[i].Variable? {
        assert terms[i].id in VarsOf(terms);
        var j := PositionOf(terms, terms[i].id);
        assert terms[j] == terms[i];
        if i < j { assert row[i] == row[j]; }
      }
    }
  }

  lemma InstanceConsistent(terms: seq<KBTerm>, s: Subst)
    requires VarsOf(terms) <= s.Keys
    ensures Consistent(terms, Instance(terms, s))
    ensures GroundOf(terms, Instance(terms, s)) == map v | v in VarsOf(terms) :: s[v]
  {
  }

  // ---------------------------------------------------------------- Selection

  /** The keys of a std::map come in increasing order. */
  ghost predicate Ascending(vs: seq<nat>) {
    forall i, j :: 0 <= i < j < |vs| ==> vs[i] < vs[j]
  }

  lemma Least(s: set<nat>) returns (m: nat)
    requires s != {}
    ensures m in s && forall x :: x in s ==> m <= x
  {
    m :| m in s;
    var rest := s - {m};
    assert forall x :: x in s ==> x == m || x in rest;
    if rest != {} {
      var k := Least(rest);
      m := if k < m then k else m;
    }
  }

  method KeysInOrder(keys: set<nat>) returns (vs: seq<nat>)
    ensures Ascending(vs) && forall v :: v in vs <==> v in keys
  {
    vs := [];
    var rest := keys;
    while rest != {}
      invariant Ascending(vs) && forall v :: v in keys <==> v in vs || v in rest
      invariant forall v, w :: v in vs && w in rest ==> v < w
      decreases rest
    {
      ghost var least := Least(rest);
      var m :| m in rest && forall x :: x in rest ==> m <= x;
      forall i | 0 <= i < |vs| ensures vs[i] < m {
        assert vs[i] in vs;
      }
      vs := vs + [m];
      rest := rest - {m};
    }
  }

  datatype Selection = Selection(attrConstraint: seq<seq<nat>>, valConstraint: seq<(nat, nat)>,
                                 valueSet: set<TruthValue>) {
    predicate CheckAttrConstraints(terms: seq<nat>) {
      forall c :: c in attrConstraint && |c| > 1 ==>
        forall idx :: idx in c ==> c[0] < |terms| && idx < |terms| && terms[idx] == terms[c[0]]
    }

    predicate CheckValConstraints(terms: seq<nat>) {
      forall c :: c in valConstraint ==> c.0 < |terms| && terms[c.0] == c.1
    }

    predicate Selectable(terms: seq<nat>) {
      CheckAttrConstraints(terms) && CheckValConstraints(terms)
    }

    predicate HasUnknown() { Unknown in valueSet }

    predicate HasOnlyUnknown() { valueSet == {Unknown} }
  }

  /** The selection lets exactly the instances of the literal through. */
  ghost predicate SelectsInstances(sel: Selection, l: KBRuleLiteral) {
    && sel.valueSet == l.logicSet
    && forall row :: |row| == |l.lit.terms| ==> (sel.Selectable(row) <==> Consistent(l.lit.terms, row))
  }

  ghost predicate AttrOf(terms: seq<KBTerm>, m: map<nat, seq<nat>>, attrs: seq<seq<nat>>) {
    forall c :: c in attrs <==> exists v :: v in m && m[v] == c
  }

  ghost predicate ValsOf(terms: seq<KBTerm>, vals: seq<(nat, nat)>) {
    forall c :: c in vals <==> 0 <= c.0 < |terms| && terms[c.0] == Constant(c.1)
  }

  lemma SelectedIsConsistent(l: KBRuleLiteral, sel: Selection, row: seq<nat>)
    requires l.lit.Valid() && |row| == |l.lit.terms| && sel.Selectable(row)
    requires AttrOf(l.lit.terms, l.lit.varIndices, sel.attrConstraint) && ValsOf(l.lit.terms, sel.valConstraint)
    ensures Consistent(l.lit.terms, row)
  {
    var terms, m := l.lit.terms, l.lit.varIndices;
    forall i | 0 <= i < |terms| && terms[i].Constant? ensures row[i] == terms[i].val {
      assert (i, terms[i].val) in sel.valConstraint;
    }
    forall i, j | 0 <= i < j < |terms| && terms[i] == terms[j] ensures row[i] == row[j] {
      if terms[i].Constant? {
        assert (i, terms[i].val) in sel.valConstraint && (j, terms[j].val) in sel.valConstraint;
      } else {
        var v := terms[i].id;
        assert v in VarsOf(terms);
        assert m[v] in sel.attrConstraint && i in m[v] && j in m[v];
      }
    }
  }

  lemma ConsistentIsSelected(l: KBRuleLiteral, sel: Selection, row: seq<nat>)
    requires l.lit.Valid() && Consistent(l.lit.terms, row)
    requires AttrOf(l.lit.terms, l.lit.varIndices, sel.attrConstraint) && ValsOf(l.lit.terms, sel.valConstraint)
    ensures sel.Selectable(row)
  {
    var terms, m := l.lit.terms, l.lit.varIndices;
    forall c | c in sel.attrConstraint && |c| > 1
      ensures forall idx :: idx in c ==> c[0] < |row| && idx < |row| && row[idx] == row[c[0]]
    {
      var v :| v in m && m[v] == c;
      assert IsIndexList(terms, v, c);
      forall idx | idx in c ensures c[0] < |row| && idx < |row| && row[idx] == row[c[0]] {
        assert c[0] in c;
        if idx != c[0] {
          assert if idx < c[0] then row[idx] == row[c[0]] else row[c[0]] == row[idx];
        }
      }
    }
  }

  lemma SelectionIsRight(l: KBRuleLiteral, sel: Selection)
    requires l.lit.Valid() && sel.valueSet == l.logicSet
    requires AttrOf(l.lit.terms, l.lit.varIndices, sel.attrConstraint) && ValsOf(l.lit.terms, sel.valConstraint)
    ensures SelectsInstances(sel, l)
  {
    forall row | |row| == |l.lit.terms| ensures sel.Selectable(row) <==> Consistent(l.lit.terms, row) {
      if sel.Selectable(row) {
        SelectedIsConsistent(l, sel, row);
      }
      if Consistent(l.lit.terms, row) {
        ConsistentIsSelected(l, sel, row);
      }
    }
  }

  method MakeSelection(l: KBRuleLiteral) returns (sel: Selection)
    requires l.lit.Valid()
    ensures SelectsInstances(sel, l)
  {
    var m := l.lit.varIndices;
    var vs := KeysInOrder(m.Keys);
    var attrs: seq<seq<nat>> := [];
    for i := 0 to |vs|
      invariant |attrs| == i && forall k :: 0 <= k < i ==> attrs[k] == m[vs[k]]
    {
      assert vs[i] in vs;
      attrs := attrs + [m[vs[i]]];
    }
    var vals: seq<(nat, nat)> := [];
    var terms := l.lit.terms;
    for i := 0 to |terms|
      invariant ValsOf(terms[..i], vals)
    {
      if terms[i].Constant? {
        vals := vals + [(i, terms[i].val)];
      }
    }
    assert terms[..|terms|] == terms;
    forall c ensures c in attrs <==> exists v :: v in m && m[v] == c {
      if v :| v in m && m[v] == c {
        assert v in vs;
        var k :| 0 <= k < |vs| && vs[k] == v;
        assert attrs[k] == c;
      }
      if c in attrs {
        var k :| 0 <= k < |attrs| && attrs[k] == c;
        assert vs[k] in vs;
      }
    }
    sel := Selection(attrs, vals, l.logicSet);
    SelectionIsRight(l, sel);
  }
}
