/** Column projections (src/Eval/Projection.h, src/Eval/JoinProjection.h). The templates of the source
    are used for rows of ground terms and for lists of terms; both uses are written out here. */
module Projections {
  import opened KBLiterals

  /** The destination terms that can be filled in: constants, and variables of the sources. */
  ghost function Present(dest: seq<KBTerm>, vars: set<nat>): seq<KBTerm> {
    if dest == [] then []
    else
      var d := dest[|dest| - 1];
      Present(dest[..|dest| - 1], vars) + (if d.Constant? || d.id in vars then [d] else [])
  }

  lemma PresentMembers(dest: seq<KBTerm>, vars: set<nat>, t: KBTerm)
    ensures t in Present(dest, vars) <==> t in dest && (t.Constant? || t.id in vars)
  {
    if dest != [] {
      PresentMembers(dest[..|dest| - 1], vars, t);
      assert dest == dest[..|dest| - 1] + [dest[|dest| - 1]];
    }
  }

  lemma PresentAll(dest: seq<KBTerm>, vars: set<nat>)
    requires VarsOf(dest) <= vars
    ensures Present(dest, vars) == dest
  {
    if dest != [] {
      var l := dest[..|dest| - 1];
      assert dest == l + [dest[|dest| - 1]];
      assert forall t :: t in l ==> t in dest;
      PresentAll(l, vars);
    }
  }

  // ---------------------------------------------------------------- Projection

  datatype ProjectionId = FromColumn(id: nat) | FromConstant(val: nat)

  /** What one entry of the projection refers to. */
  ghost predicate IdFor(terms: seq<KBTerm>, t: KBTerm, id: ProjectionId) {
    match t
    case Constant(c) => id == FromConstant(c)
    case Variable(v) => id.FromColumn? && id.id < |terms| && terms[id.id] == t
  }

  ghost predicate IdsFor(terms: seq<KBTerm>, dest: seq<KBTerm>, ids: seq<ProjectionId>) {
    |ids| == |dest| && forall k :: 0 <= k < |ids| ==> IdFor(terms, dest[k], ids[k])
  }

  method MakeProjectionIds(literal: KBLiteral, destTerms: seq<KBTerm>) returns (ids: seq<ProjectionId>)
    requires literal.Valid()
    ensures IdsFor(literal.terms, Present(destTerms, literal.Vars()), ids)
  {
    ids := [];
    for i := 0 to |destTerms|
      invariant IdsFor(literal.terms, Present(destTerms[..i], literal.Vars()), ids)
    {
      assert destTerms[..i + 1][..i] == destTerms[..i];
      match destTerms[i]
      case Variable(v) =>
        if v in literal.varIndices {
          assert literal.varIndices[v][0] in literal.varIndices[v];
          ids := ids + [FromColumn(literal.varIndices[v][0])];
        }
      case Constant(c) =>
        ids := ids + [FromConstant(c)];
    }
    assert destTerms[..|destTerms|] == destTerms;
  }

  function IdValue(id: ProjectionId, terms: seq<nat>): nat {
    match id
    case FromConstant(c) => c
    case FromColumn(i) => if i < |terms| then terms[i] else NULL_VAL
  }

  function ProjectedRow(ids: seq<ProjectionId>, terms: seq<nat>): seq<nat> {
    seq(|ids|, k requires 0 <= k < |ids| => IdValue(ids[k], terms))
  }

  function ProjectedLiteralTerm(id: ProjectionId, terms: seq<KBTerm>): KBTerm {
    match id
    case FromConstant(c) => Constant(c)
    case FromColumn(i) => if i < |terms| then terms[i] else Constant(NULL_VAL)
  }

  /** The same projection on the terms of the literal: the columns of the result relation. */
  method FirstResultTerms(ids: seq<ProjectionId>, terms: seq<KBTerm>, ghost dest: seq<KBTerm>)
    returns (result: seq<KBTerm>)
    requires IdsFor(terms, dest, ids)
    ensures result == dest
  {
    result := [];
    for i := 0 to |ids|
      invariant result == dest[..i]
    {
      assert IdFor(terms, dest[i], ids[i]);
      result := result + [ProjectedLiteralTerm(ids[i], terms)];
    }
  }

  // ---------------------------------------------------------------- JoinProjection

  datatype JoinId = JoinConstant(val: nat) | Left(id: nat) | Right(id: nat) | Both(left: nat, right: nat)

  ghost predicate JoinIdFor(l: seq<KBTerm>, r: seq<KBTerm>, t: KBTerm, id: JoinId) {
    match t
    case Constant(c) => id == JoinConstant(c)
    case Variable(v) =>
      if t in l && t in r then id.Both? && id.left < |l| && l[id.left] == t && id.right < |r| && r[id.right] == t
      else if t in l then id.Left? && id.id < |l| && l[id.id] == t
      else id.Right? && id.id < |r| && r[id.id] == t
  }

  ghost predicate JoinIdsFor(l: seq<KBTerm>, r: seq<KBTerm>, dest: seq<KBTerm>, ids: seq<JoinId>) {
    |ids| == |dest| && forall k :: 0 <= k < |ids| ==> JoinIdFor(l, r, dest[k], ids[k])
  }

  method MakeJoinProjectionIds(l: KBLiteral, r: KBLiteral, destTerms: seq<KBTerm>) returns (ids: seq<JoinId>)
    requires l.Valid() && r.Valid()
    ensures JoinIdsFor(l.terms, r.terms, Present(destTerms, l.Vars() + r.Vars()), ids)
  {
    ids := [];
    for i := 0 to |destTerms|
      invariant JoinIdsFor(l.terms, r.terms, Present(destTerms[..i], l.Vars() + r.Vars()), ids)
    {
      assert destTerms[..i + 1][..i] == destTerms[..i];
      match destTerms[i]
      case Variable(v) =>
        assert Variable(v) in l.terms <==> v in l.varIndices;
        assert Variable(v) in r.terms <==> v in r.varIndices;
        if v in l.varIndices && v !in r.varIndices {
          assert l.varIndices[v][0] in l.varIndices[v];
          ids := ids + [Left(l.varIndices[v][0])];
        } else if v in r.varIndices && v !in l.varIndices {
          assert r.varIndices[v][0] in r.varIndices[v];
          ids := ids + [Right(r.varIndices[v][0])];
        } else if v in r.varIndices && v in l.varIndices {
          assert l.varIndices[v][0] in l.varIndices[v] && r.varIndices[v][0] in r.varIndices[v];
          ids := ids + [Both(l.varIndices[v][0], r.varIndices[v][0])];
        }
      case Constant(c) =>
        ids := ids + [JoinConstant(c)];
    }
    assert destTerms[..|destTerms|] == destTerms;
  }

  /** The columns an entry reads exist. */
  ghost predicate Fits(ids: seq<JoinId>, left: nat, right: nat) {
    forall k :: 0 <= k < |ids| ==>
      match ids[k]
      case JoinConstant(_) => true
      case Left(i) => i < left
      case Right(i) => i < right
      case Both(i, j) => i < left && j < right
  }

  ghost function ProjectedValue(id: JoinId, l: seq<nat>, r: seq<nat>): nat {
    match id
    case JoinConstant(c) => c
    case Left(i) => if i < |l| then l[i] else NULL_VAL
    case Right(i) => if i < |r| then r[i] else NULL_VAL
    case Both(i, j) => if i < |l| && l[i] != NULL_VAL then l[i] else if j < |r| then r[j] else NULL_VAL
  }

  ghost function Projected(ids: seq<JoinId>, l: seq<nat>, r: seq<nat>): seq<nat> {
    seq(|ids|, k requires 0 <= k < |ids| => ProjectedValue(ids[k], l, r))
  }

  method ProjectJoined(ids: seq<JoinId>, l: seq<nat>, r: seq<nat>) returns (projection: seq<nat>)
    requires Fits(ids, |l|, |r|)
    ensures projection == Projected(ids, l, r)
  {
    projection := [];
    for i := 0 to |ids|
      invariant |projection| == i && forall k :: 0 <= k < i ==> projection[k] == ProjectedValue(ids[k], l, r)
    {
      match ids[i]
      case JoinConstant(c) => projection := projection + [c];
      case Left(c) => projection := projection + [l[c]];
      case Right(c) => projection := projection + [r[c]];
      case Both(c, d) => projection := projection + [if l[c] == NULL_VAL then r[d] else l[c]];
    }
  }

  /** The columns taken from the left row lie among the first |ids| ones, as leftComplement asserts. */
  ghost predicate LeftColumnsLow(ids: seq<JoinId>) {
    forall k :: 0 <= k < |ids| ==>
      match ids[k]
      case JoinConstant(_) => true
      case Left(i) => i < |ids|
      case Right(_) => true
      case Both(i, _) => i < |ids|
  }

  ghost function ComplementValue(id: JoinId, l: seq<nat>): nat {
    match id
    case JoinConstant(c) => c
    case Left(i) => if i < |l| then l[i] else NULL_VAL
    case Right(_) => NULL_VAL
    case Both(i, _) => if i < |l| then l[i] else NULL_VAL
  }

  method LeftComplement(ids: seq<JoinId>, l: seq<nat>, ghost right: nat) returns (projection: seq<nat>)
    requires Fits(ids, |l|, right) && LeftColumnsLow(ids)
    ensures |projection| == |ids|
    ensures forall k :: 0 <= k < |ids| ==> projection[k] == ComplementValue(ids[k], l)
    ensures NullFree(l) ==> projection == Projected(ids, l, [])
  {
    projection := [];
    for i := 0 to |ids|
      invariant |projection| == i
      invariant forall k :: 0 <= k < i ==> projection[k] == ComplementValue(ids[k], l)
    {
      match ids[i]
      case JoinConstant(c) => projection := projection + [c];
      case Left(c) =>
        assert c < |ids|;
        projection := projection + [l[c]];
      case Both(c, _) =>
        assert c < |ids|;
        projection := projection + [l[c]];
      case Right(_) => projection := projection + [NULL_VAL];
    }
  }

  /** The same projection on the terms of the two literals: the columns of the result relation. */
  function ProjectedTerm(id: JoinId, l: seq<KBTerm>, r: seq<KBTerm>): KBTerm {
    match id
    case JoinConstant(c) => Constant(c)
    case Left(i) => if i < |l| then l[i] else Constant(NULL_VAL)
    case Right(i) => if i < |r| then r[i] else Constant(NULL_VAL)
    case Both(i, j) => if i < |l| then l[i] else Constant(NULL_VAL)
  }

  method ResultTerms(ids: seq<JoinId>, l: seq<KBTerm>, r: seq<KBTerm>, ghost dest: seq<KBTerm>)
    returns (terms: seq<KBTerm>)
    requires JoinIdsFor(l, r, dest, ids)
    ensures terms == dest
  {
    terms := [];
    for i := 0 to |ids|
      invariant terms == dest[..i]
    {
      assert JoinIdFor(l, r, dest[i], ids[i]);
      terms := terms + [ProjectedTerm(ids[i], l, r)];
    }
  }
}
