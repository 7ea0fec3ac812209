/** The four truth values of the engine and the tables that combine them
    (src/TruthValue.cc, include/fovris/TruthValue.h). */
module TruthValues {

  datatype TruthValue = False | Unknown | Incons | True

  /** AndArr: the smaller value in the order False, Unknown, Incons, True. */
  function Conjunction(a: TruthValue, b: TruthValue): TruthValue {
    if a.False? || b.False? then False
    else if a.Unknown? || b.Unknown? then Unknown
    else if a.Incons? || b.Incons? then Incons
    else True
  }

  /** DisjWrtOrd: how a stored value absorbs a newly derived one. */
  function DisjunctionWrtOrdering(a: TruthValue, b: TruthValue): TruthValue {
    match a
    case False => (match b case False => False case Unknown => False case Incons => Incons case True => Incons)
    case Unknown => b
    case Incons => Incons
    case True => (match b case False => Incons case Unknown => True case Incons => Incons case True => True)
  }

  function Negation(a: TruthValue): TruthValue {
    match a
    case False => True
    case Unknown => Unknown
    case Incons => Incons
    case True => False
  }

  function ResolveToTrueOrIncons(a: TruthValue): TruthValue {
    if a.Incons? then a else True
  }

  function ResolveTruthValue(a: TruthValue, isTrue: bool): TruthValue {
    if isTrue then a else Negation(a)
  }

  /** The knowledge order: Unknown below False and True, both below Incons. */
  predicate KnowledgeLeq(a: TruthValue, b: TruthValue) {
    a == b || a.Unknown? || b.Incons?
  }

  /** DisjunctionWrtOrdering is the least upper bound of the knowledge order. */
  lemma JoinIsLeastUpperBound(a: TruthValue, b: TruthValue, c: TruthValue)
    ensures KnowledgeLeq(a, DisjunctionWrtOrdering(a, b))
    ensures KnowledgeLeq(b, DisjunctionWrtOrdering(a, b))
    ensures KnowledgeLeq(a, c) && KnowledgeLeq(b, c) <==> KnowledgeLeq(DisjunctionWrtOrdering(a, b), c)
  {
  }

  /** What a stored value absorbs: equal values stay, unknown gives way, and what disagrees is inconsistent. */
  lemma KnowledgeJoinIs(a: TruthValue, b: TruthValue)
    ensures DisjunctionWrtOrdering(a, b)
         == if a == b || b == Unknown then a else if a == Unknown then b else Incons
  {
  }

  /** The place of a value in the truth order False, Unknown, Incons, True. */
  ghost function TruthRank(a: TruthValue): nat {
    if a == False then 0 else if a == Unknown then 1 else if a == Incons then 2 else 3
  }

  /** A conjunction has the lower of the two values. */
  lemma ConjunctionIsLower(a: TruthValue, b: TruthValue)
    ensures Conjunction(a, b) == if TruthRank(a) <= TruthRank(b) then a else b
  {
  }

  /** A negated head swaps true and false and keeps the rest. */
  lemma NegationSwaps()
    ensures ResolveTruthValue(True, false) == False && ResolveTruthValue(False, false) == True
    ensures ResolveTruthValue(Incons, false) == Incons && ResolveTruthValue(Unknown, false) == Unknown
    ensures forall a :: ResolveTruthValue(a, true) == a
  {
  }
}
