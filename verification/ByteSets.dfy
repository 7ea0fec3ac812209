/** The byte sets of the parser generator (thirdparty/lemon/lemon.c): one byte for each element, set in place.
    FirstFollow works with the sets that these bytes stand for. */
module ByteSets {

  /** The set that the bytes stand for. */
  ghost function SetOf(s: seq<bool>): set<nat> {
    set e: nat | e < |s| && s[e]
  }

  lemma SameSetSameBytes(s: seq<bool>, t: seq<bool>)
    requires |s| == |t| && SetOf(s) == SetOf(t)
    ensures s == t
  {
    forall e: nat | e < |s| ensures s[e] == t[e] {
      assert e in SetOf(s) <==> e in SetOf(t);
    }
  }

  /** Adds one element and tells whether it was absent. */
  method SetAdd(s: array<bool>, e: nat) returns (added: bool)
    requires e < s.Length
    modifies s
    ensures SetOf(s[..]) == old(SetOf(s[..])) + {e}
    ensures added <==> e !in old(SetOf(s[..]))
  {
    added := !s[e];
    s[e] := true;
  }

  /** Adds every element of s2 to s1, which may be the same set, and tells whether s1 changed. */
  method SetUnion(s1: array<bool>, s2: array<bool>) returns (progress: bool)
    requires s1.Length == s2.Length
    modifies s1
    ensures SetOf(s1[..]) == old(SetOf(s1[..])) + old(SetOf(s2[..]))
    ensures progress <==> SetOf(s1[..]) != old(SetOf(s1[..]))
  {
    progress := false;
    for i := 0 to s1.Length
      invariant forall e :: 0 <= e < i ==> s1[e] == (old(s1[e]) || old(s2[e]))
      invariant forall e :: i <= e < s1.Length ==> s1[e] == old(s1[e]) && s2[e] == old(s2[e])
      invariant progress <==> s1[..] != old(s1[..])
    {
      if s2[i] && !s1[i] {
        progress := true;
        s1[i] := true;
        assert s1[..][i] != old(s1[..])[i];
      }
    }
    if SetOf(s1[..]) == old(SetOf(s1[..])) {
      SameSetSameBytes(s1[..], old(s1[..]));
    }
  }
}
