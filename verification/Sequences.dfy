/** Facts about sequences that the other modules share. */
module Sequences {

  ghost predicate Distinct<T>(s: seq<T>) {
    forall i, j :: 0 <= i < j < |s| ==> s[i] != s[j]
  }

  lemma DistinctMultiset<T>(s: seq<T>)
    ensures Distinct(s) <==> forall x :: x in s ==> multiset(s)[x] == 1
  {
    if s != [] {
      var l, x := s[..|s| - 1], s[|s| - 1];
      assert s == l + [x];
      assert multiset(s) == multiset(l) + multiset{x};
      DistinctMultiset(l);
      if Distinct(s) {
        assert x !in l;
        assert forall y :: y in s ==> multiset(s)[y] == 1;
      }
      if forall y :: y in s ==> multiset(s)[y] == 1 {
        assert x in s && multiset(l)[x] == 0;
        assert x !in multiset(l);
        assert forall y :: y in l ==> y in s && multiset(l)[y] == multiset(s)[y];
        forall i, j | 0 <= i < j < |s| ensures s[i] != s[j] {
          if j < |l| {
            assert l[i] != l[j];
          } else {
            assert l[i] in l;
          }
        }
      }
    }
  }

  /** A permutation keeps membership and distinctness. */
  lemma Permuted<T>(s: seq<T>, t: seq<T>)
    requires multiset(s) == multiset(t)
    ensures |s| == |t|
    ensures forall x :: x in s <==> x in t
    ensures Distinct(s) <==> Distinct(t)
  {
    assert |s| == |multiset(s)|;
    assert |t| == |multiset(t)|;
    assert forall x :: x in s <==> x in multiset(s);
    assert forall x :: x in t <==> x in multiset(t);
    DistinctMultiset(s);
    DistinctMultiset(t);
  }

  lemma WithoutMember<T>(s: seq<T>, k: nat)
    requires k < |s|
    ensures multiset(s) == multiset(s[..k] + s[k + 1..]) + multiset{s[k]}
  {
    assert s == s[..k] + [s[k]] + s[k + 1..];
  }

  /** The first member of a permuted sequence can be taken away on both sides. */
  lemma MatchingMember<T>(s: seq<T>, t: seq<T>) returns (k: nat)
    requires s != [] && multiset(s) == multiset(t)
    ensures k < |t| && t[k] == s[0] && multiset(s[1..]) == multiset(t[..k] + t[k + 1..])
  {
    Permuted(s, t);
    assert s[0] in t;
    k :| 0 <= k < |t| && t[k] == s[0];
    assert s[..0] + s[1..] == s[1..];
    WithoutMember(s, 0);
    WithoutMember(t, k);
    assert multiset(s[1..]) == multiset(s) - multiset{s[0]};
  }

  /** Without repetitions, equal members make a permutation. */
  lemma SameMembers<T>(s: seq<T>, t: seq<T>)
    requires Distinct(s) && Distinct(t) && forall x :: x in s <==> x in t
    ensures multiset(s) == multiset(t)
  {
    DistinctMultiset(s);
    DistinctMultiset(t);
    forall x ensures multiset(s)[x] == multiset(t)[x] {
      if x in s {
        assert multiset(s)[x] == 1 && multiset(t)[x] == 1;
      } else {
        assert x !in multiset(s) && x !in multiset(t);
      }
    }
  }

  lemma DistinctConcat<T>(s: seq<T>, t: seq<T>)
    requires Distinct(s) && Distinct(t) && forall x :: x in s ==> x !in t
    ensures Distinct(s + t)
  {
    forall i, j | 0 <= i < j < |s + t| ensures (s + t)[i] != (s + t)[j] {
      if i < |s| <= j {
        assert s[i] in s && t[j - |s|] in t;
      }
    }
  }
}
