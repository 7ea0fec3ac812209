/** Relations: a keyed pool of tuples and its counters (src/KB/KBRelation.h, src/KB/KBRelation.cc). */
module KBRelations {
  import opened TruthValues
  import opened KBLiterals

  /** What a pool means: the value stored for each key. */
  type Pool = map<seq<nat>, TruthValue>

  // ---------------------------------------------------------------- pools

  ghost function Insert(pool: Pool, t: KBTuple): Pool {
    pool[t.terms := if t.terms in pool then DisjunctionWrtOrdering(pool[t.terms], t.value) else t.value]
  }

  ghost function InsertAll(pool: Pool, ts: seq<KBTuple>): Pool {
    if ts == [] then pool else Insert(InsertAll(pool, ts[..|ts| - 1]), ts[|ts| - 1])
  }

  ghost predicate Absorbs(pool: Pool, t: KBTuple) {
    t.terms in pool && KnowledgeLeq(t.value, pool[t.terms])
  }

  ghost predicate PoolLeq(p: Pool, q: Pool) {
    forall k :: k in p ==> k in q && KnowledgeLeq(p[k], q[k])
  }

  lemma PoolLeqAntisymmetric(p: Pool, q: Pool)
    requires PoolLeq(p, q) && PoolLeq(q, p)
    ensures p == q
  {
    assert forall k :: k in p ==> p[k] == q[k];
  }

  lemma InsertIsLeast(pool: Pool, t: KBTuple, u: Pool)
    ensures PoolLeq(pool, Insert(pool, t)) && Absorbs(Insert(pool, t), t)
    ensures PoolLeq(pool, u) && Absorbs(u, t) ==> PoolLeq(Insert(pool, t), u)
  {
    if t.terms in pool {
      JoinIsLeastUpperBound(pool[t.terms], t.value, if t.terms in u then u[t.terms] else Unknown);
    }
  }

  /** A run of insertions stores, for every key, the knowledge-order join of the stored value and of
      all values inserted for that key: the result lies above the pool and above every inserted
      tuple, and below every pool that does so. */
  lemma {:induction false} InsertAllIsLeast(pool: Pool, ts: seq<KBTuple>, u: Pool)
    ensures PoolLeq(pool, InsertAll(pool, ts))
    ensures forall t :: t in ts ==> Absorbs(InsertAll(pool, ts), t)
    ensures PoolLeq(pool, u) && (forall t :: t in ts ==> Absorbs(u, t)) ==> PoolLeq(InsertAll(pool, ts), u)
  {
    if ts != [] {
      var l, t := ts[..|ts| - 1], ts[|ts| - 1];
      assert ts == l + [t];
      InsertAllIsLeast(pool, l, u);
      InsertIsLeast(InsertAll(pool, l), t, u);
    }
  }

  /** Neither the order nor the repetition of insertions matters. */
  lemma {:induction false} InsertAllOrderFree(pool: Pool, ts: seq<KBTuple>, us: seq<KBTuple>)
    requires forall t :: t in ts <==> t in us
    ensures InsertAll(pool, ts) == InsertAll(pool, us)
  {
    InsertAllIsLeast(pool, ts, InsertAll(pool, us));
    InsertAllIsLeast(pool, us, InsertAll(pool, ts));
    PoolLeqAntisymmetric(InsertAll(pool, ts), InsertAll(pool, us));
  }

  ghost function InconsKeys(pool: Pool): set<seq<nat>> {
    set k | k in pool && pool[k] == Incons
  }

  lemma InconsKeysAfter(pool: Pool, k: seq<nat>, v: TruthValue)
    ensures v == Incons ==> InconsKeys(pool[k := v]) == InconsKeys(pool) + {k}
    ensures v != Incons ==> InconsKeys(pool[k := v]) == InconsKeys(pool) - {k}
  {
  }

  /** The measure of a pool: an insertion never lowers it. */
  lemma InsertCounts(pool: Pool, t: KBTuple)
    ensures |Insert(pool, t)| == |pool| + if t.terms in pool then 0 else 1
    ensures |InconsKeys(Insert(pool, t))| == |InconsKeys(pool)|
      + if (t.terms in pool ==> pool[t.terms] != Incons) && Insert(pool, t)[t.terms] == Incons then 1 else 0
  {
    var v := if t.terms in pool then DisjunctionWrtOrdering(pool[t.terms], t.value) else t.value;
    InconsKeysAfter(pool, t.terms, v);
    if v != Incons {
      assert t.terms !in InconsKeys(pool);
    } else if t.terms in InconsKeys(pool) {
      assert InconsKeys(pool) + {t.terms} == InconsKeys(pool);
    }
  }

  // ---------------------------------------------------------------- the container

  /** The multi-index container: the rows in insertion order and a unique index on their terms. */
  datatype FactsPool = FactsPool(rows: seq<KBTuple>, index: map<seq<nat>, nat>) {
    ghost predicate Valid() {
      && (forall i :: 0 <= i < |rows| ==> rows[i].terms in index && index[rows[i].terms] == i)
      && (forall k :: k in index ==> index[k] < |rows| && rows[index[k]].terms == k)
    }

    ghost function Contents(): Pool
      requires Valid()
    {
      map k | k in index :: rows[index[k]].value
    }

    /** push_back: refuses a row whose key is present and reports where that key is. */
    function PushBack(t: KBTuple): (r: (FactsPool, nat, bool))
      requires Valid()
      ensures r.2 <==> t.terms !in index
      ensures r.0.Valid() && r.1 < |r.0.rows| && r.0.rows[r.1].terms == t.terms
      ensures r.2 ==> r.0.Contents() == Contents()[t.terms := t.value] && |r.0.rows| == |rows| + 1
      ensures !r.2 ==> r.0 == this
    {
      if t.terms in index then (this, index[t.terms], false)
      else (FactsPool(rows + [t], index[t.terms := |rows|]), |rows|, true)
    }

    /** Where push_back found a key is the value stored for it. */
    lemma FoundAt(t: KBTuple)
      requires Valid()
      ensures PushBack(t).2 <==> t.terms !in Contents()
      ensures var pos := PushBack(t).1;
              !PushBack(t).2 ==> pos < |rows| && rows[pos].terms == t.terms && Contents()[t.terms] == rows[pos].value
    {
    }

    function Modify(pos: nat, v: TruthValue): (r: FactsPool)
      requires Valid() && pos < |rows|
      ensures r.Valid() && |r.rows| == |rows|
      ensures r.Contents() == Contents()[rows[pos].terms := v]
    {
      FactsPool(rows[pos := KBTuple(rows[pos].terms, v)], index)
    }
  }

  function EmptyPool(): FactsPool { FactsPool([], map[]) }

  lemma {:induction false} DistinctKeys(pool: FactsPool, n: nat)
    requires pool.Valid() && n <= |pool.rows|
    ensures |set i | 0 <= i < n :: pool.rows[i].terms| == n
  {
    if n > 0 {
      DistinctKeys(pool, n - 1);
      var s, s' := set i | 0 <= i < n - 1 :: pool.rows[i].terms, set i | 0 <= i < n :: pool.rows[i].terms;
      assert s' == s + {pool.rows[n - 1].terms};
      assert pool.rows[n - 1].terms !in s;
    }
  }

  /** The rows of a valid pool are exactly its facts, one row a key. */
  lemma {:induction false} RowsAreContents(pool: FactsPool)
    requires pool.Valid()
    ensures |pool.rows| == |pool.Contents()|
    ensures forall k :: k in pool.Contents() <==> exists i :: 0 <= i < |pool.rows| && pool.rows[i].terms == k
    ensures forall i :: 0 <= i < |pool.rows| ==> pool.Contents()[pool.rows[i].terms] == pool.rows[i].value
  {
    DistinctKeys(pool, |pool.rows|);
    assert (set i | 0 <= i < |pool.rows| :: pool.rows[i].terms) == pool.Contents().Keys;
  }

  // ---------------------------------------------------------------- the relation

  ghost function Cleared(pool: Pool, ks: set<seq<nat>>): Pool {
    map k | k in pool :: if k in ks then Unknown else pool[k]
  }

  ghost function WithIncons(pool: Pool, ks: set<seq<nat>>): Pool {
    map k | k in pool.Keys + ks :: if k in ks then Incons else pool[k]
  }

  /** What AddIncons adds to the counter for the keys ks: one each, and one more where AddTuple turned a
      stored tuple inconsistent. */
  ghost function CountedTwice(pool: Pool, ks: set<seq<nat>>): nat {
    |ks| + |(ks * pool.Keys) - InconsKeys(pool)|
  }

  ghost function InconsIn(rows: seq<KBTuple>): set<seq<nat>> {
    set t | t in rows && t.value == Incons :: t.terms
  }

  lemma InconsInMore(rows: seq<KBTuple>, i: nat)
    requires i < |rows|
    ensures InconsIn(rows[..i + 1]) == InconsIn(rows[..i]) + if rows[i].value == Incons then {rows[i].terms} else {}
  {
    assert rows[..i + 1] == rows[..i] + [rows[i]];
  }

  lemma InconsRows(pool: FactsPool)
    requires pool.Valid()
    ensures InconsIn(pool.rows) == InconsKeys(pool.Contents())
  {
    RowsAreContents(pool);
    forall k | k in InconsKeys(pool.Contents()) ensures k in InconsIn(pool.rows) {
      assert pool.rows[pool.index[k]] in pool.rows;
    }
  }

  lemma NotYetIn(added: FactsPool, i: nat)
    requires added.Valid() && i < |added.rows|
    ensures added.rows[i].terms !in InconsIn(added.rows[..i])
  {
    forall j | 0 <= j < i ensures added.rows[j].terms != added.rows[i].terms {
      assert added.index[added.rows[j].terms] == j && added.index[added.rows[i].terms] == i;
    }
  }

  lemma InsertIncons(before: Pool, ks: set<seq<nat>>, t: KBTuple)
    requires t.value == Incons
    ensures Insert(WithIncons(before, ks), t) == WithIncons(before, ks + {t.terms})
  {
  }

  lemma CountOneMore(ks: set<seq<nat>>, keys: set<seq<nat>>, incons: set<seq<nat>>, k: seq<nat>)
    requires k !in ks
    ensures |ks + {k}| + |((ks + {k}) * keys) - incons|
      == |ks| + |(ks * keys) - incons| + if k in keys - incons then 2 else 1
  {
    var twice := (ks * keys) - incons;
    assert ((ks + {k}) * keys) - incons == twice + if k in keys - incons then {k} else {};
  }

  lemma CountedMore(before: Pool, ks: set<seq<nat>>, k: seq<nat>)
    requires k !in ks
    ensures CountedTwice(before, ks + {k})
      == CountedTwice(before, ks) + if k in before && before[k] != Incons then 2 else 1
  {
    var keys, incons := before.Keys, InconsKeys(before);
    assert k in keys - incons <==> k in before && before[k] != Incons;
    hide InconsKeys;
    CountOneMore(ks, keys, incons, k);
  }

  class KBRelation {
    var facts: FactsPool
    var edbFacts: FactsPool
    var inconsFactsNumber: nat
    var edbInconsFactsNumber: nat
    var finalized: bool

    ghost predicate Valid()
      reads this
    {
      facts.Valid() && edbFacts.Valid()
    }

    /** The counters of inconsistent tuples tell the truth. */
    ghost predicate Exact()
      reads this
      requires Valid()
    {
      && inconsFactsNumber == |InconsKeys(facts.Contents())|
      && edbInconsFactsNumber == |InconsKeys(edbFacts.Contents())|
    }

    constructor ()
      ensures Valid() && Exact()
      ensures facts.Contents() == map[] && edbFacts.Contents() == map[] && !finalized
    {
      facts, edbFacts := EmptyPool(), EmptyPool();
      inconsFactsNumber, edbInconsFactsNumber, finalized := 0, 0, false;
      new;
      assert InconsKeys(map[]) == {};
    }

    /** Reports a change exactly when the key is new or has just become inconsistent. */
    method AddTuple(t: KBTuple) returns (changed: bool, value: TruthValue)
      requires Valid()
      modifies this`facts, this`inconsFactsNumber
      ensures Valid()
      ensures facts.Contents() == Insert(old(facts.Contents()), t)
      ensures changed <==> (t.terms in old(facts.Contents()) ==>
        old(facts.Contents())[t.terms] != Incons && facts.Contents()[t.terms] == Incons)
      ensures changed ==> value == facts.Contents()[t.terms]
      ensures inconsFactsNumber == old(inconsFactsNumber) + if changed && t.terms in old(facts.Contents()) then 1 else 0
      ensures old(Exact()) && (t.value != Incons || t.terms in old(facts.Contents())) ==> Exact()
    {
      hide FactsPool.Valid, FactsPool.Contents, FactsPool.PushBack, FactsPool.Modify, InconsKeys;
      InsertCounts(facts.Contents(), t);
      facts.FoundAt(t);
      var (pushed, pos, inserted) := facts.PushBack(t);
      if inserted {
        facts := pushed;
        return true, t.value;
      }
      var prevValue := facts.rows[pos].value;
      var newValue := DisjunctionWrtOrdering(prevValue, t.value);
      if prevValue == newValue {
        assert Insert(facts.Contents(), t) == facts.Contents();
        return false, prevValue;
      }
      facts := facts.Modify(pos, newValue);
      if prevValue != Incons && newValue == Incons {
        inconsFactsNumber := inconsFactsNumber + 1;
        return true, Incons;
      }
      return false, prevValue;
    }

    method AddEdbTuple(t: KBTuple)
      requires Valid()
      modifies this`edbFacts, this`edbInconsFactsNumber
      ensures Valid()
      ensures edbFacts.Contents() == if finalized then old(edbFacts.Contents()) else Insert(old(edbFacts.Contents()), t)
      ensures old(Exact()) && (t.value != Incons || t.terms in old(edbFacts.Contents())) ==> Exact()
    {
      if !finalized {
        AddEdbOpen(t);
      }
    }

    method AddEdbOpen(t: KBTuple)
      requires Valid() && !finalized
      modifies this`edbFacts, this`edbInconsFactsNumber
      ensures Valid() && edbFacts.Contents() == Insert(old(edbFacts.Contents()), t)
      ensures old(Exact()) && (t.value != Incons || t.terms in old(edbFacts.Contents())) ==> Exact()
    {
      hide FactsPool.Valid, FactsPool.Contents, FactsPool.PushBack, FactsPool.Modify, InconsKeys;
      InsertCounts(edbFacts.Contents(), t);
      edbFacts.FoundAt(t);
      var (pushed, pos, inserted) := edbFacts.PushBack(t);
      if inserted {
        edbFacts := pushed;
        return;
      }
      var prevValue := edbFacts.rows[pos].value;
      var newValue := DisjunctionWrtOrdering(prevValue, t.value);
      if prevValue == newValue {
        assert Insert(edbFacts.Contents(), t) == edbFacts.Contents();
        return;
      }
      assert edbFacts.Modify(pos, newValue).Contents() == Insert(edbFacts.Contents(), t);
      edbFacts := edbFacts.Modify(pos, newValue);
      if prevValue != Incons && newValue == Incons {
        edbInconsFactsNumber := edbInconsFactsNumber + 1;
      }
    }

    /** Freezes the loaded facts and starts the evaluation from them. */
    method Finalize()
      requires Valid()
      modifies this`facts, this`inconsFactsNumber, this`finalized
      ensures Valid() && finalized
      ensures facts.Contents() == if old(finalized) then old(facts.Contents()) else edbFacts.Contents()
      ensures old(Exact()) ==> Exact()
    {
      if finalized {
        return;
      }
      facts := edbFacts;
      finalized := true;
      inconsFactsNumber := edbInconsFactsNumber;
    }

    /** Loads a run of facts, as the engine does for a module, and finalizes the relation. */
    method Load(ts: seq<KBTuple>)
      requires Valid() && Exact() && !finalized && edbFacts.Contents() == map[]
      requires forall i :: 0 <= i < |ts| ==> ts[i].value == True || ts[i].value == False
      modifies this
      ensures Valid() && Exact() && finalized
      ensures facts.Contents() == edbFacts.Contents() == InsertAll(map[], ts)
    {
      assert ts[..0] == [];
      for i := 0 to |ts|
        invariant Valid() && Exact() && !finalized
        invariant edbFacts.Contents() == InsertAll(map[], ts[..i])
      {
        assert ts[..i + 1] == ts[..i] + [ts[i]];
        AddEdbTuple(ts[i]);
      }
      assert ts[..|ts|] == ts;
      Finalize();
    }

    /** Starts again from the loaded facts. */
    method Clear()
      requires Valid()
      modifies this`facts, this`inconsFactsNumber
      ensures Valid() && facts.Contents() == edbFacts.Contents() && (old(Exact()) ==> Exact())
    {
      facts := edbFacts;
      inconsFactsNumber := edbInconsFactsNumber;
    }

    /** Sets the tuples that are inconsistent in `removed` to unknown. The counter is meant to go down for
        an inconsistent tuple, but the value is looked at after it was overwritten. */
    method ClearIncons(removed: FactsPool)
      requires Valid() && removed.Valid()
      modifies this`facts, this`inconsFactsNumber
      ensures Valid() && facts.Contents() == Cleared(old(facts.Contents()), InconsKeys(removed.Contents()))
      ensures inconsFactsNumber == old(inconsFactsNumber)
    {
      ghost var before := facts.Contents();
      for i := 0 to |removed.rows|
        invariant Valid() && inconsFactsNumber == old(inconsFactsNumber)
        invariant facts.Contents() == Cleared(before, InconsIn(removed.rows[..i]))
      {
        InconsInMore(removed.rows, i);
        ClearOne(removed.rows[i], before, InconsIn(removed.rows[..i]));
      }
      assert removed.rows[..|removed.rows|] == removed.rows;
      InconsRows(removed);
    }

    method ClearOne(t: KBTuple, ghost before: Pool, ghost ks: set<seq<nat>>)
      requires Valid() && facts.Contents() == Cleared(before, ks)
      modifies this`facts, this`inconsFactsNumber
      ensures Valid() && inconsFactsNumber == old(inconsFactsNumber)
      ensures facts.Contents() == Cleared(before, ks + if t.value == Incons then {t.terms} else {})
    {
      ghost var now := facts.Contents();
      if t.value == Incons && t.terms in facts.index {
        var pos := facts.index[t.terms];
        if facts.rows[pos].value != Unknown {
          facts := facts.Modify(pos, Unknown);
          // the test that guards the decrement looks at the new value
          assert facts.rows[pos].value != Incons;
        }
      }
      assert t.value == Incons ==> facts.Contents() == if t.terms in now then now[t.terms := Unknown] else now;
    }

    /** Inserts the inconsistent tuples of `added` and counts each of them, whether or not AddTuple did. */
    method AddIncons(added: FactsPool)
      requires Valid() && added.Valid()
      modifies this`facts, this`inconsFactsNumber
      ensures Valid() && facts.Contents() == WithIncons(old(facts.Contents()), InconsKeys(added.Contents()))
      ensures inconsFactsNumber
        == old(inconsFactsNumber) + CountedTwice(old(facts.Contents()), InconsKeys(added.Contents()))
    {
      ghost var before := facts.Contents();
      for i := 0 to |added.rows|
        invariant Valid() && facts.Contents() == WithIncons(before, InconsIn(added.rows[..i]))
        invariant inconsFactsNumber == old(inconsFactsNumber) + CountedTwice(before, InconsIn(added.rows[..i]))
      {
        InconsInMore(added.rows, i);
        NotYetIn(added, i);
        AddOneIncons(added.rows[i], before, InconsIn(added.rows[..i]));
      }
      assert added.rows[..|added.rows|] == added.rows;
      InconsRows(added);
    }

    method AddOneIncons(t: KBTuple, ghost before: Pool, ghost ks: set<seq<nat>>)
      requires Valid() && facts.Contents() == WithIncons(before, ks) && (t.value == Incons ==> t.terms !in ks)
      modifies this`facts, this`inconsFactsNumber
      ensures Valid() && facts.Contents() == WithIncons(before, ks + if t.value == Incons then {t.terms} else {})
      ensures inconsFactsNumber - old(inconsFactsNumber)
        == CountedTwice(before, ks + if t.value == Incons then {t.terms} else {}) - CountedTwice(before, ks)
    {
      if t.value == Incons {
        InsertIncons(before, ks, t);
        CountedMore(before, ks, t.terms);
        var changed, value := AddTuple(t);
        inconsFactsNumber := inconsFactsNumber + 1;
      } else {
        assert ks + {} == ks;
      }
    }
  }

  // ---------------------------------------------------------------- where the counter drifts

  /** The counter stays exact through ClearIncons exactly when no inconsistent tuple was cleared. */
  lemma ClearKeepsExact(pool: Pool, ks: set<seq<nat>>)
    ensures |InconsKeys(Cleared(pool, ks))| == |InconsKeys(pool)| <==> InconsKeys(pool) !! ks
  {
    var a, b := InconsKeys(pool), InconsKeys(Cleared(pool, ks));
    assert b == a - ks;
    assert a == b + (a * ks);
  }

  lemma Counts(a: set<seq<nat>>, ks: set<seq<nat>>, keys: set<seq<nat>>)
    requires a <= keys
    ensures |a + (ks - a)| == |a| + |ks| + |(ks * keys) - a| <==> keys !! ks
  {
    var twice := (ks * keys) - a;
    assert ks == (ks - a) + (ks * a);
    assert |ks| == |ks - a| + |ks * a|;
    assert ks * keys == twice + (ks * a);
    assert ks * keys == {} <==> twice == {} && ks * a == {};
  }

  /** The counter stays exact through AddIncons exactly when no added tuple was stored before. */
  lemma AddKeepsExact(pool: Pool, ks: set<seq<nat>>)
    ensures |InconsKeys(WithIncons(pool, ks))| == |InconsKeys(pool)| + CountedTwice(pool, ks) <==> pool.Keys !! ks
  {
    var a := InconsKeys(pool);
    assert InconsKeys(WithIncons(pool, ks)) == a + (ks - a);
    assert a <= pool.Keys;
    hide InconsKeys, WithIncons;
    Counts(a, ks, pool.Keys);
  }
}
