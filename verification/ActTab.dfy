/** The compressed action table of the parser generator: acttab_action and acttab_insert of
    thirdparty/lemon/lemon.c, and the lookup of thirdparty/lemon/lempar.c that reads it. */
module ActTabs {

  datatype LookaheadAction = LookaheadAction(lookahead: int, action: int)

  datatype Answer = Default | Found(action: int)

  const UNUSED := LookaheadAction(-1, -1)

  // ---------------------------------------------------------------- transactions

  /** A transaction: one action for each of some distinct lookaheads. */
  ghost predicate IsTransaction(t: seq<LookaheadAction>) {
    && (forall j :: 0 <= j < |t| ==> t[j].lookahead >= 0)
    && forall i, j :: 0 <= i < j < |t| ==> t[i].lookahead != t[j].lookahead
  }

  /** What the state asked for: its action for lookahead x. */
  ghost predicate Wants(t: seq<LookaheadAction>, x: int, answer: Answer) {
    if answer.Found? then LookaheadAction(x, answer.action) in t
    else forall j :: 0 <= j < |t| ==> t[j].lookahead != x
  }

  /** yy_find_shift_action: the entry at the offset plus the lookahead counts if it names the lookahead. */
  function Lookup(entries: seq<LookaheadAction>, size: nat, offset: int, x: int): Answer
    requires size <= |entries|
  {
    if 0 <= offset + x < size && entries[offset + x].lookahead == x then Found(entries[offset + x].action) else Default
  }

  /** The reader finds exactly the entry that lies at the offset plus the lookahead and names it. */
  lemma LookupFinds(entries: seq<LookaheadAction>, size: nat, offset: int, x: int, a: int)
    requires size <= |entries|
    ensures Lookup(entries, size, offset, x) == Found(a) <==>
      exists j :: 0 <= j < size && j == offset + x && entries[j] == LookaheadAction(x, a)
  {
  }

  ghost predicate Answered(entries: seq<LookaheadAction>, size: nat, offset: int, t: seq<LookaheadAction>, x: int)
    requires size <= |entries|
  {
    Wants(t, x, Lookup(entries, size, offset, x))
  }

  /** Every lookup at the offset answers what the transaction wants. */
  ghost predicate Exact(entries: seq<LookaheadAction>, size: nat, offset: int, t: seq<LookaheadAction>)
    requires size <= |entries|
  {
    forall x :: x >= 0 ==> Answered(entries, size, offset, t, x)
  }

  /** The table: used slots below size, the last of them in use, and nothing but unused slots above. */
  ghost predicate IsTable(entries: seq<LookaheadAction>, size: nat) {
    && size <= |entries|
    && (forall j :: 0 <= j < |entries| ==> entries[j].lookahead >= 0 || entries[j] == UNUSED)
    && (forall j :: size <= j < |entries| ==> entries[j] == UNUSED)
    && (size > 0 ==> entries[size - 1].lookahead >= 0)
  }

  // ---------------------------------------------------------------- the searches

  /** Where the entries of the transaction go when its least lookahead mn is put at i. */
  ghost function Slot(mn: int, i: int, e: LookaheadAction): int { e.lookahead - mn + i }

  ghost predicate AllMatch(entries: seq<LookaheadAction>, size: nat, t: seq<LookaheadAction>, mn: int, i: int)
    requires size <= |entries|
  {
    forall j :: 0 <= j < |t| ==> 0 <= Slot(mn, i, t[j]) < size && entries[Slot(mn, i, t[j])] == t[j]
  }

  /** The entries below n that answer at the offset. */
  ghost function Answering(entries: seq<LookaheadAction>, n: nat, offset: int): set<int>
    requires n <= |entries|
  {
    set j | 0 <= j < n && entries[j].lookahead >= 0 && entries[j].lookahead == j - offset
  }

  /** The transaction is already there, and no other entry answers at its offset. */
  ghost predicate Duplicate(entries: seq<LookaheadAction>, size: nat, t: seq<LookaheadAction>, mn: int, i: int)
    requires size <= |entries|
  {
    AllMatch(entries, size, t, mn, i) && |Answering(entries, size, i - mn)| == |t|
  }

  /** All slots are free, and no used slot names the lookahead that it would answer for at the offset. */
  ghost predicate Fits(entries: seq<LookaheadAction>, size: nat, t: seq<LookaheadAction>, mn: int, i: int)
    requires size <= |entries|
  {
    && (forall j :: 0 <= j < |t| ==> 0 <= Slot(mn, i, t[j]) < |entries| && entries[Slot(mn, i, t[j])].lookahead < 0)
    && forall j :: 0 <= j < size ==> entries[j].lookahead != j - (i - mn)
  }

  ghost predicate NoDuplicate(entries: seq<LookaheadAction>, size: nat, t: seq<LookaheadAction>, mn: int)
    requires size <= |entries|
  {
    forall k :: 0 <= k < size ==> !Duplicate(entries, size, t, mn, k)
  }

  ghost predicate NoneFits(entries: seq<LookaheadAction>, size: nat, t: seq<LookaheadAction>, mn: int, i: int)
    requires size <= |entries|
  {
    forall k :: 0 <= k < i ==> !Fits(entries, size, t, mn, k)
  }

  /** Where the two searches leave i: at a duplicate, at the first slot that fits, or past the last
      slot that is checked. */
  ghost predicate Chosen(entries: seq<LookaheadAction>, size: nat, t: seq<LookaheadAction>, mn: int, mx: int, i: int)
    requires size <= |entries|
  {
    if NoDuplicate(entries, size, t, mn) then
      && 0 <= i <= |entries| - mx && NoneFits(entries, size, t, mn, i)
      && (i < |entries| - mx ==> Fits(entries, size, t, mn, i))
    else 0 <= i < size && Duplicate(entries, size, t, mn, i)
  }

  /** The search runs off its end, and some entry answers at the offset where it stops. */
  ghost predicate RunsOff(entries: seq<LookaheadAction>, size: nat, t: seq<LookaheadAction>, mn: int, mx: int)
    requires size <= |entries|
  {
    && NoDuplicate(entries, size, t, mn) && NoneFits(entries, size, t, mn, |entries| - mx)
    && Answering(entries, size, |entries| - mx - mn) != {}
  }

  /** The slots after making room for the worst case. */
  function GrownTable(entries: seq<LookaheadAction>, size: nat, mx: nat): seq<LookaheadAction> {
    if size + mx + 1 >= |entries| then
      entries + seq(size + mx + 21, i requires 0 <= i < size + mx + 21 => UNUSED)
    else entries
  }

  ghost predicate IsRange(t: seq<LookaheadAction>, mn: int, mnAction: int, mx: int) {
    && LookaheadAction(mn, mnAction) in t && 0 <= mn
    && (exists j :: 0 <= j < |t| && t[j].lookahead == mx)
    && forall j :: 0 <= j < |t| ==> mn <= t[j].lookahead <= mx
  }

  ghost predicate SlotOfSome(t: seq<LookaheadAction>, mn: int, i: int, k: int) {
    exists j :: 0 <= j < |t| && Slot(mn, i, t[j]) == k
  }

  /** entries' is entries with the transaction written at i. */
  ghost predicate Written(entries: seq<LookaheadAction>, entries': seq<LookaheadAction>, t: seq<LookaheadAction>,
                          mn: int, i: int) {
    && |entries'| == |entries|
    && (forall j :: 0 <= j < |t| ==> 0 <= Slot(mn, i, t[j]) < |entries| && entries'[Slot(mn, i, t[j])] == t[j])
    && forall k :: 0 <= k < |entries| && entries'[k] != entries[k] ==> SlotOfSome(t, mn, i, k)
  }

  // ---------------------------------------------------------------- why the answers are right

  /** The positions of a transaction are as many as its lookaheads. */
  lemma {:induction false} SlotsCount(t: seq<LookaheadAction>, mn: int, i: int, s: set<int>)
    requires IsTransaction(t) && s == set j | 0 <= j < |t| :: Slot(mn, i, t[j])
    ensures |s| == |t|
  {
    if t != [] {
      var l := t[..|t| - 1];
      var s' := set j | 0 <= j < |l| :: Slot(mn, i, l[j]);
      SlotsCount(l, mn, i, s');
      assert s == s' + {Slot(mn, i, t[|t| - 1])};
      assert Slot(mn, i, t[|t| - 1]) !in s';
    } else {
      assert s == {};
    }
  }

  lemma SubsetFull(a: set<int>, b: set<int>)
    requires a <= b && |a| == |b|
    ensures a == b
  {
    assert b == a + (b - a);
  }

  /** A duplicate answers exactly as wanted: the count leaves no room for a foreign entry. */
  lemma DuplicateIsExact(entries: seq<LookaheadAction>, size: nat, t: seq<LookaheadAction>, mn: int, i: int)
    requires size <= |entries| && IsTransaction(t) && Duplicate(entries, size, t, mn, i)
    ensures Exact(entries, size, i - mn, t)
  {
    var s := set j | 0 <= j < |t| :: Slot(mn, i, t[j]);
    SlotsCount(t, mn, i, s);
    SubsetFull(s, Answering(entries, size, i - mn));
    var offset := i - mn;
    forall x | x >= 0 ensures Answered(entries, size, offset, t, x) {
      var k := offset + x;
      if 0 <= k < size && entries[k].lookahead == x {
        assert k in Answering(entries, size, offset);
        var j :| 0 <= j < |t| && Slot(mn, i, t[j]) == k;
        assert entries[k] == t[j];
      } else {
        forall j | 0 <= j < |t| ensures t[j].lookahead != x {
          assert Slot(mn, i, t[j]) - (i - mn) == t[j].lookahead;
        }
      }
    }
  }

  /** A transaction written into free slots of an offset that nothing answers at is answered exactly. */
  lemma WrittenIsExact(entries: seq<LookaheadAction>, size: nat, entries': seq<LookaheadAction>, size': nat,
                       t: seq<LookaheadAction>, mn: int, i: int)
    requires IsTable(entries, size) && IsTransaction(t) && Written(entries, entries', t, mn, i)
    requires size <= size' <= |entries|
    requires forall j :: 0 <= j < |t| ==> Slot(mn, i, t[j]) < size'
    requires Answering(entries, size, i - mn) == {}
    ensures Exact(entries', size', i - mn, t)
  {
    var offset := i - mn;
    forall x | x >= 0 ensures Answered(entries', size', offset, t, x) {
      var k := offset + x;
      if j :| 0 <= j < |t| && t[j].lookahead == x {
        assert Slot(mn, i, t[j]) == k;
      } else {
        assert !SlotOfSome(t, mn, i, k);
        assert 0 <= k < |entries| ==> entries'[k] == entries[k];
        assert k !in Answering(entries, size, offset);
      }
    }
  }

  /** What is answered at another offset does not change: the new entries answer only at their own. */
  lemma OthersKeepAnswers(entries: seq<LookaheadAction>, size: nat, entries': seq<LookaheadAction>, size': nat,
                          t: seq<LookaheadAction>, mn: int, i: int, offset: int, u: seq<LookaheadAction>)
    requires IsTable(entries, size) && IsTransaction(t) && Written(entries, entries', t, mn, i)
    requires size <= size' <= |entries|
    requires forall j :: 0 <= j < |t| ==> entries[Slot(mn, i, t[j])].lookahead < 0
    requires Exact(entries, size, offset, u) && offset != i - mn
    ensures Exact(entries', size', offset, u)
  {
    forall x | x >= 0 ensures Answered(entries', size', offset, u, x) {
      var k := offset + x;
      assert Answered(entries, size, offset, u, x);
      if 0 <= k < |entries| && entries'[k] != entries[k] {
        var j :| 0 <= j < |t| && Slot(mn, i, t[j]) == k;
        assert entries[k].lookahead < 0 && entries'[k] == t[j];
      }
    }
  }

  /** A transaction that is answered has an entry at its offset. */
  lemma ExactIsAnswering(entries: seq<LookaheadAction>, size: nat, offset: int, u: seq<LookaheadAction>)
    requires size <= |entries| && u != [] && IsTransaction(u) && Exact(entries, size, offset, u)
    ensures Answering(entries, size, offset) != {}
  {
    var x := u[0].lookahead;
    assert Answered(entries, size, offset, u, x);
    assert offset + x in Answering(entries, size, offset);
  }

  /** Beyond the used slots an aliased offset makes some lookup answer that the transaction does not want. */
  lemma AliasedIsWrong(entries: seq<LookaheadAction>, size: nat, entries': seq<LookaheadAction>, size': nat,
                       t: seq<LookaheadAction>, mn: int, i: int)
    requires IsTable(entries, size) && IsTransaction(t) && Written(entries, entries', t, mn, i)
    requires size <= size' <= |entries|
    requires i >= size && (forall j :: 0 <= j < |t| ==> t[j].lookahead >= mn)
    requires Answering(entries, size, i - mn) != {}
    ensures !Exact(entries', size', i - mn, t)
  {
    var k :| k in Answering(entries, size, i - mn);
    var x := entries[k].lookahead;
    assert !SlotOfSome(t, mn, i, k);
    assert Lookup(entries', size', i - mn, x) == Found(entries[k].action);
    forall j | 0 <= j < |t| ensures t[j].lookahead != x {
      assert Slot(mn, i, t[j]) > k;
    }
    assert !Answered(entries', size', i - mn, t, x);
  }

  lemma SlotsGrow(t: seq<LookaheadAction>, j: nat, mn: int, i: int)
    requires j < |t|
    ensures forall x :: SlotOfSome(t[..j], mn, i, x) ==> SlotOfSome(t[..j + 1], mn, i, x)
    ensures SlotOfSome(t[..j + 1], mn, i, Slot(mn, i, t[j]))
  {
    forall x | SlotOfSome(t[..j], mn, i, x) ensures SlotOfSome(t[..j + 1], mn, i, x) {
      var m :| 0 <= m < j && Slot(mn, i, t[..j][m]) == x;
      assert t[..j + 1][m] == t[m];
    }
    assert t[..j + 1][j] == t[j];
  }

  lemma WrittenOneMore(entries: seq<LookaheadAction>, now: seq<LookaheadAction>, t: seq<LookaheadAction>, j: nat,
                       mn: int, i: int)
    requires j < |t| && IsTransaction(t) && Written(entries, now, t[..j], mn, i) && 0 <= Slot(mn, i, t[j]) < |entries|
    ensures Written(entries, now[Slot(mn, i, t[j]) := t[j]], t[..j + 1], mn, i)
  {
    SlotsGrow(t, j, mn, i);
    var k := Slot(mn, i, t[j]);
    forall m | 0 <= m < j + 1 ensures now[k := t[j]][Slot(mn, i, t[m])] == t[m] && 0 <= Slot(mn, i, t[m]) < |entries| {
      if m < j {
        assert t[..j][m] == t[m];
      }
    }
  }

  lemma SameAnswers(entries: seq<LookaheadAction>, grown: seq<LookaheadAction>, size: nat, offset: int,
                    t: seq<LookaheadAction>)
    requires size <= |entries| <= |grown| && forall k :: 0 <= k < size ==> grown[k] == entries[k]
    ensures Exact(grown, size, offset, t) <==> Exact(entries, size, offset, t)
  {
    forall x ensures Answered(grown, size, offset, t, x) <==> Answered(entries, size, offset, t, x) {
    }
  }

  datatype Inserted = Inserted(offset: int, transaction: seq<LookaheadAction>)

  ghost predicate AllExactIn(entries: seq<LookaheadAction>, size: nat, history: seq<Inserted>)
    requires size <= |entries|
  {
    forall n :: 0 <= n < |history| ==> Exact(entries, size, history[n].offset, history[n].transaction)
  }

  /** Making room keeps every answer. */
  lemma GrownKeeps(entries: seq<LookaheadAction>, size: nat, mx: nat, history: seq<Inserted>)
    requires IsTable(entries, size)
    ensures IsTable(GrownTable(entries, size, mx), size) && size + mx + 1 < |GrownTable(entries, size, mx)|
    ensures AllExactIn(entries, size, history) <==> AllExactIn(GrownTable(entries, size, mx), size, history)
  {
    var grown := GrownTable(entries, size, mx);
    forall n | 0 <= n < |history|
      ensures Exact(grown, size, history[n].offset, history[n].transaction)
        <==> Exact(entries, size, history[n].offset, history[n].transaction)
    {
      SameAnswers(entries, grown, size, history[n].offset, history[n].transaction);
    }
  }

  ghost predicate ValidHistory(history: seq<Inserted>) {
    forall n :: 0 <= n < |history| ==> history[n].transaction != [] && IsTransaction(history[n].transaction)
  }

  /** The entries after the insertion at i. */
  ghost predicate After(entries: seq<LookaheadAction>, size: nat, entries': seq<LookaheadAction>, size': nat,
                        t: seq<LookaheadAction>, mn: int, i: int) {
    && Written(entries, entries', t, mn, i) && size <= size' <= |entries|
    && (forall j :: 0 <= j < |t| ==> Slot(mn, i, t[j]) < size')
    && (size' > size ==> SlotOfSome(t, mn, i, size' - 1))
  }

  lemma AfterNone(entries: seq<LookaheadAction>, size: nat, t: seq<LookaheadAction>, mn: int, i: int)
    requires IsTable(entries, size)
    ensures After(entries, size, entries, size, t[..0], mn, i)
  {
  }

  lemma InRange(t: seq<LookaheadAction>, mn: int, mnAction: int, mx: int, j: nat)
    requires IsRange(t, mn, mnAction, mx) && j < |t|
    ensures mn <= t[j].lookahead <= mx
  {
  }

  lemma NonNegative(t: seq<LookaheadAction>, j: nat)
    requires IsTransaction(t) && j < |t|
    ensures t[j].lookahead >= 0
  {
  }

  lemma AfterOneMore(entries: seq<LookaheadAction>, size0: nat, now: seq<LookaheadAction>, size: nat,
                     t: seq<LookaheadAction>, j: nat, mn: int, i: int)
    requires j < |t| && IsTransaction(t) && After(entries, size0, now, size, t[..j], mn, i) && IsTable(now, size)
    requires 0 <= Slot(mn, i, t[j]) < |entries|
    ensures var k := Slot(mn, i, t[j]);
            var size' := if k >= size then k + 1 else size;
            && |now| == |entries| && size' <= |now| && IsTable(now[k := t[j]], size')
            && After(entries, size0, now[k := t[j]], size', t[..j + 1], mn, i)
  {
    hide IsTransaction;
    WrittenOneMore(entries, now, t, j, mn, i);
    SlotsGrow(t, j, mn, i);
    assert t[j].lookahead >= 0 by { NonNegative(t, j); }
    assert forall m :: 0 <= m < j ==> t[..j + 1][m] == t[..j][m];
  }

  /** Writing a duplicate changes nothing. */
  lemma DuplicateChangesNothing(entries: seq<LookaheadAction>, size: nat, entries': seq<LookaheadAction>, size': nat,
                                t: seq<LookaheadAction>, mn: int, i: int)
    requires size <= |entries| && Duplicate(entries, size, t, mn, i) && After(entries, size, entries', size', t, mn, i)
    ensures entries' == entries && size' == size
  {
    forall k | 0 <= k < |entries| ensures entries'[k] == entries[k] {
      if SlotOfSome(t, mn, i, k) {
        var j :| 0 <= j < |t| && Slot(mn, i, t[j]) == k;
      }
    }
  }

  /** Writing at an offset that nothing answers at keeps all answers and answers the transaction. */
  lemma FreshOffset(entries: seq<LookaheadAction>, size: nat, entries': seq<LookaheadAction>, size': nat,
                    t: seq<LookaheadAction>, mn: int, i: int, history: seq<Inserted>)
    requires IsTable(entries, size) && IsTransaction(t) && After(entries, size, entries', size', t, mn, i)
    requires forall j :: 0 <= j < |t| ==> entries[Slot(mn, i, t[j])].lookahead < 0
    requires Answering(entries, size, i - mn) == {} && ValidHistory(history) && AllExactIn(entries, size, history)
    ensures Exact(entries', size', i - mn, t) && AllExactIn(entries', size', history)
  {
    WrittenIsExact(entries, size, entries', size', t, mn, i);
    forall n | 0 <= n < |history| ensures Exact(entries', size', history[n].offset, history[n].transaction) {
      ExactIsAnswering(entries, size, history[n].offset, history[n].transaction);
      OthersKeepAnswers(entries, size, entries', size', t, mn, i, history[n].offset, history[n].transaction);
    }
  }

  /** With room for the least lookahead too, and always if that is 0 or 1, the search stops at a slot
      it has checked. */
  lemma RoomToSpare(entries: seq<LookaheadAction>, size: nat, t: seq<LookaheadAction>, mn: int, mnAction: int, mx: int)
    requires IsTable(entries, size) && IsRange(t, mn, mnAction, mx) && size + mx + 1 < |entries|
    requires mn <= 1 || size + mn + mx < |entries|
    ensures Fits(entries, size, t, mn, size + mn) && !NoneFits(entries, size, t, mn, |entries| - mx)
    ensures !RunsOff(entries, size, t, mn, mx)
  {
    assert Fits(entries, size, t, mn, size + mn);
    assert size + mn < |entries| - mx;
  }

  /** What one insertion does to the answers. */
  lemma InsertOutcome(entries: seq<LookaheadAction>, size: nat, entries': seq<LookaheadAction>, size': nat,
                      t: seq<LookaheadAction>, mn: int, mnAction: int, mx: int, i: int, history: seq<Inserted>)
    requires IsTable(entries, size) && IsTransaction(t) && IsRange(t, mn, mnAction, mx) && size + mx + 1 < |entries|
    requires Chosen(entries, size, t, mn, mx, i) && After(entries, size, entries', size', t, mn, i)
    requires ValidHistory(history) && AllExactIn(entries, size, history)
    ensures Exact(entries', size', i - mn, t) && AllExactIn(entries', size', history)
      <==> !RunsOff(entries, size, t, mn, mx)
  {
    if !NoDuplicate(entries, size, t, mn) {
      DuplicateChangesNothing(entries, size, entries', size', t, mn, i);
      DuplicateIsExact(entries, size, t, mn, i);
    } else {
      forall j | 0 <= j < |t| ensures entries[Slot(mn, i, t[j])].lookahead < 0 {
        assert i == |entries| - mx ==> Slot(mn, i, t[j]) >= size;
      }
      if Answering(entries, size, i - mn) == {} {
        FreshOffset(entries, size, entries', size', t, mn, i, history);
      } else {
        var k :| k in Answering(entries, size, i - mn);
        assert i == |entries| - mx;
        AliasedIsWrong(entries, size, entries', size', t, mn, i);
      }
    }
  }

  // ---------------------------------------------------------------- the table under construction

  lemma HistoryGrows(entries: seq<LookaheadAction>, size: nat, history: seq<Inserted>, offset: int,
                     t: seq<LookaheadAction>)
    requires size <= |entries| && ValidHistory(history) && t != [] && IsTransaction(t)
    ensures ValidHistory(history + [Inserted(offset, t)])
    ensures AllExactIn(entries, size, history + [Inserted(offset, t)])
      <==> AllExactIn(entries, size, history) && Exact(entries, size, offset, t)
  {
    var more := history + [Inserted(offset, t)];
    assert more[|history|] == Inserted(offset, t);
    assert forall n :: 0 <= n < |history| ==> more[n] == history[n];
  }

  class ActTab {
    var nAction: nat
    /** The allocated slots. */
    var aAction: seq<LookaheadAction>
    /** The transaction being built. */
    var aLookahead: seq<LookaheadAction>
    var mnLookahead: nat
    var mnAction: int
    var mxLookahead: nat
    /** The transactions inserted so far, with the offsets that were returned for them. */
    ghost var inserted: seq<Inserted>

    ghost predicate Valid()
      reads this
    {
      && IsTable(aAction, nAction) && IsTransaction(aLookahead) && ValidHistory(inserted)
      && (aLookahead != [] ==> IsRange(aLookahead, mnLookahead, mnAction, mxLookahead))
    }

    /** Every inserted transaction is answered exactly. */
    ghost predicate AllExact()
      reads this
      requires nAction <= |aAction|
    {
      AllExactIn(aAction, nAction, inserted)
    }

    constructor ()
      ensures Valid() && AllExact() && inserted == [] && aLookahead == [] && nAction == 0 && aAction == []
    {
      nAction, aAction, aLookahead, inserted := 0, [], [], [];
      mnLookahead, mnAction, mxLookahead := 0, 0, 0;
    }

    /** acttab_action, which is called once for each lookahead. */
    method Action(lookahead: nat, action: int)
      requires Valid() && forall j :: 0 <= j < |aLookahead| ==> aLookahead[j].lookahead != lookahead
      modifies this`aLookahead, this`mnLookahead, this`mnAction, this`mxLookahead
      ensures Valid() && aLookahead == old(aLookahead) + [LookaheadAction(lookahead, action)]
    {
      if aLookahead == [] {
        mxLookahead, mnLookahead, mnAction := lookahead, lookahead, action;
      } else {
        if mxLookahead < lookahead {
          mxLookahead := lookahead;
        }
        if mnLookahead > lookahead {
          mnLookahead, mnAction := lookahead, action;
        }
      }
      ghost var t := aLookahead;
      aLookahead := aLookahead + [LookaheadAction(lookahead, action)];
      assert aLookahead[|t|] == LookaheadAction(lookahead, action);
      assert t != [] ==> forall j :: 0 <= j < |t| ==> aLookahead[j] == t[j];
    }

    /** Makes room for the worst case. */
    method Grow()
      requires Valid() && aLookahead != []
      modifies this`aAction
      ensures Valid() && aAction == GrownTable(old(aAction), nAction, mxLookahead)
    {
      var n := mxLookahead + 1;
      if nAction + n >= |aAction| {
        var more := nAction + n + 20;
        aAction := aAction + seq(more, i requires 0 <= i < more => UNUSED);
      }
    }

    /** The first search: an equal transaction that nothing else shares an offset with; -1 if there is none. */
    method FindDuplicate() returns (i: int)
      requires Valid() && aLookahead != []
      ensures -1 <= i < nAction
      ensures i >= 0 ==> Duplicate(aAction, nAction, aLookahead, mnLookahead, i)
      ensures i < 0 ==> NoDuplicate(aAction, nAction, aLookahead, mnLookahead)
    {
      hide Duplicate;
      i := nAction - 1;
      while i >= 0
        invariant -1 <= i < nAction
        invariant forall k :: i < k < nAction ==> !Duplicate(aAction, nAction, aLookahead, mnLookahead, k)
      {
        var duplicate := IsDuplicate(i);
        if duplicate {
          break;
        }
        i := i - 1;
      }
    }

    method IsDuplicate(i: nat) returns (duplicate: bool)
      requires Valid() && aLookahead != [] && i < nAction
      ensures duplicate <==> Duplicate(aAction, nAction, aLookahead, mnLookahead, i)
    {
      ghost var l :| 0 <= l < |aLookahead| && aLookahead[l] == LookaheadAction(mnLookahead, mnAction);
      assert Slot(mnLookahead, i, aLookahead[l]) == i;
      if aAction[i].lookahead != mnLookahead || aAction[i].action != mnAction {
        return false;
      }
      for j := 0 to |aLookahead|
        invariant forall m :: 0 <= m < j ==>
          && 0 <= Slot(mnLookahead, i, aLookahead[m]) < nAction
          && aAction[Slot(mnLookahead, i, aLookahead[m])] == aLookahead[m]
      {
        var k := aLookahead[j].lookahead - mnLookahead + i;
        assert k == Slot(mnLookahead, i, aLookahead[j]);
        if k < 0 || k >= nAction || aLookahead[j] != aAction[k] {
          return false;
        }
      }
      var n := CountAnswering(i);
      return n == |aLookahead|;
    }

    /** The entries that lookups at the offset of slot i would find. */
    method CountAnswering(i: nat) returns (n: nat)
      requires nAction <= |aAction|
      ensures n == |Answering(aAction, nAction, i - mnLookahead)|
    {
      n := 0;
      for j := 0 to nAction
        invariant n == |Answering(aAction, j, i - mnLookahead)|
      {
        assert Answering(aAction, j + 1, i - mnLookahead)
            == Answering(aAction, j, i - mnLookahead)
              + if aAction[j].lookahead >= 0 && aAction[j].lookahead == j - (i - mnLookahead) then {j} else {};
        if aAction[j].lookahead >= 0 && aAction[j].lookahead == j + mnLookahead - i {
          n := n + 1;
        }
      }
    }

    /** The second search: the lowest slot that fits. It may run off the end without a check. */
    method FindSlot() returns (i: nat)
      requires Valid() && aLookahead != [] && nAction + mxLookahead + 1 < |aAction|
      ensures i <= |aAction| - mxLookahead
      ensures i < |aAction| - mxLookahead ==> Fits(aAction, nAction, aLookahead, mnLookahead, i)
      ensures NoneFits(aAction, nAction, aLookahead, mnLookahead, i)
    {
      hide Fits;
      i := 0;
      while i < |aAction| - mxLookahead
        invariant i <= |aAction| - mxLookahead && NoneFits(aAction, nAction, aLookahead, mnLookahead, i)
      {
        var fits := IsSlot(i);
        if fits {
          break;
        }
        i := i + 1;
      }
    }

    /** Both searches: where the transaction is to be written. */
    method Search() returns (i: nat)
      requires Valid() && aLookahead != [] && nAction + mxLookahead + 1 < |aAction|
      ensures Chosen(aAction, nAction, aLookahead, mnLookahead, mxLookahead, i)
      ensures i + mxLookahead - mnLookahead < |aAction|
    {
      hide Duplicate, Fits;
      var found := FindDuplicate();
      if found >= 0 {
        return found;
      }
      i := FindSlot();
      if mnLookahead == 0 {
        RoomToSpare(aAction, nAction, aLookahead, mnLookahead, mnAction, mxLookahead);
      }
    }

    method IsSlot(i: nat) returns (fits: bool)
      requires Valid() && aLookahead != [] && i < |aAction| - mxLookahead
      ensures fits <==> Fits(aAction, nAction, aLookahead, mnLookahead, i)
    {
      ghost var l :| 0 <= l < |aLookahead| && aLookahead[l] == LookaheadAction(mnLookahead, mnAction);
      assert Slot(mnLookahead, i, aLookahead[l]) == i;
      if aAction[i].lookahead >= 0 {
        return false;
      }
      for j := 0 to |aLookahead|
        invariant forall m :: 0 <= m < j ==> aAction[Slot(mnLookahead, i, aLookahead[m])].lookahead < 0
      {
        var k := aLookahead[j].lookahead - mnLookahead + i;
        assert k == Slot(mnLookahead, i, aLookahead[j]);
        if k < 0 || aAction[k].lookahead >= 0 {
          return false;
        }
      }
      for j := 0 to nAction
        invariant forall m :: 0 <= m < j ==> aAction[m].lookahead != m - (i - mnLookahead)
      {
        if aAction[j].lookahead == j + mnLookahead - i {
          return false;
        }
      }
      return true;
    }

    /** Writes the transaction and empties it. */
    method Write(i: nat)
      requires Valid() && aLookahead != [] && i + mxLookahead - mnLookahead < |aAction|
      modifies this`aAction, this`nAction, this`aLookahead
      ensures aLookahead == [] && IsTransaction(aLookahead) && nAction <= |aAction| && IsTable(aAction, nAction)
      ensures After(old(aAction), old(nAction), aAction, nAction, old(aLookahead), mnLookahead, i)
    {
      hide IsTable, After, IsRange, ValidHistory;
      ghost var before, size := aAction, nAction;
      AfterNone(aAction, nAction, aLookahead, mnLookahead, i);
      for j := 0 to |aLookahead|
        invariant aLookahead == old(aLookahead) && nAction <= |aAction| == |before|
        invariant After(before, size, aAction, nAction, aLookahead[..j], mnLookahead, i) && IsTable(aAction, nAction)
      {
        InRange(aLookahead, mnLookahead, mnAction, mxLookahead, j);
        var k := aLookahead[j].lookahead - mnLookahead + i;
        AfterOneMore(before, size, aAction, nAction, aLookahead, j, mnLookahead, i);
        aAction := aAction[k := aLookahead[j]];
        if k >= nAction {
          nAction := k + 1;
        }
      }
      assert aLookahead[..|aLookahead|] == aLookahead;
      aLookahead := [];
    }

    /** acttab_insert. If the search stops at a slot it has checked, every transaction, old and new, is
        answered exactly. If it runs off its end, they are exactly when no entry answers at the offset. */
    method Insert() returns (offset: int)
      requires Valid() && aLookahead != []
      modifies this
      ensures Valid() && aLookahead == []
      ensures inserted == old(inserted) + [Inserted(offset, old(aLookahead))]
      ensures old(AllExact()) ==> (AllExact() <==> !RunsOff(GrownTable(old(aAction), old(nAction), old(mxLookahead)),
        old(nAction), old(aLookahead), old(mnLookahead), old(mxLookahead)))
      ensures Chosen(GrownTable(old(aAction), old(nAction), old(mxLookahead)), old(nAction), old(aLookahead),
        old(mnLookahead), old(mxLookahead), offset + old(mnLookahead))
      ensures After(GrownTable(old(aAction), old(nAction), old(mxLookahead)), old(nAction), aAction, nAction,
        old(aLookahead), old(mnLookahead), offset + old(mnLookahead))
    {
      hide IsTable, IsTransaction, IsRange, ValidHistory, Chosen, After, RunsOff, AllExactIn, Exact, GrownTable;
      ghost var t, history := aLookahead, inserted;
      GrownKeeps(aAction, nAction, mxLookahead, inserted);
      Grow();
      ghost var entries, size := aAction, nAction;
      var i := Search();
      Write(i);
      offset := i - mnLookahead;
      inserted := inserted + [Inserted(offset, t)];
      HistoryGrows(aAction, nAction, history, offset, t);
      if AllExactIn(entries, size, history) {
        InsertOutcome(entries, size, aAction, nAction, t, mnLookahead, mnAction, mxLookahead, i, history);
      }
    }
  }

  // ---------------------------------------------------------------- a run that goes wrong

  /** The table after the transactions {0 -> 0}, {0 -> 1}, ..., {0 -> n - 1}. */
  ghost predicate Singles(entries: seq<LookaheadAction>, n: nat) {
    n <= |entries| && forall j :: 0 <= j < |entries| ==> entries[j] == if j < n then LookaheadAction(0, j) else UNUSED
  }

  lemma SingleGoesLast(entries: seq<LookaheadAction>, n: nat, i: int)
    requires Singles(entries, n) && n < |entries| && Chosen(entries, n, [LookaheadAction(0, n)], 0, 0, i)
    ensures i == n
  {
    var t := [LookaheadAction(0, n)];
    forall k | 0 <= k < n ensures !Duplicate(entries, n, t, 0, k) && !Fits(entries, n, t, 0, k) {
      assert Slot(0, k, t[0]) == k;
    }
    assert Slot(0, n, t[0]) == n && Fits(entries, n, t, 0, n);
  }

  /** With 55 such entries in 62 slots no slot is found for {5 -> 99}: both free slots that are checked
      are at offsets where an entry answers, and so is the slot that is taken unchecked. */
  lemma FiveRunsOff(entries: seq<LookaheadAction>)
    requires Singles(entries, 55) && |entries| == 62
    ensures RunsOff(entries, 55, [LookaheadAction(5, 99)], 5, 5)
  {
    var t := [LookaheadAction(5, 99)];
    forall k | 0 <= k < 57 ensures !Fits(entries, 55, t, 5, k) && (k < 55 ==> !Duplicate(entries, 55, t, 5, k)) {
      assert Slot(5, k, t[0]) == k;
      assert k >= 55 ==> entries[k - 5].lookahead == (k - 5) - (k - 5);
    }
    assert 52 in Answering(entries, 55, 52);
  }

  lemma RangeOfOne(t: seq<LookaheadAction>, mn: int, mnAction: int, mx: int, x: int, action: int)
    requires t == [LookaheadAction(x, action)] && IsRange(t, mn, mnAction, mx)
    ensures mn == mx == x
  {
  }

  lemma SingleWritten(grown: seq<LookaheadAction>, k: nat, entries': seq<LookaheadAction>, size': nat)
    requires Singles(grown, k) && k + 1 < |grown| && After(grown, k, entries', size', [LookaheadAction(0, k)], 0, k)
    requires IsTable(grown, k)
    ensures Singles(entries', k + 1) && size' == k + 1 && |entries'| == |grown|
    ensures !RunsOff(grown, k, [LookaheadAction(0, k)], 0, 0)
  {
    var t := [LookaheadAction(0, k)];
    assert Slot(0, k, t[0]) == k;
    assert forall x :: SlotOfSome(t, 0, k, x) ==> x == k;
    RoomToSpare(grown, k, t, 0, k, 0);
  }

  method InsertSingle(tab: ActTab, k: nat)
    requires tab.Valid() && tab.AllExact() && tab.aLookahead == [] && tab.nAction == k && Singles(tab.aAction, k)
    modifies tab
    ensures tab.Valid() && tab.AllExact() && tab.aLookahead == [] && tab.nAction == k + 1 && Singles(tab.aAction, k + 1)
    ensures |tab.inserted| == old(|tab.inserted|) + 1
    ensures |tab.aAction| == if k + 1 >= old(|tab.aAction|) then k + 21 + old(|tab.aAction|) else old(|tab.aAction|)
  {
    hide IsTable, Exact, IsTransaction, ValidHistory, RunsOff, Chosen, After, AllExactIn;
    ghost var grown := GrownTable(tab.aAction, k, 0);
    ghost var t := [LookaheadAction(0, k)];
    GrownKeeps(tab.aAction, k, 0, []);
    tab.Action(0, k);
    assert tab.aLookahead == t;
    RangeOfOne(tab.aLookahead, tab.mnLookahead, tab.mnAction, tab.mxLookahead, 0, k);
    var offset := tab.Insert();
    SingleGoesLast(grown, k, offset);
    SingleWritten(grown, k, tab.aAction, tab.nAction);
  }

  /** A run of 56 insertions after which some lookup answers what its transaction does not want. */
  method AliasingRun() returns (tab: ActTab)
    ensures tab.Valid() && |tab.inserted| == 56 && !tab.AllExact()
  {
    hide IsTable, Exact, Duplicate, Fits, IsTransaction, ValidHistory, RunsOff;
    tab := new ActTab();
    for k := 0 to 55
      invariant fresh(tab) && tab.Valid() && tab.aLookahead == [] && |tab.inserted| == k
      invariant tab.nAction == k && Singles(tab.aAction, k) && tab.AllExact()
      invariant |tab.aAction| == if k == 0 then 0 else if k <= 20 then 21 else 62
    {
      InsertSingle(tab, k);
    }
    tab.Action(5, 99);
    assert tab.aLookahead == [LookaheadAction(5, 99)];
    RangeOfOne(tab.aLookahead, tab.mnLookahead, tab.mnAction, tab.mxLookahead, 5, 99);
    FiveRunsOff(tab.aAction);
    var offset := tab.Insert();
  }
}
