/**
 * The warm addresses, warm slots and touched accounts of a transaction, and the height-tagged log that
 * undoes them (packages/evm/src/journal.ts).
 */
module AccessJournal {
  import opened StateManager

  type Slot = Data

  const RIPEMD160_ADDRESS := Address(3)

  /** What has been made warm, and what has been touched. */
  datatype Warmth = Warmth(slots: map<Address, set<Slot>>, touched: set<Address>)

  /** What one stretch of execution at one height added. */
  datatype Entry = Entry(height: int, addresses: set<Address>, slots: map<Address, set<Slot>>, touched: set<Address>)

  function SlotsOf(e: Entry, a: Address): set<Slot> {
    if a in e.slots then e.slots[a] else {}
  }

  /** The same, but for whether the RIPEMD-160 precompile is touched. */
  ghost predicate Same(x: Warmth, y: Warmth) {
    x.slots == y.slots && forall a | a != RIPEMD160_ADDRESS :: a in x.touched <==> a in y.touched
  }

  /** Taking the entry's additions away leads from `after` to `before`. */
  ghost predicate Undoes(e: Entry, after: Warmth, before: Warmth) {
    && (forall a :: a in before.slots <==> a in after.slots && a !in e.addresses)
    && (forall a | a in before.slots :: before.slots[a] == after.slots[a] - SlotsOf(e, a))
    && (forall a | a != RIPEMD160_ADDRESS :: a in before.touched <==> a in after.touched && a !in e.touched)
  }

  lemma {:induction false} UndoesSame(e: Entry, after: Warmth, before: Warmth, after': Warmth, before': Warmth)
    requires Undoes(e, after, before) && Same(after, after')
    ensures Same(before, before') <==> Undoes(e, after', before')
  {
    if Undoes(e, after', before') {
      assert before.slots.Keys == before'.slots.Keys;
    }
  }

  // ----- the log -------------------------------------------------------------------------------

  /** The states when each entry of the log was begun, and those at the open checkpoints. */
  datatype Past = Past(trail: seq<Warmth>, snapshots: seq<Warmth>)

  ghost function After(trail: seq<Warmth>, now: Warmth, i: int): Warmth
    requires 0 <= i < |trail|
  {
    if i + 1 < |trail| then trail[i + 1] else now
  }

  /** Adjacent heights differ by one, and the last is the current height. */
  ghost predicate Heights(log: seq<Entry>, height: int) {
    && log != [] && log[0].height == 0 && log[|log| - 1].height == height
    && forall i {:trigger log[i].height} | 0 < i < |log| ::
         0 <= log[i].height && (log[i].height == log[i - 1].height + 1 || log[i].height == log[i - 1].height - 1)
  }

  ghost predicate Undoable(log: seq<Entry>, trail: seq<Warmth>, now: Warmth) {
    && |trail| == |log|
    && forall i {:trigger Undoes(log[i], After(trail, now, i), trail[i])} | 0 <= i < |log| ::
         Undoes(log[i], After(trail, now, i), trail[i])
  }

  /** The index of the last entry below height `h`. */
  ghost function LastBelow(log: seq<Entry>, h: int, n: nat): (r: nat)
    requires 0 < n <= |log| && log[0].height < h
    ensures r < n && log[r].height < h
    ensures forall i {:trigger log[i].height} | r < i < n :: log[i].height >= h
  {
    if log[n - 1].height < h then n - 1 else LastBelow(log, h, n - 1)
  }

  /** Undoing down to the last entry below height `h` brings the snapshot of that height back. */
  ghost predicate SnapshotAt(log: seq<Entry>, trail: seq<Warmth>, snapshots: seq<Warmth>, h: int)
    requires |trail| == |log| > 0 && log[0].height == 0 && 1 <= h <= |snapshots|
  {
    var f := LastBelow(log, h, |log|);
    f + 1 < |log| && Same(trail[f + 1], snapshots[h - 1])
  }

  ghost predicate Refines(log: seq<Entry>, past: Past, height: int) {
    && |past.snapshots| == height && |past.trail| == |log| > 0 && log[0].height == 0
    && forall h {:trigger SnapshotAt(log, past.trail, past.snapshots, h)} | 1 <= h <= height ::
         SnapshotAt(log, past.trail, past.snapshots, h)
  }

  ghost predicate LogOk(log: seq<Entry>, height: int, now: Warmth, past: Past) {
    && Heights(log, height) && Undoable(log, past.trail, now) && Refines(log, past, height)
    && forall s | s in past.snapshots && RIPEMD160_ADDRESS in s.touched :: RIPEMD160_ADDRESS in now.touched
  }

  lemma {:induction false} LastBelowPrefix(log: seq<Entry>, log': seq<Entry>, h: int, n: nat)
    requires 0 < n <= |log| && n <= |log'| && log[0].height < h
    requires forall i | 0 <= i < n :: log'[i].height == log[i].height
    ensures LastBelow(log', h, n) == LastBelow(log, h, n)
  {
    if log[n - 1].height >= h {
      LastBelowPrefix(log, log', h, n - 1);
    }
  }

  /** A new entry begins where the state now is. */
  lemma {:induction false} UndoablePushed(log: seq<Entry>, trail: seq<Warmth>, now: Warmth, e: Entry)
    requires Undoable(log, trail, now) && e.addresses == {} && e.slots == map[] && e.touched == {}
    ensures Undoable(log + [e], trail + [now], now)
  {
    var log', trail' := log + [e], trail + [now];
    forall i | 0 <= i < |log'|
      ensures Undoes(log'[i], After(trail', now, i), trail'[i])
    {
      if i < |log| {
        assert Undoes(log[i], After(trail, now, i), trail[i]);
      }
    }
  }

  lemma {:induction false} SnapshotPushed(log: seq<Entry>, trail: seq<Warmth>, snapshots: seq<Warmth>, e: Entry,
                                          now: Warmth, snapshots': seq<Warmth>, h: int)
    requires |trail| == |log| > 0 && log[0].height == 0 && 1 <= h <= |snapshots| && h <= |snapshots'|
    requires snapshots'[h - 1] == snapshots[h - 1] && e.height >= h && SnapshotAt(log, trail, snapshots, h)
    ensures SnapshotAt(log + [e], trail + [now], snapshots', h)
  {
    LastBelowPrefix(log, log + [e], h, |log|);
  }

  lemma {:induction false} LogCheckpoint(log: seq<Entry>, height: int, now: Warmth, past: Past, e: Entry)
    requires LogOk(log, height, now, past) && e == Entry(height + 1, {}, map[], {})
    ensures LogOk(log + [e], height + 1, now, Past(past.trail + [now], past.snapshots + [now]))
  {
    UndoablePushed(log, past.trail, now, e);
    RefinesCheckpoint(log, height, now, past, e);
  }

  lemma {:induction false} RefinesCheckpoint(log: seq<Entry>, height: int, now: Warmth, past: Past, e: Entry)
    requires Heights(log, height) && Refines(log, past, height) && e.height == height + 1
    ensures Refines(log + [e], Past(past.trail + [now], past.snapshots + [now]), height + 1)
  {
    forall h | 1 <= h <= height + 1
      ensures SnapshotAt(log + [e], past.trail + [now], past.snapshots + [now], h)
    {
      if h <= height {
        SnapshotPushed(log, past.trail, past.snapshots, e, now, past.snapshots + [now], h);
      } else {
        assert LastBelow(log + [e], h, |log| + 1) == |log| - 1;
      }
    }
  }

  lemma {:induction false} LogCommit(log: seq<Entry>, height: int, now: Warmth, past: Past, e: Entry)
    requires LogOk(log, height, now, past) && height > 0 && e == Entry(height - 1, {}, map[], {})
    ensures LogOk(log + [e], height - 1, now, Past(past.trail + [now], past.snapshots[..height - 1]))
  {
    UndoablePushed(log, past.trail, now, e);
    var snapshots := past.snapshots[..height - 1];
    forall h | 1 <= h <= height - 1
      ensures SnapshotAt(log + [e], past.trail + [now], snapshots, h)
    {
      assert SnapshotAt(log, past.trail, past.snapshots, h);
      SnapshotPushed(log, past.trail, past.snapshots, e, now, snapshots, h);
    }
  }

  /** After the entries from `f + 1` on are undone and dropped, the log is that of the lower height. */
  lemma {:induction false} LogRevert(log: seq<Entry>, height: int, now: Warmth, past: Past, f: nat, now': Warmth)
    requires LogOk(log, height, now, past) && height > 0 && f == LastBelow(log, height, |log|)
    requires f + 1 < |log| && Same(past.trail[f + 1], now')
    requires RIPEMD160_ADDRESS in now'.touched <==> RIPEMD160_ADDRESS in now.touched
    ensures LogOk(log[..f + 1], height - 1, now', Past(past.trail[..f + 1], past.snapshots[..height - 1]))
    ensures now' == Restored(now, past.snapshots[height - 1])
  {
    UndoableCut(log, past.trail, now, f, now');
    RefinesCut(log, height, past, f);
    assert SnapshotAt(log, past.trail, past.snapshots, height);
    assert log[f + 1].height >= height;
  }

  lemma {:induction false} RefinesCut(log: seq<Entry>, height: int, past: Past, f: nat)
    requires Refines(log, past, height) && height > 0 && f == LastBelow(log, height, |log|)
    requires f + 1 < |log| && log[f].height == height - 1
    ensures Refines(log[..f + 1], Past(past.trail[..f + 1], past.snapshots[..height - 1]), height - 1)
  {
    var log', trail', snapshots' := log[..f + 1], past.trail[..f + 1], past.snapshots[..height - 1];
    forall h | 1 <= h <= height - 1
      ensures SnapshotAt(log', trail', snapshots', h)
    {
      assert SnapshotAt(log, past.trail, past.snapshots, h);
      LastBelowCut(log, h, f + 1, |log|);
      LastBelowPrefix(log, log', h, f + 1);
    }
  }

  /** Entries at or above the height do not count. */
  lemma {:induction false} LastBelowCut(log: seq<Entry>, h: int, k: nat, n: nat)
    requires 0 < k <= n <= |log| && log[0].height < h
    requires forall i {:trigger log[i].height} | k <= i < n :: log[i].height >= h
    ensures LastBelow(log, h, n) == LastBelow(log, h, k)
  {
    if k < n {
      assert log[n - 1].height >= h;
      LastBelowCut(log, h, k, n - 1);
    }
  }

  lemma {:induction false} UndoableCut(log: seq<Entry>, trail: seq<Warmth>, now: Warmth, f: nat, now': Warmth)
    requires Undoable(log, trail, now) && f + 1 < |log| && Same(trail[f + 1], now')
    ensures Undoable(log[..f + 1], trail[..f + 1], now')
  {
    var log', trail' := log[..f + 1], trail[..f + 1];
    forall i | 0 <= i <= f
      ensures Undoes(log'[i], After(trail', now', i), trail'[i])
    {
      assert Undoes(log[i], After(trail, now, i), trail[i]);
      if i == f {
        UndoesSame(log[f], trail[f + 1], trail[f], now', trail[f]);
      }
    }
  }

  /** A touched RIPEMD-160 stays touched; everything else is as in the snapshot. */
  ghost function Restored(now: Warmth, snapshot: Warmth): Warmth {
    Warmth(snapshot.slots, snapshot.touched + (now.touched * {RIPEMD160_ADDRESS}))
  }

  /** Something added to the state and to the last entry alike. */
  lemma {:induction false} LogAdd(log: seq<Entry>, height: int, now: Warmth, past: Past, e: Entry, now': Warmth)
    requires LogOk(log, height, now, past) && e.height == height
    requires forall before | Undoes(log[|log| - 1], now, before) :: Undoes(e, now', before)
    requires RIPEMD160_ADDRESS in now.touched ==> RIPEMD160_ADDRESS in now'.touched
    ensures LogOk(log[|log| - 1 := e], height, now', past)
  {
    UndoableAdded(log, past.trail, now, e, now');
    RefinesAdded(log, height, past, e);
  }

  lemma {:induction false} UndoableAdded(log: seq<Entry>, trail: seq<Warmth>, now: Warmth, e: Entry, now': Warmth)
    requires Undoable(log, trail, now) && log != []
    requires forall before | Undoes(log[|log| - 1], now, before) :: Undoes(e, now', before)
    ensures Undoable(log[|log| - 1 := e], trail, now')
  {
    var n := |log| - 1;
    var log' := log[n := e];
    forall i | 0 <= i <= n
      ensures Undoes(log'[i], After(trail, now', i), trail[i])
    {
      assert Undoes(log[i], After(trail, now, i), trail[i]);
    }
  }

  lemma {:induction false} RefinesAdded(log: seq<Entry>, height: int, past: Past, e: Entry)
    requires Refines(log, past, height) && e.height == log[|log| - 1].height
    ensures Refines(log[|log| - 1 := e], past, height)
  {
    var log' := log[|log| - 1 := e];
    forall h | 1 <= h <= height
      ensures SnapshotAt(log', past.trail, past.snapshots, h)
    {
      assert SnapshotAt(log, past.trail, past.snapshots, h);
      LastBelowPrefix(log, log', h, |log|);
    }
  }

  function WithAddress(w: Warmth, address: Address): Warmth {
    if address in w.slots then w else w.(slots := w.slots[address := {}])
  }

  function WithSlot(w: Warmth, address: Address, slot: Slot): Warmth {
    var w' := WithAddress(w, address);
    w'.(slots := w'.slots[address := w'.slots[address] + {slot}])
  }

  function AlwaysWithSlot(always: map<Address, set<Slot>>, address: Address, slot: Slot): map<Address, set<Slot>> {
    always[address := (if address in always then always[address] else {}) + {slot}]
  }

  // ----- what is warm ------------------------------------------------------------------------

  ghost predicate IsWarm(w: Warmth, always: map<Address, set<Slot>>, a: Address) {
    a in w.slots || a in always
  }

  ghost predicate IsWarmSlot(w: Warmth, always: map<Address, set<Slot>>, a: Address, slot: Slot) {
    (a in w.slots && slot in w.slots[a]) || (a in always && slot in always[a])
  }

  datatype Access = OfAddress(address: Address) | OfSlot(address: Address, slot: Slot)

  /** The warmth after accesses in order. */
  ghost function Accessed(w: Warmth, accesses: seq<Access>): Warmth {
    if accesses == [] then w
    else
      var w', last := Accessed(w, accesses[..|accesses| - 1]), accesses[|accesses| - 1];
      match last
      case OfAddress(a) => WithAddress(w', a)
      case OfSlot(a, slot) => WithSlot(w', a, slot)
  }

  /**
   * An address is warm when it was before or has been accessed, itself or by a slot, and a slot when it was before
   * or has been accessed; once the accesses are undone, exactly what was warm before them is.
   */
  lemma {:induction false} WarmWhenAccessed(w: Warmth, always: map<Address, set<Slot>>, accesses: seq<Access>,
                                            a: Address, slot: Slot)
    ensures var w' := Accessed(w, accesses);
            && (IsWarm(w', always, a) <==> IsWarm(w, always, a) || exists x :: x in accesses && x.address == a)
            && (IsWarmSlot(w', always, a, slot) <==> IsWarmSlot(w, always, a, slot) || OfSlot(a, slot) in accesses)
    ensures var w' := Restored(Accessed(w, accesses), w);
            && (IsWarm(w', always, a) <==> IsWarm(w, always, a))
            && (IsWarmSlot(w', always, a, slot) <==> IsWarmSlot(w, always, a, slot))
  {
    if accesses != [] {
      var n := |accesses| - 1;
      assert accesses == accesses[..n] + [accesses[n]];
      WarmWhenAccessed(w, always, accesses[..n], a, slot);
    }
  }

  class Journal {
    const stateManager: SimpleStateManager

    var journal: map<Address, set<Slot>>
    var alwaysWarmJournal: map<Address, set<Slot>>
    var touched: set<Address>
    var journalDiff: seq<Entry>
    var journalHeight: int
    ghost var past: Past

    ghost predicate Consistent()
      reads this
    {
      LogOk(journalDiff, journalHeight, Now(), past)
    }

    /**
     * The same, but folded away from those who only need to know that it holds: see `Unfold`. The verifier opens
     * a recursive predicate twice at the most, so of three layers one stays shut; a length before the three keeps
     * the number from being a literal, of which it would open every layer.
     */
    ghost predicate Valid()
      reads this
    {
      Folded(|journalDiff| + 3)
    }

    ghost predicate Folded(layers: nat)
      reads this
    {
      if layers == 0 then Consistent() else Folded(layers - 1)
    }

    lemma {:induction false} Unfold()
      ensures Valid() <==> Consistent()
    {
      UnfoldLayers(|journalDiff| + 3);
    }

    lemma {:induction false} UnfoldLayers(layers: nat)
      ensures Folded(layers) <==> Consistent()
    {
      if layers > 0 {
        UnfoldLayers(layers - 1);
      }
    }

    ghost function Now(): Warmth
      reads this
    {
      Warmth(journal, touched)
    }

    constructor (stateManager: SimpleStateManager)
      ensures Valid() && this.stateManager == stateManager
      ensures Now() == Warmth(map[], {}) && alwaysWarmJournal == map[] && past.snapshots == []
    {
      this.stateManager := stateManager;
      journal, alwaysWarmJournal, touched := map[], map[], {};
      journalDiff, journalHeight := [Entry(0, {}, map[], {})], 0;
      past := Past([Warmth(map[], {})], []);
      new;
      Unfold();
    }

    // ----- checkpoints ---------------------------------------------------------------------

    method Open()
      requires Valid()
      modifies this
      ensures Valid() && Now() == old(Now()) && alwaysWarmJournal == old(alwaysWarmJournal)
      ensures past.snapshots == old(past).snapshots + [old(Now())]
    {
      Unfold();
      LogCheckpoint(journalDiff, journalHeight, Now(), past, Entry(journalHeight + 1, {}, map[], {}));
      journalHeight := journalHeight + 1;
      journalDiff := journalDiff + [Entry(journalHeight, {}, map[], {})];
      past := Past(past.trail + [Now()], past.snapshots + [Now()]);
      Unfold();
    }

    method Close()
      requires Valid() && past.snapshots != []
      modifies this
      ensures Valid() && Now() == old(Now()) && alwaysWarmJournal == old(alwaysWarmJournal)
      ensures past.snapshots == old(past).snapshots[..|old(past).snapshots| - 1]
    {
      Unfold();
      LogCommit(journalDiff, journalHeight, Now(), past, Entry(journalHeight - 1, {}, map[], {}));
      journalHeight := journalHeight - 1;
      journalDiff := journalDiff + [Entry(journalHeight, {}, map[], {})];
      past := Past(past.trail + [Now()], past.snapshots[..journalHeight]);
      Unfold();
    }

    /** Takes an entry's additions away. */
    method UndoEntry(e: Entry)
      modifies this`journal, this`touched
      ensures Undoes(e, old(Now()), Now())
      ensures RIPEMD160_ADDRESS in touched <==> RIPEMD160_ADDRESS in old(touched)
    {
      var rest := e.addresses;
      while rest != {}
        invariant rest <= e.addresses
        invariant forall a :: a in journal <==> a in old(journal) && (a !in e.addresses || a in rest)
        invariant forall a | a in journal :: journal[a] == old(journal)[a]
        invariant touched == old(touched)
      {
        var a :| a in rest;
        if a in journal {
          journal := journal - {a};
        }
        rest := rest - {a};
      }
      UndoSlots(e);
      UndoTouched(e);
    }

    method UndoOne(e: Entry, ghost after: Warmth, ghost before: Warmth)
      requires Undoes(e, after, before) && Same(after, Now())
      modifies this`journal, this`touched
      ensures Same(before, Now())
      ensures RIPEMD160_ADDRESS in touched <==> RIPEMD160_ADDRESS in old(touched)
    {
      UndoEntry(e);
      UndoesSame(e, after, before, old(Now()), Now());
    }

    method UndoSlots(e: Entry)
      modifies this`journal
      ensures journal.Keys == old(journal).Keys
      ensures forall a | a in journal :: journal[a] == old(journal)[a] - SlotsOf(e, a)
    {
      var rest := e.slots.Keys;
      while rest != {}
        invariant rest <= e.slots.Keys && journal.Keys == old(journal).Keys
        invariant forall a | a in journal :: journal[a] == old(journal)[a] - if a in rest then {} else SlotsOf(e, a)
      {
        var a :| a in rest;
        if a in journal {
          journal := journal[a := journal[a] - e.slots[a]];
        }
        rest := rest - {a};
      }
    }

    method UndoTouched(e: Entry)
      modifies this`touched
      ensures forall a | a != RIPEMD160_ADDRESS :: a in touched <==> a in old(touched) && a !in e.touched
      ensures RIPEMD160_ADDRESS in touched <==> RIPEMD160_ADDRESS in old(touched)
    {
      var rest := e.touched;
      while rest != {}
        invariant rest <= e.touched
        invariant forall a | a != RIPEMD160_ADDRESS ::
                    a in touched <==> a in old(touched) && (a !in e.touched || a in rest)
        invariant RIPEMD160_ADDRESS in touched <==> RIPEMD160_ADDRESS in old(touched)
      {
        var a :| a in rest;
        if a != RIPEMD160_ADDRESS {
          touched := touched - {a};
        }
        rest := rest - {a};
      }
    }

    /** Undoes the log backwards down to the last entry below the current height, which stays. */
    method Undo()
      requires Valid() && past.snapshots != []
      modifies this
      ensures Valid() && Now() == Restored(old(Now()), old(past).snapshots[|old(past).snapshots| - 1])
      ensures alwaysWarmJournal == old(alwaysWarmJournal)
      ensures past.snapshots == old(past).snapshots[..|old(past).snapshots| - 1]
    {
      Unfold();
      ghost var h := journalHeight;
      var finalI := UndoEntries();
      LogRevert(journalDiff, h, old(Now()), past, finalI, Now());
      journalDiff := journalDiff[..finalI + 1];
      journalHeight := journalHeight - 1;
      past := Past(past.trail[..finalI + 1], past.snapshots[..h - 1]);
      Unfold();
    }

    method UndoEntries() returns (finalI: int)
      requires journalDiff != [] && journalDiff[0].height == 0
      requires journalDiff[|journalDiff| - 1].height == journalHeight > 0
      requires Undoable(journalDiff, past.trail, Now())
      modifies this`journal, this`touched
      ensures 0 <= finalI && finalI + 1 < |journalDiff|
      ensures finalI == LastBelow(journalDiff, journalHeight, |journalDiff|)
      ensures Same(past.trail[finalI + 1], Now())
      ensures RIPEMD160_ADDRESS in touched <==> RIPEMD160_ADDRESS in old(touched)
    {
      finalI := |journalDiff| - 1;
      while journalDiff[finalI].height >= journalHeight
        invariant 0 <= finalI < |journalDiff|
        invariant LastBelow(journalDiff, journalHeight, |journalDiff|)
                    == LastBelow(journalDiff, journalHeight, finalI + 1)
        invariant Same(After(past.trail, old(Now()), finalI), Now())
        invariant finalI + 1 < |journalDiff| || journalDiff[finalI].height == journalHeight
        invariant RIPEMD160_ADDRESS in touched <==> RIPEMD160_ADDRESS in old(touched)
        decreases finalI
      {
        assert Undoes(journalDiff[finalI], After(past.trail, old(Now()), finalI), past.trail[finalI]);
        UndoOne(journalDiff[finalI], After(past.trail, old(Now()), finalI), past.trail[finalI]);
        finalI := finalI - 1;
      }
    }

    // ----- additions -----------------------------------------------------------------------

    /** Puts what was added into the last entry of the log. */
    method Record(e: Entry, ghost before: Warmth)
      requires LogOk(journalDiff, journalHeight, before, past) && e.height == journalHeight
      requires forall b | Undoes(journalDiff[|journalDiff| - 1], before, b) :: Undoes(e, Now(), b)
      requires RIPEMD160_ADDRESS in before.touched ==> RIPEMD160_ADDRESS in touched
      modifies this`journalDiff
      ensures Valid()
    {
      LogAdd(journalDiff, journalHeight, before, past, e, Now());
      journalDiff := journalDiff[|journalDiff| - 1 := e];
      Unfold();
    }

    method TouchAddress(address: Address)
      requires Valid()
      modifies this
      ensures Valid() && past == old(past) && alwaysWarmJournal == old(alwaysWarmJournal)
      ensures Now() == old(Now()).(touched := old(Now()).touched + {address})
    {
      Unfold();
      if address !in touched {
        var e := journalDiff[|journalDiff| - 1];
        touched := touched + {address};
        Record(e.(touched := e.touched + {address}), old(Now()));
      }
      Unfold();
    }

    method AddWarmedAddress(address: Address)
      requires Valid()
      modifies this
      ensures Valid() && past == old(past) && alwaysWarmJournal == old(alwaysWarmJournal)
      ensures Now() == WithAddress(old(Now()), address)
    {
      Unfold();
      if address !in journal {
        var e := journalDiff[|journalDiff| - 1];
        journal := journal[address := {}];
        Record(e.(addresses := e.addresses + {address}), old(Now()));
      }
      Unfold();
    }

    method AddWarmedStorage(address: Address, slot: Slot)
      requires Valid()
      modifies this
      ensures Valid() && past == old(past) && alwaysWarmJournal == old(alwaysWarmJournal)
      ensures Now() == WithSlot(old(Now()), address, slot)
    {
      Unfold();
      AddWarmedAddress(address);
      AddSlot(address, slot);
      Unfold();
    }

    method AddSlot(address: Address, slot: Slot)
      requires Valid() && address in journal
      modifies this
      ensures Valid() && past == old(past) && alwaysWarmJournal == old(alwaysWarmJournal)
      ensures Now() == old(Now()).(slots := old(journal)[address := old(journal)[address] + {slot}])
    {
      Unfold();
      if slot !in journal[address] {
        var e := journalDiff[|journalDiff| - 1];
        journal := journal[address := journal[address] + {slot}];
        Record(e.(slots := e.slots[address := SlotsOf(e, address) + {slot}]), old(Now()));
      } else {
        assert journal[address] + {slot} == journal[address];
        assert journal[address := journal[address]] == journal;
      }
      Unfold();
    }

    method AddAlwaysWarmAddress(address: Address)
      requires Valid()
      modifies this`alwaysWarmJournal
      ensures Valid()
      ensures alwaysWarmJournal == if address in old(alwaysWarmJournal) then old(alwaysWarmJournal)
                else old(alwaysWarmJournal)[address := {}]
    {
      Unfold();
      if address !in alwaysWarmJournal {
        alwaysWarmJournal := alwaysWarmJournal[address := {}];
      }
      Unfold();
    }

    method AddAlwaysWarmSlot(address: Address, slot: Slot)
      requires Valid()
      modifies this`alwaysWarmJournal
      ensures Valid()
      ensures alwaysWarmJournal == AlwaysWithSlot(old(alwaysWarmJournal), address, slot)
    {
      Unfold();
      AddAlwaysWarmAddress(address);
      alwaysWarmJournal := alwaysWarmJournal[address := alwaysWarmJournal[address] + {slot}];
      Unfold();
    }

    // ----- queries ---------------------------------------------------------------------------

    method IsWarmedAddress(address: Address) returns (warm: bool)
      ensures warm <==> IsWarm(Now(), alwaysWarmJournal, address)
    {
      warm := address in journal || address in alwaysWarmJournal;
    }

    /** A slot is warm when it was made warm under the address, in this context or for always. */
    method IsWarmedStorage(address: Address, slot: Slot) returns (warm: bool)
      ensures warm <==> IsWarmSlot(Now(), alwaysWarmJournal, address, slot)
    {
      if address !in journal {
        if address in alwaysWarmJournal {
          return slot in alwaysWarmJournal[address];
        }
        return false;
      }
      if slot in journal[address] {
        return true;
      } else if address in alwaysWarmJournal {
        return slot in alwaysWarmJournal[address];
      }
      return false;
    }

    // ----- with the state manager --------------------------------------------------------------

    method PutAccount(address: Address, account: Account)
      requires Valid() && stateManager.Valid() && stateManager.Holds(address, account)
      modifies this, stateManager
      ensures Valid() && past == old(past) && alwaysWarmJournal == old(alwaysWarmJournal)
      ensures Now() == old(Now()).(touched := old(Now()).touched + {address})
      ensures stateManager.Valid() && stateManager.Holds(address, account)
      ensures stateManager.view == Put(old(stateManager.view), address, account, account.State())
    {
      Unfold();
      TouchAddress(address);
      stateManager.PutAccount(address, account);
      Unfold();
    }

    method Checkpoint()
      requires Valid() && stateManager.Valid()
      modifies this, stateManager
      ensures Valid() && Now() == old(Now()) && alwaysWarmJournal == old(alwaysWarmJournal)
      ensures past.snapshots == old(past).snapshots + [old(Now())]
      ensures stateManager.Valid() && fresh(stateManager.Owned() - old(stateManager.Owned()))
      ensures stateManager.Owned() >= old(stateManager.Owned())
      ensures stateManager.view.top == old(stateManager.view).top
      ensures stateManager.view.saved == old(stateManager.view).saved + [old(stateManager.view).top]
    {
      Unfold();
      stateManager.Unfold();
      Open();
      stateManager.Checkpoint();
      Unfold();
    }

    method Commit()
      requires Valid() && stateManager.Valid() && past.snapshots != [] && stateManager.view.saved != []
      modifies this, stateManager
      ensures Valid() && Now() == old(Now()) && alwaysWarmJournal == old(alwaysWarmJournal)
      ensures past.snapshots == old(past).snapshots[..|old(past).snapshots| - 1]
      ensures stateManager.Valid() && stateManager.view == Committed(old(stateManager.view))
    {
      Unfold();
      Close();
      stateManager.Commit();
      Unfold();
    }

    method Revert()
      requires Valid() && stateManager.Valid() && past.snapshots != [] && stateManager.view.saved != []
      modifies this, stateManager
      ensures Valid() && Now() == Restored(old(Now()), old(past).snapshots[|old(past).snapshots| - 1])
      ensures alwaysWarmJournal == old(alwaysWarmJournal)
      ensures past.snapshots == old(past).snapshots[..|old(past).snapshots| - 1]
      ensures stateManager.Valid() && stateManager.view == Reverted(old(stateManager.view))
    {
      Unfold();
      Undo();
      stateManager.Revert();
      Unfold();
    }
  }
}
