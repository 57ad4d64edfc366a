/**
 * Transient storage, undone by a log of changes and a stack of indices into it
 * (packages/evm/src/transientStorage.ts).
 */
module Transient {
  import opened StateManager

  type Storage = map<Address, map<Data, Data>>

  /** Thirty-two zero bytes. */
  const ZERO := Data([0, 0, 0, 0, 0, 0, 0, 0, 0, 0, 0, 0, 0, 0, 0, 0,
                       0, 0, 0, 0, 0, 0, 0, 0, 0, 0, 0, 0, 0, 0, 0, 0])

  lemma {:induction false} ZeroBytes()
    ensures |ZERO.bytes| == 32 && forall i | 0 <= i < 32 :: ZERO.bytes[i] == 0
  {
  }

  /** What a reader sees: every slot has a value, zero unless one was put. */
  function Read(s: Storage, addr: Address, key: Data): Data {
    if addr in s && key in s[addr] then s[addr][key] else ZERO
  }

  ghost function Reads(s: Storage): (r: imap<StorageKey, Data>)
    ensures forall p: StorageKey :: p in r && r[p] == Read(s, p.0, p.1)
  {
    imap p: StorageKey | true :: Read(s, p.0, p.1)
  }

  datatype Modification = Modification(addr: Address, key: Data, prevValue: Data)

  function Write(s: Storage, addr: Address, key: Data, value: Data): Storage {
    s[addr := (if addr in s then s[addr] else map[])[key := value]]
  }

  /** The storage with the changes from index `n` on undone, last first. */
  ghost function UndoTo(s: Storage, changes: seq<Modification>, n: int): Storage
    decreases |changes|
  {
    if changes == [] || |changes| <= n then s
    else
      var m := changes[|changes| - 1];
      UndoTo(Write(s, m.addr, m.key, m.prevValue), changes[..|changes| - 1], n)
  }

  lemma {:induction false} WriteReads(s: Storage, addr: Address, key: Data, value: Data)
    ensures Reads(Write(s, addr, key, value)) == Reads(s)[(addr, key) := value]
  {
  }

  lemma {:induction false} WriteBack(s: Storage, addr: Address, key: Data, value: Data)
    ensures Reads(Write(Write(s, addr, key, value), addr, key, Read(s, addr, key))) == Reads(s)
  {
    WriteReads(s, addr, key, value);
    WriteReads(Write(s, addr, key, value), addr, key, Read(s, addr, key));
  }

  lemma {:induction false} UndoSame(s: Storage, s': Storage, changes: seq<Modification>, n: int)
    requires Reads(s) == Reads(s')
    ensures Reads(UndoTo(s, changes, n)) == Reads(UndoTo(s', changes, n))
    decreases |changes|
  {
    if !(changes == [] || |changes| <= n) {
      var m := changes[|changes| - 1];
      WriteReads(s, m.addr, m.key, m.prevValue);
      WriteReads(s', m.addr, m.key, m.prevValue);
      UndoSame(Write(s, m.addr, m.key, m.prevValue), Write(s', m.addr, m.key, m.prevValue), changes[..|changes| - 1],
               n);
    }
  }

  /** Undoing in two stretches is undoing in one. */
  lemma {:induction false} UndoTwice(s: Storage, changes: seq<Modification>, k: int, n: int)
    requires 0 <= n <= k <= |changes|
    ensures UndoTo(UndoTo(s, changes, k), changes[..k], n) == UndoTo(s, changes, n)
    decreases |changes|
  {
    if |changes| == k {
      assert changes[..k] == changes;
    } else {
      var m, rest := changes[|changes| - 1], changes[..|changes| - 1];
      UndoTwice(Write(s, m.addr, m.key, m.prevValue), rest, k, n);
      assert rest[..k] == changes[..k];
    }
  }

  type Seen = imap<StorageKey, Data>

  /** The changes from each index on lead from what could be read then to what can be read now, all from nothing. */
  ghost predicate Refines(s: Storage, changes: seq<Modification>, indices: seq<int>, snapshots: seq<Seen>) {
    && |indices| == |snapshots| && Reads(UndoTo(s, changes, 0)) == Reads(map[])
    && (forall i {:trigger indices[i]} | 0 <= i < |indices| :: 0 <= indices[i] <= |changes|)
    && (forall i {:trigger indices[i]} | 0 <= i < |indices| :: Reads(UndoTo(s, changes, indices[i])) == snapshots[i])
  }

  lemma {:induction false} UndoLast(s: Storage, changes: seq<Modification>, addr: Address, key: Data, value: Data,
                                    n: int)
    requires 0 <= n <= |changes|
    ensures var m := Modification(addr, key, Read(s, addr, key));
            Reads(UndoTo(Write(s, addr, key, value), changes + [m], n)) == Reads(UndoTo(s, changes, n))
  {
    var m := Modification(addr, key, Read(s, addr, key));
    WriteBack(s, addr, key, value);
    UndoSame(Write(Write(s, addr, key, value), addr, key, m.prevValue), s, changes, n);
    assert (changes + [m])[..|changes|] == changes;
  }

  lemma {:induction false} RefinesPut(s: Storage, changes: seq<Modification>, indices: seq<int>, snapshots: seq<Seen>,
                                      addr: Address, key: Data, value: Data)
    requires Refines(s, changes, indices, snapshots)
    ensures Refines(Write(s, addr, key, value), changes + [Modification(addr, key, Read(s, addr, key))], indices,
                    snapshots)
  {
    UndoLast(s, changes, addr, key, value, 0);
    forall i | 0 <= i < |indices|
      ensures Reads(UndoTo(Write(s, addr, key, value), changes + [Modification(addr, key, Read(s, addr, key))],
                           indices[i])) == snapshots[i]
    {
      UndoLast(s, changes, addr, key, value, indices[i]);
    }
  }

  lemma {:induction false} RefinesRevert(s: Storage, changes: seq<Modification>, indices: seq<int>,
                                         snapshots: seq<Seen>)
    requires Refines(s, changes, indices, snapshots) && indices != []
    requires forall i | 0 <= i < |indices| :: indices[i] <= indices[|indices| - 1]
    ensures var n := indices[|indices| - 1];
            && Refines(UndoTo(s, changes, n), changes[..n], indices[..|indices| - 1], snapshots[..|indices| - 1])
            && Reads(UndoTo(s, changes, n)) == snapshots[|snapshots| - 1]
  {
    var n := indices[|indices| - 1];
    assert Reads(UndoTo(s, changes, indices[|indices| - 1])) == snapshots[|indices| - 1];
    var indices' := indices[..|indices| - 1];
    UndoTwice(s, changes, n, 0);
    forall i | 0 <= i < |indices'|
      ensures Reads(UndoTo(UndoTo(s, changes, n), changes[..n], indices'[i])) == snapshots[i]
    {
      UndoTwice(s, changes, n, indices[i]);
    }
  }

  class TransientStorage {
    var storage: Storage
    var changeJournal: seq<Modification>
    var indices: seq<int>
    /** What could be read when each index was pushed. */
    ghost var snapshots: seq<Seen>

    ghost predicate Consistent()
      reads this
    {
      && Refines(storage, changeJournal, indices, snapshots) && Sorted(indices)
      && forall m | m in changeJournal :: m.addr in storage
    }

    /**
     * The same, but folded away from those who only need to know that it holds: see `Unfold`. The verifier opens
     * a recursive predicate twice at the most, so of three layers one stays shut; a length before the three keeps
     * the number from being a literal, of which it would open every layer.
     */
    ghost predicate Valid()
      reads this
    {
      |indices| == |snapshots| && Folded(|indices| + 3)
    }

    ghost predicate Folded(layers: nat)
      reads this
    {
      if layers == 0 then Consistent() else Folded(layers - 1)
    }

    lemma {:induction false} Unfold()
      ensures Valid() <==> Consistent()
    {
      UnfoldLayers(|indices| + 3);
    }

    lemma {:induction false} UnfoldLayers(layers: nat)
      ensures Folded(layers) <==> Consistent()
    {
      if layers > 0 {
        UnfoldLayers(layers - 1);
      }
    }

    static ghost predicate Sorted(indices: seq<int>) {
      forall i, j {:trigger indices[i], indices[j]} | 0 <= i < j < |indices| :: indices[i] <= indices[j]
    }

    ghost function Now(): Seen
      reads this
    {
      Reads(storage)
    }

    constructor ()
      ensures Valid() && Now() == Reads(map[]) && snapshots == [Reads(map[])] && changeJournal == [] && indices == [0]
    {
      storage, changeJournal, indices, snapshots := map[], [], [0], [Reads(map[])];
      new;
      Unfold();
    }

    method Get(addr: Address, key: Data) returns (value: Data)
      ensures value == Now()[(addr, key)]
    {
      if addr !in storage {
        return ZERO;
      }
      if key !in storage[addr] {
        return ZERO;
      }
      value := storage[addr][key];
    }

    /** Fails for a key that is not 32 bytes long or a value that is longer. */
    method Put(addr: Address, key: Data, value: Data) returns (ok: bool)
      requires Valid()
      modifies this
      ensures Valid() && indices == old(indices) && snapshots == old(snapshots)
      ensures ok <==> |key.bytes| == 32 && |value.bytes| <= 32
      ensures Now() == if ok then old(Now())[(addr, key) := value] else old(Now())
      ensures !ok ==> changeJournal == old(changeJournal)
    {
      Unfold();
      if |key.bytes| != 32 || |value.bytes| > 32 {
        return false;
      }
      WriteReads(storage, addr, key, value);
      RefinesPut(storage, changeJournal, indices, snapshots, addr, key, value);
      var prev := Read(storage, addr, key);
      changeJournal := changeJournal + [Modification(addr, key, prev)];
      storage := Write(storage, addr, key, value);
      ok := true;
      Unfold();
    }

    method Checkpoint()
      requires Valid()
      modifies this
      ensures Valid() && Now() == old(Now()) && changeJournal == old(changeJournal)
      ensures snapshots == old(snapshots) + [old(Now())] && indices == old(indices) + [|changeJournal|]
    {
      Unfold();
      indices := indices + [|changeJournal|];
      snapshots := snapshots + [Now()];
      Unfold();
    }

    /** Fails when there is nothing to commit. */
    method Commit() returns (ok: bool)
      requires Valid()
      modifies this`indices, this`snapshots
      ensures Valid() && Now() == old(Now()) && changeJournal == old(changeJournal)
      ensures ok <==> old(snapshots) != []
      ensures ok ==>
                snapshots == old(snapshots)[..|old(snapshots)| - 1] && indices == old(indices)[..|old(indices)| - 1]
      ensures !ok ==> snapshots == old(snapshots) && indices == old(indices)
    {
      Unfold();
      if indices == [] {
        return false;
      }
      indices := indices[..|indices| - 1];
      snapshots := snapshots[..|snapshots| - 1];
      ok := true;
      Unfold();
    }

    /** Brings back what could be read at the last index; fails when there is none. */
    method Revert() returns (ok: bool)
      requires Valid()
      modifies this
      ensures Valid()
      ensures ok <==> old(snapshots) != []
      ensures ok ==>
                Now() == old(snapshots)[|old(snapshots)| - 1] && snapshots == old(snapshots)[..|old(snapshots)| - 1]
      ensures ok ==> indices == old(indices)[..|old(indices)| - 1]
      ensures |changeJournal| <= |old(changeJournal)|
      ensures !ok ==> Now() == old(Now()) && snapshots == old(snapshots) && indices == old(indices)
    {
      Unfold();
      if indices == [] {
        return false;
      }
      RevertLast();
      ok := true;
      Unfold();
    }

    method RevertLast()
      requires Consistent() && indices != []
      modifies this
      ensures Consistent() && Now() == old(snapshots)[|old(snapshots)| - 1]
      ensures snapshots == old(snapshots)[..|old(snapshots)| - 1]
      ensures indices == old(indices)[..|old(indices)| - 1] && |changeJournal| <= |old(changeJournal)|
    {
      var n := |indices| - 1;
      var lastCheckpoint := indices[n];
      RefinesRevert(storage, changeJournal, indices, snapshots);
      UndoChanges(lastCheckpoint);
      indices := indices[..n];
      changeJournal := changeJournal[..lastCheckpoint];
      snapshots := snapshots[..n];
    }

    method UndoChanges(lastCheckpoint: int)
      requires 0 <= lastCheckpoint <= |changeJournal| && forall m | m in changeJournal :: m.addr in storage
      modifies this`storage
      ensures storage == UndoTo(old(storage), changeJournal, lastCheckpoint)
      ensures forall m | m in changeJournal :: m.addr in storage
    {
      var i := |changeJournal| - 1;
      assert changeJournal[..i + 1] == changeJournal;
      while i >= lastCheckpoint
        invariant lastCheckpoint - 1 <= i < |changeJournal|
        invariant UndoTo(storage, changeJournal[..i + 1], lastCheckpoint)
                    == UndoTo(old(storage), changeJournal, lastCheckpoint)
        invariant forall m | m in changeJournal :: m.addr in storage
      {
        var m := changeJournal[i];
        assert changeJournal[..i + 1][..i] == changeJournal[..i];
        storage := storage[m.addr := storage[m.addr][m.key := m.prevValue]];
        i := i - 1;
      }
    }

    /** Forgets everything, at the end of a transaction; the indices stay. */
    method Clear()
      requires Valid() && forall i | 0 <= i < |indices| :: indices[i] == 0
      modifies this
      ensures Valid() && Now() == Reads(map[]) && changeJournal == []
      ensures snapshots == old(snapshots) && indices == old(indices)
    {
      Unfold();
      storage := map[];
      changeJournal := [];
      Unfold();
    }
  }
}
