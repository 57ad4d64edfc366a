/**
 * The order of the contacts in a bucket (packages/kademlia/src/bucket.ts): over every run, by when they were last
 * seen, as section 2.2 of the Kademlia paper asks, so that a ping goes to those not seen for longest.
 */
module BucketOrder {
  import opened Bytes
  import opened NodeIds
  import opened Buckets

  /** When each id was last seen. */
  type Rank = Id -> nat

  ghost predicate SortedBy(r: Rank, b: seq<Contact>) {
    forall p, q {:trigger b[p], b[q]} | 0 <= p < q < |b| :: r(b[p].id) < r(b[q].id)
  }

  ghost predicate TableSorted(r: Rank, t: Table) {
    forall i: nat {:trigger t[i]} | i < |t| :: SortedBy(r, t[i])
  }

  /** The event says that the contact now stands in its bucket, as new or in the place of the one it had. */
  predicate Placed(event: Option<Event>) {
    event.Some? && (event.value.Added? || event.value.Updated?)
  }

  /** When an id was last seen in a run: the number of steps up to the one that placed it. */
  ghost function LastSeen(g: Config, steps: seq<Step>, id: Id): nat
    requires StepsFit(g, steps)
  {
    if steps == [] then 0
    else
      var before, last := steps[..|steps| - 1], steps[|steps| - 1];
      if last.Join? && last.contact.id == id && Placed(Insert(g, Run(g, before), last.contact).1) then |steps|
      else LastSeen(g, before, id)
  }

  lemma {:induction false} SeenBefore(g: Config, steps: seq<Step>, id: Id)
    requires StepsFit(g, steps)
    ensures LastSeen(g, steps, id) <= |steps|
  {
    if steps != [] {
      SeenBefore(g, steps[..|steps| - 1], id);
    }
  }

  // ----- one step -----------------------------------------------------------------------------

  lemma {:induction false} SideSorted(r: Rank, local: Id, b: seq<Contact>, i: nat, near: bool)
    requires SortedBy(r, b)
    ensures SortedBy(r, Side(local, b, i, near))
  {
    if b != [] {
      var n := |b| - 1;
      SideSorted(r, local, b[..n], i, near);
      forall c | c in Side(local, b[..n], i, near)
        ensures r(c.id) < r(b[n].id)
      {
        assert c in b[..n];
      }
    }
  }

  lemma {:induction false} SplitSorted(r: Rank, local: Id, t: Table)
    requires t != [] && TableSorted(r, t)
    ensures TableSorted(r, SplitTable(local, t))
  {
    var d := |t| - 1;
    SideSorted(r, local, t[d], d, false);
    SideSorted(r, local, t[d], d, true);
  }

  /** Without one contact, and with another that was seen last at the end, a bucket stays in order. */
  lemma {:induction false} MovedSorted(r: Rank, r': Rank, b: seq<Contact>, index: int, s: Contact)
    requires SortedBy(r, b) && -1 <= index < |b| && forall c | c in b && c.id != s.id :: r'(c.id) == r(c.id) < r'(s.id)
    requires forall p | 0 <= p < |b| && p != index :: b[p].id != s.id
    ensures SortedBy(r', (if index < 0 then b else b[..index] + b[index + 1..]) + [s])
  {
    var rest := if index < 0 then b else b[..index] + b[index + 1..];
    forall p | 0 <= p < |rest|
      ensures rest[p] == b[if index < 0 || p < index then p else p + 1]
      ensures rest[p].id != s.id && rest[p] in b
    {
    }
  }

  /** The same ranks, the same order. */
  lemma {:induction false} SameRanks(r: Rank, r': Rank, t: Table)
    requires TableSorted(r, t) && forall c | Has(t, c) :: r'(c.id) == r(c.id)
    ensures TableSorted(r', t)
  {
    forall i: nat | i < |t|
      ensures SortedBy(r', t[i])
    {
      assert forall c | c in t[i] :: Has(t, c);
    }
  }

  /** The buckets other than the one for an id keep their order when only that id's rank changes. */
  lemma {:induction false} OneReplaced(r: Rank, r': Rank, local: Id, k: nat, t: Table, id: Id, b: seq<Contact>)
    requires TableOk(local, k, t) && TableSorted(r, t) && SortedBy(r', b)
    requires forall x: Id | x != id :: r'(x) == r(x)
    ensures TableSorted(r', t[BucketFor(local, t, id) := b])
  {
    var i := BucketFor(local, t, id);
    OnlyThere(local, k, t, id);
    forall j: nat | j < |t| && j != i
      ensures SortedBy(r', t[j])
    {
      forall c | c in t[j]
        ensures c.id != id
      {
        HomeBucket(local, k, t, j, c);
      }
    }
  }

  /** An addition keeps the buckets in order, with the contact that it places seen last. */
  lemma {:induction false} InsertSorted(r: Rank, r': Rank, g: Config, t: Table, contact: Contact)
    requires TableOk(g.local, g.k, t) && Addable(g, contact.id) && KeepsId(g.arbiter) && TableSorted(r, t)
    requires forall x: Id | x != contact.id :: r'(x) == r(x)
    requires if Placed(Insert(g, t, contact).1) then forall x: Id | x != contact.id :: r(x) < r'(contact.id)
             else r'(contact.id) == r(contact.id)
    ensures TableSorted(r', Insert(g, t, contact).0)
    decreases 8 * |g.local| + 1 - |t|
  {
    var i := BucketFor(g.local, t, contact.id);
    var index := IndexOf(t[i], contact.id);
    assert BucketOk(g.local, g.k, |t| - 1, i, t[i]);
    if Placed(Insert(g, t, contact).1) && (index >= 0 || |t[i]| < g.k) {
      var s := if index >= 0 then g.arbiter(t[i][index], contact) else contact;
      assert s.id == contact.id;
      MovedSorted(r, r', t[i], index, s);
      OneReplaced(r, r', g.local, g.k, t, contact.id, Insert(g, t, contact).0[i]);
    } else if index < 0 && |t[i]| >= g.k && i == |t| - 1 {
      RoomToSplit(g.local, g.k, t, contact.id);
      SplitOk(g.local, g.k, t);
      SplitSorted(r, g.local, t);
      InsertSorted(r, r', g, SplitTable(g.local, t), contact);
    } else {
      SameRanks(r, r', t);
      assert index >= 0 ==> t[i := t[i]] == t;
    }
  }

  lemma {:induction false} DeleteSorted(r: Rank, local: Id, t: Table, id: Id)
    requires t != [] && TableSorted(r, t)
    ensures TableSorted(r, Delete(local, t, id).0)
  {
    var i := BucketFor(local, t, id);
    var index := IndexOf(t[i], id);
    if index >= 0 {
      var b, rest := t[i], t[i][..index] + t[i][index + 1..];
      forall p | 0 <= p < |rest|
        ensures rest[p] == b[if p < index then p else p + 1]
      {
      }
    }
  }

  // ----- runs ---------------------------------------------------------------------------------

  ghost function Ranks(g: Config, steps: seq<Step>): Rank
    requires StepsFit(g, steps)
  {
    (id: Id) => LastSeen(g, steps, id)
  }

  /** After any run, every bucket holds its contacts in the order in which they were last seen. */
  lemma {:induction false} RunSorted(g: Config, steps: seq<Step>)
    requires StepsFit(g, steps)
    ensures TableSorted(Ranks(g, steps), Run(g, steps))
  {
    if steps != [] {
      var before, last := steps[..|steps| - 1], steps[|steps| - 1];
      RunSorted(g, before);
      match last
      case Join(contact) =>
        forall x: Id
          ensures LastSeen(g, before, x) < |steps|
        {
          SeenBefore(g, before, x);
        }
        InsertSorted(Ranks(g, before), Ranks(g, steps), g, Run(g, before), contact);
      case Leave(id) =>
        DeleteSorted(Ranks(g, before), g.local, Run(g, before), id);
        SameRanks(Ranks(g, before), Ranks(g, steps), Run(g, steps));
    }
  }

  lemma {:induction false} PrefixOldest(r: Rank, b: seq<Contact>, n: nat)
    requires n <= |b| && SortedBy(r, b)
    ensures forall x, y | x in b[..n] && y in b && y !in b[..n] :: r(x.id) < r(y.id)
  {
    forall x, y | x in b[..n] && y in b && y !in b[..n]
      ensures r(x.id) < r(y.id)
    {
      var p :| 0 <= p < n && b[p] == x;
      var q :| 0 <= q < |b| && b[q] == y;
      assert q >= n;
    }
  }

  /** The contacts to ping: as many of the bucket as there are and are to be pinged at once, those last seen first. */
  ghost predicate PingedFirst(g: Config, steps: seq<Step>, b: seq<Contact>, oldest: seq<Contact>)
    requires StepsFit(g, steps)
  {
    && |b| == g.k && |oldest| == (if g.toPing < |b| then g.toPing else |b|)
    && (forall x | x in oldest :: x in b)
    && (forall x, y | x in oldest && y in b && y !in oldest :: LastSeen(g, steps, x.id) < LastSeen(g, steps, y.id))
  }

  /** A ping after any run goes to the contacts of the new one's full bucket that were not seen for longest. */
  lemma {:induction false} PingsOldest(g: Config, steps: seq<Step>, contact: Contact, oldest: seq<Contact>)
    requires StepsFit(g, steps) && Addable(g, contact.id)
    requires Insert(g, Run(g, steps), contact).1 == Some(Ping(oldest, contact))
    ensures var t' := Insert(g, Run(g, steps), contact).0;
            t' != [] && PingedFirst(g, steps, t'[BucketFor(g.local, t', contact.id)], oldest)
  {
    var t, r := Run(g, steps), Ranks(g, steps);
    var t' := Insert(g, t, contact).0;
    InsertOk(g, t, contact);
    RunSorted(g, steps);
    InsertSorted(r, r, g, t, contact);
    var b := t'[BucketFor(g.local, t', contact.id)];
    PrefixOldest(r, b, |oldest|);
  }

  // ----- clocks ---------------------------------------------------------------------------------

  /**
   * With the default arbiter, an addition of a known id leaves the contact with the larger vector clock, the new one
   * if they are the same, and no contact's clock ever falls.
   */
  lemma {:induction false} ClocksRise(g: Config, t: Table, was: Contact, contact: Contact, c: Contact)
    requires TableOk(g.local, g.k, t) && Addable(g, contact.id) && g.arbiter == DefaultArbiter
    requires Has(t, was) && Has(Insert(g, t, contact).0, c) && c.id == was.id
    ensures c.vectorClock >= was.vectorClock
    ensures contact.id == was.id ==> c == if contact.vectorClock >= was.vectorClock then contact else was
    ensures contact.id != was.id ==> c == was
  {
    assert KeepsId(g.arbiter);
    InsertOk(g, t, contact);
    forall x | Has(t, x) && x.id == was.id
      ensures x == was
    {
      IdsDistinct(g.local, g.k, t, x, was);
    }
  }
}
