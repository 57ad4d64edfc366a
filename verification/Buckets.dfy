/**
 * The contacts of a k-bucket tree, bucket by bucket: bucket i < d holds the contacts that first differ
 * from the local id in bit i, and the last bucket d those that agree with it on d bits
 * (packages/kademlia/src/bucket.ts).
 */
module Buckets {
  import opened Bytes
  import opened NodeIds

  datatype Contact = Contact(id: Id, address: Option<string>, tcpPort: Option<int>, vectorClock: int)

  type Arbiter = (Contact, Contact) -> Contact

  /** The larger vector clock wins, and the candidate a tie. */
  function DefaultArbiter(incumbent: Contact, candidate: Contact): Contact {
    if incumbent.vectorClock > candidate.vectorClock then incumbent else candidate
  }

  /** Whatever an arbiter makes of two contacts with one id has that id. */
  ghost predicate KeepsId(arbiter: Arbiter) {
    forall a: Contact, b: Contact | a.id == b.id :: arbiter(a, b).id == a.id
  }

  /** It is one of the two. */
  ghost predicate Selects(arbiter: Arbiter) {
    forall a, b :: arbiter(a, b) == a || arbiter(a, b) == b
  }

  datatype Event =
    | Added(contact: Contact)
    | Updated(incumbent: Contact, selection: Contact)
    | Removed(contact: Contact)
    | Ping(oldest: seq<Contact>, candidate: Contact)

  type Table = seq<seq<Contact>>

  datatype Config = Config(local: Id, k: nat, toPing: nat, arbiter: Arbiter)

  // ----- well-formed tables --------------------------------------------------------------------

  ghost predicate Fits(local: Id, d: nat, i: nat, c: Contact) {
    |c.id| == |local| && Agree(c.id, local, i) && (i < d ==> Bit(c.id, i) != Bit(local, i))
  }

  ghost predicate DistinctIds(b: seq<Contact>) {
    forall p, q {:trigger b[p], b[q]} | 0 <= p < q < |b| :: b[p].id != b[q].id
  }

  ghost predicate BucketOk(local: Id, k: nat, d: nat, i: nat, b: seq<Contact>) {
    |b| <= k && DistinctIds(b) && forall c | c in b :: Fits(local, d, i, c)
  }

  ghost predicate TableOk(local: Id, k: nat, t: Table) {
    && 0 < |t| <= 8 * |local| + 1
    && forall i: nat {:trigger BucketOk(local, k, |t| - 1, i, t[i])} | i < |t| :: BucketOk(local, k, |t| - 1, i, t[i])
  }

  /** The contact is in one of the buckets. */
  ghost predicate Has(t: Table, c: Contact) {
    exists i :: 0 <= i < |t| && c in t[i]
  }

  /** The bucket for an id: the first bit before `d` in which it differs from the local id. */
  function Where(local: Id, d: nat, id: Id, i: nat): (r: nat)
    requires i <= d && Agree(id, local, i)
    ensures i <= r <= d && Agree(id, local, r) && (r < d ==> Bit(id, r) != Bit(local, r))
    decreases d - i
  {
    if i < d && Bit(id, i) == Bit(local, i) then Where(local, d, id, i + 1) else i
  }

  function BucketFor(local: Id, t: Table, id: Id): (r: nat)
    requires t != []
    ensures r < |t| && Agree(id, local, r) && (r < |t| - 1 ==> Bit(id, r) != Bit(local, r))
  {
    Where(local, |t| - 1, id, 0)
  }

  /** A contact is where its id belongs. */
  lemma {:induction false} HomeBucket(local: Id, k: nat, t: Table, i: nat, c: Contact)
    requires TableOk(local, k, t) && i < |t| && c in t[i]
    ensures i == BucketFor(local, t, c.id)
  {
    assert BucketOk(local, k, |t| - 1, i, t[i]);
    assert Fits(local, |t| - 1, i, c);
  }

  /** So nobody has an id that its own bucket does not have, and no two contacts share one. */
  lemma {:induction false} OnlyThere(local: Id, k: nat, t: Table, id: Id)
    requires TableOk(local, k, t)
    ensures forall c | Has(t, c) && c.id == id :: c in t[BucketFor(local, t, id)]
  {
    forall c | Has(t, c) && c.id == id
      ensures c in t[BucketFor(local, t, id)]
    {
      var i: nat :| i < |t| && c in t[i];
      HomeBucket(local, k, t, i, c);
    }
  }

  lemma {:induction false} IdsDistinct(local: Id, k: nat, t: Table, a: Contact, b: Contact)
    requires TableOk(local, k, t) && Has(t, a) && Has(t, b) && a.id == b.id
    ensures a == b
  {
    OnlyThere(local, k, t, a.id);
    var i := BucketFor(local, t, a.id);
    assert BucketOk(local, k, |t| - 1, i, t[i]);
  }

  // ----- adding --------------------------------------------------------------------------------

  /** The index of the contact with the id in a bucket, or -1. */
  function IndexOf(b: seq<Contact>, id: Id): (r: int)
    ensures -1 <= r < |b|
    ensures r >= 0 ==> b[r].id == id
    ensures r < 0 ==> forall c | c in b :: c.id != id
  {
    if b == [] then -1 else if b[0].id == id then 0 else
      var r := IndexOf(b[1..], id);
      if r < 0 then -1 else r + 1
  }

  /** The contacts on one side of bit `i`: those with the local id's bit there, or the others. */
  function Side(local: Id, b: seq<Contact>, i: nat, near: bool): (r: seq<Contact>)
    ensures |r| <= |b|
    ensures forall c :: c in r <==> c in b && ((Bit(c.id, i) == Bit(local, i)) == near)
  {
    if b == [] then []
    else
      var n := |b| - 1;
      Side(local, b[..n], i, near) + if (Bit(b[n].id, i) == Bit(local, i)) == near then [b[n]] else []
  }

  lemma {:induction false} SideDistinct(local: Id, b: seq<Contact>, i: nat, near: bool)
    requires DistinctIds(b)
    ensures DistinctIds(Side(local, b, i, near))
  {
    if b != [] {
      var n := |b| - 1;
      SideDistinct(local, b[..n], i, near);
      forall c | c in Side(local, b[..n], i, near)
        ensures c.id != b[n].id
      {
        assert c in b[..n];
      }
    }
  }

  /** The last bucket split in two by the next bit. */
  function SplitTable(local: Id, t: Table): Table
    requires t != []
  {
    var d := |t| - 1;
    t[..d] + [Side(local, t[d], d, false), Side(local, t[d], d, true)]
  }

  /** A full last bucket and a new id that belongs in it: there is a bit left to tell them apart. */
  lemma {:induction false} RoomToSplit(local: Id, k: nat, t: Table, id: Id)
    requires TableOk(local, k, t) && (k > 0 || id != local) && |id| == |local| && BucketFor(local, t, id) == |t| - 1
    requires |t[|t| - 1]| >= k && IndexOf(t[|t| - 1], id) < 0
    ensures |t| <= 8 * |local|
  {
    var d := |t| - 1;
    assert BucketOk(local, k, d, d, t[d]);
    if k > 0 {
      var c := t[d][0];
      assert Fits(local, d, d, c);
      var i := DifferAt(c.id, id, d);
    } else {
      var i := DifferAt(id, local, d);
    }
  }

  lemma {:induction false} SplitOk(local: Id, k: nat, t: Table)
    requires TableOk(local, k, t) && |t| <= 8 * |local|
    ensures TableOk(local, k, SplitTable(local, t))
    ensures forall c :: Has(SplitTable(local, t), c) <==> Has(t, c)
  {
    var d := |t| - 1;
    var t' := SplitTable(local, t);
    assert BucketOk(local, k, d, d, t[d]);
    SideDistinct(local, t[d], d, false);
    SideDistinct(local, t[d], d, true);
    forall i: nat | i < |t'|
      ensures BucketOk(local, k, d + 1, i, t'[i])
    {
      if i < d {
        assert BucketOk(local, k, d, i, t[i]);
      }
    }
    SplitKeeps(local, t);
  }

  lemma {:induction false} SplitKeeps(local: Id, t: Table)
    requires t != []
    ensures forall c :: Has(SplitTable(local, t), c) <==> Has(t, c)
  {
    var d := |t| - 1;
    var t' := SplitTable(local, t);
    forall c
      ensures Has(t', c) <==> Has(t, c)
    {
      if Has(t', c) {
        var i :| 0 <= i < |t'| && c in t'[i];
        if i < d {
          assert c in t[i];
        } else {
          assert c in t[d];
        }
      }
      if Has(t, c) {
        var i :| 0 <= i < |t| && c in t[i];
        if i < d {
          assert c in t'[i];
        } else {
          assert c in t'[d] || c in t'[d + 1];
        }
      }
    }
  }

  /** A contact already in the bucket: the arbiter's choice goes to the end, unless it is the incumbent. */
  function Update(arbiter: Arbiter, b: seq<Contact>, index: int, contact: Contact): (seq<Contact>, Option<Event>)
    requires 0 <= index < |b|
  {
    var selection := arbiter(b[index], contact);
    if selection == b[index] && b[index] != contact then (b, None)
    else (b[..index] + b[index + 1..] + [selection], Some(Updated(b[index], selection)))
  }

  /** An id that can be added: without room for any contact, the local id itself cannot, as `NeverRoom` shows. */
  predicate Addable(g: Config, id: Id) {
    |id| == |g.local| && (g.k > 0 || id != g.local)
  }

  /** Adding a contact: the table after, and the event. */
  function Insert(g: Config, t: Table, contact: Contact): (Table, Option<Event>)
    requires TableOk(g.local, g.k, t) && Addable(g, contact.id)
    decreases 8 * |g.local| + 1 - |t|
  {
    var i := BucketFor(g.local, t, contact.id);
    var index := IndexOf(t[i], contact.id);
    if index >= 0 then
      var (b, event) := Update(g.arbiter, t[i], index, contact);
      (t[i := b], event)
    else if |t[i]| < g.k then (t[i := t[i] + [contact]], Some(Added(contact)))
    else if i < |t| - 1 then (t, Some(Ping(Oldest(g, t[i]), contact)))
    else
      RoomToSplit(g.local, g.k, t, contact.id);
      SplitOk(g.local, g.k, t);
      Insert(g, SplitTable(g.local, t), contact)
  }

  function Oldest(g: Config, b: seq<Contact>): seq<Contact> {
    b[..if g.toPing < |b| then g.toPing else |b|]
  }

  /** A new id and a full bucket: a far one is pinged, the last one split. */
  lemma {:induction false} InsertFull(g: Config, t: Table, contact: Contact)
    requires TableOk(g.local, g.k, t) && Addable(g, contact.id)
    requires var b := t[BucketFor(g.local, t, contact.id)]; IndexOf(b, contact.id) < 0 && |b| >= g.k
    ensures var i := BucketFor(g.local, t, contact.id);
            if i < |t| - 1 then Insert(g, t, contact) == (t, Some(Ping(Oldest(g, t[i]), contact)))
            else
              && |t| <= 8 * |g.local| && TableOk(g.local, g.k, SplitTable(g.local, t))
              && Insert(g, t, contact) == Insert(g, SplitTable(g.local, t), contact)
  {
    if BucketFor(g.local, t, contact.id) == |t| - 1 {
      RoomToSplit(g.local, g.k, t, contact.id);
      SplitOk(g.local, g.k, t);
    }
  }

  function SplitTimes(local: Id, n: nat): (t: Table)
    ensures t != []
  {
    if n == 0 then [[]] else SplitTable(local, SplitTimes(local, n - 1))
  }

  /**
   * With room for no contact, adding the local id never ends: however often the last bucket is split, the id
   * belongs in the last one, which is empty, and so as full as it may be.
   */
  lemma {:induction false} NeverRoom(local: Id, n: nat)
    ensures var t := SplitTimes(local, n); |t| == n + 1 && BucketFor(local, t, local) == n && t[n] == []
  {
    if n > 0 {
      NeverRoom(local, n - 1);
    }
  }

  /** What an addition does to the contacts as a whole, told by the event. */
  ghost predicate InsertDid(g: Config, t: Table, t': Table, contact: Contact, event: Option<Event>) {
    match event
    case None => t' == t && exists c :: Has(t, c) && c.id == contact.id && g.arbiter(c, contact) == c != contact
    case Some(Added(a)) =>
      && a == contact && (forall c | Has(t, c) :: c.id != contact.id)
      && (forall c :: Has(t', c) <==> Has(t, c) || c == contact)
    case Some(Updated(c, s)) =>
      && Has(t, c) && c.id == contact.id && s == g.arbiter(c, contact)
       && forall x :: Has(t', x) <==> x == s || (Has(t, x) && x != c)
    case Some(Ping(oldest, a)) =>
      && a == contact && (forall c | Has(t, c) :: c.id != contact.id) && (forall c :: Has(t', c) <==> Has(t, c))
      && exists i :: 0 <= i < |t'| - 1 && i == BucketFor(g.local, t', contact.id) && |t'[i]| == g.k
                     && |oldest| == (if g.toPing < |t'[i]| then g.toPing else |t'[i]|) && oldest == t'[i][..|oldest|]
    case Some(Removed(_)) => false
  }

  /** One bucket replaced by another that may stand in its place. */
  lemma {:induction false} BucketReplaced(local: Id, k: nat, t: Table, i: nat, b: seq<Contact>)
    requires TableOk(local, k, t) && i < |t| && BucketOk(local, k, |t| - 1, i, b)
    ensures TableOk(local, k, t[i := b])
    ensures forall x :: Has(t[i := b], x) <==> x in b || (Has(t, x) && x !in t[i])
  {
    var t' := t[i := b];
    forall j: nat | j < |t'|
      ensures BucketOk(local, k, |t'| - 1, j, t'[j])
    {
      assert BucketOk(local, k, |t| - 1, j, t[j]);
    }
    forall x
      ensures Has(t', x) <==> x in b || (Has(t, x) && x !in t[i])
    {
      HasReplaced(local, k, t, i, b, x);
    }
  }

  lemma {:induction false} HasReplaced(local: Id, k: nat, t: Table, i: nat, b: seq<Contact>, x: Contact)
    requires TableOk(local, k, t) && i < |t|
    ensures Has(t[i := b], x) <==> x in b || (Has(t, x) && x !in t[i])
  {
    var t' := t[i := b];
    if x in b {
      assert x in t'[i];
    }
    if Has(t, x) && x !in t[i] {
      var j: nat :| j < |t| && x in t[j];
      assert x in t'[j];
    }
    if Has(t', x) && x !in b {
      var j: nat :| j < |t'| && x in t'[j];
      assert x in t[j];
      HomeBucket(local, k, t, j, x);
      if x in t[i] {
        HomeBucket(local, k, t, i, x);
      }
    }
  }

  /** A new contact at the end of its bucket. */
  lemma {:induction false} PushOk(local: Id, k: nat, t: Table, i: nat, contact: Contact)
    requires TableOk(local, k, t) && |contact.id| == |local| && i < |t| && i == BucketFor(local, t, contact.id)
    requires |t[i]| < k && IndexOf(t[i], contact.id) < 0
    ensures var t' := t[i := t[i] + [contact]];
            && TableOk(local, k, t') && (forall c | Has(t, c) :: c.id != contact.id)
            && forall x :: Has(t', x) <==> Has(t, x) || x == contact
  {
    assert BucketOk(local, k, |t| - 1, i, t[i]);
    BucketReplaced(local, k, t, i, t[i] + [contact]);
    OnlyThere(local, k, t, contact.id);
    assert forall x | x in t[i] :: Has(t, x);
  }

  lemma {:induction false} UpdateOk(g: Config, t: Table, i: nat, index: nat, contact: Contact)
    requires TableOk(g.local, g.k, t) && KeepsId(g.arbiter) && i < |t| && index < |t[i]| && t[i][index].id == contact.id
    ensures var (b, event) := Update(g.arbiter, t[i], index, contact);
            TableOk(g.local, g.k, t[i := b]) && InsertDid(g, t, t[i := b], contact, event)
  {
    var b := t[i];
    var c := b[index];
    var s := g.arbiter(c, contact);
    assert BucketOk(g.local, g.k, |t| - 1, i, b);
    assert Has(t, c);
    if s == c && c != contact {
      assert t[i := b] == t;
    } else {
      assert s.id == c.id;
      MovedOk(g.local, g.k, t, i, index, s, t[i := b[..index] + b[index + 1..] + [s]]);
    }
  }

  lemma {:induction false} MovedOk(local: Id, k: nat, t: Table, i: nat, index: nat, s: Contact, t': Table)
    requires TableOk(local, k, t) && i < |t| && index < |t[i]| && s.id == t[i][index].id
    requires t' == t[i := t[i][..index] + t[i][index + 1..] + [s]]
    ensures TableOk(local, k, t') && forall x :: Has(t', x) <==> x == s || (Has(t, x) && x != t[i][index])
  {
    var b := t[i];
    var b' := b[..index] + b[index + 1..] + [s];
    assert BucketOk(local, k, |t| - 1, i, b);
    MovedMembers(b, index, s);
    MovedDistinct(b, index, s);
    assert Fits(local, |t| - 1, i, b[index]);
    assert Fits(local, |t| - 1, i, s);
    assert forall c | c in b' :: c == s || c in b;
    BucketReplaced(local, k, t, i, b');
    forall x
      ensures Has(t', x) <==> x == s || (Has(t, x) && x != t[i][index])
    {
      assert x in b' <==> x == s || (x in b && x != b[index]);
      assert x in b ==> Has(t, x);
    }
  }

  lemma {:induction false} MovedMembers(b: seq<Contact>, index: nat, s: Contact)
    requires index < |b| && DistinctIds(b)
    ensures forall x :: x in b[..index] + b[index + 1..] + [s] <==> x == s || (x in b && x != b[index])
  {
    var c := b[index];
    forall x
      ensures x in b[..index] || x in b[index + 1..] <==> x in b && x != c
    {
      if x in b && x != c {
        var p :| 0 <= p < |b| && b[p] == x;
        assert if p < index then x == b[..index][p] else x == b[index + 1..][p - index - 1];
      }
    }
  }

  lemma {:induction false} MovedDistinct(b: seq<Contact>, index: nat, s: Contact)
    requires index < |b| && DistinctIds(b) && s.id == b[index].id
    ensures DistinctIds(b[..index] + b[index + 1..] + [s])
  {
  }

  /** An addition leaves a well-formed table, and does to the contacts what its event says. */
  lemma {:induction false} InsertOk(g: Config, t: Table, contact: Contact)
    requires TableOk(g.local, g.k, t) && Addable(g, contact.id) && KeepsId(g.arbiter)
    ensures var (t', event) := Insert(g, t, contact);
            TableOk(g.local, g.k, t') && InsertDid(g, t, t', contact, event)
    decreases 8 * |g.local| + 1 - |t|
  {
    var i := BucketFor(g.local, t, contact.id);
    var index := IndexOf(t[i], contact.id);
    assert BucketOk(g.local, g.k, |t| - 1, i, t[i]);
    if index >= 0 {
      UpdateOk(g, t, i, index, contact);
    } else if |t[i]| < g.k {
      PushOk(g.local, g.k, t, i, contact);
    } else {
      OnlyThere(g.local, g.k, t, contact.id);
      if i == |t| - 1 {
        RoomToSplit(g.local, g.k, t, contact.id);
        SplitOk(g.local, g.k, t);
        InsertOk(g, SplitTable(g.local, t), contact);
      }
    }
  }

  // ----- removing ------------------------------------------------------------------------------

  /** Removing the contact with an id: the table after, and the event. */
  function Delete(local: Id, t: Table, id: Id): (Table, Option<Event>)
    requires t != []
  {
    var i := BucketFor(local, t, id);
    var index := IndexOf(t[i], id);
    if index < 0 then (t, None)
    else (t[i := t[i][..index] + t[i][index + 1..]], Some(Removed(t[i][index])))
  }

  /** What a removal does to the contacts as a whole, told by the event. */
  ghost predicate DeleteDid(t: Table, t': Table, id: Id, event: Option<Event>) {
    match event
    case None => t' == t && forall x | Has(t, x) :: x.id != id
    case Some(Removed(c)) => Has(t, c) && c.id == id && forall x :: Has(t', x) <==> Has(t, x) && x != c
    case _ => false
  }

  /** A removal leaves a well-formed table, without the contact that had the id and with all others. */
  lemma {:induction false} DeleteOk(local: Id, k: nat, t: Table, id: Id)
    requires TableOk(local, k, t)
    ensures var (t', event) := Delete(local, t, id); TableOk(local, k, t') && DeleteDid(t, t', id, event)
  {
    var i := BucketFor(local, t, id);
    var index := IndexOf(t[i], id);
    OnlyThere(local, k, t, id);
    if index >= 0 {
      RemoveOk(local, k, t, i, index);
    }
  }

  lemma {:induction false} RemoveOk(local: Id, k: nat, t: Table, i: nat, index: nat)
    requires TableOk(local, k, t) && i < |t| && index < |t[i]|
    ensures var t' := t[i := t[i][..index] + t[i][index + 1..]];
            && TableOk(local, k, t') && Has(t, t[i][index])
            && forall x :: Has(t', x) <==> Has(t, x) && x != t[i][index]
  {
    var b := t[i];
    assert BucketOk(local, k, |t| - 1, i, b);
    RemovedMembers(b, index);
    BucketReplaced(local, k, t, i, b[..index] + b[index + 1..]);
    assert forall x | x in b :: Has(t, x);
  }

  lemma {:induction false} RemovedMembers(b: seq<Contact>, index: nat)
    requires index < |b| && DistinctIds(b)
    ensures DistinctIds(b[..index] + b[index + 1..])
    ensures forall x :: x in b[..index] + b[index + 1..] <==> x in b && x != b[index]
  {
    var b' := b[..index] + b[index + 1..];
    forall x
      ensures x in b' <==> x in b && x != b[index]
    {
      MovedMembers(b, index, b[index]);
      if x in b' {
        var p :| 0 <= p < |b'| && b'[p] == x;
        assert x == if p < index then b[p] else b[p + 1];
      }
    }
  }

  // ----- runs ----------------------------------------------------------------------------------

  datatype Step = Join(contact: Contact) | Leave(id: Id)

  ghost predicate StepsFit(g: Config, steps: seq<Step>) {
    KeepsId(g.arbiter) && forall s | s in steps && s.Join? :: Addable(g, s.contact.id)
  }

  lemma {:induction false} StartOk(local: Id, k: nat)
    ensures TableOk(local, k, [[]]) && forall c :: !Has([[]], c)
  {
    var b: seq<Contact> := [];
    assert BucketOk(local, k, 0, 0, b);
  }

  /** The table after a run of additions and removals, which is well formed whatever they are. */
  ghost function Run(g: Config, steps: seq<Step>): (t: Table)
    requires StepsFit(g, steps)
    ensures TableOk(g.local, g.k, t)
  {
    if steps == [] then
      StartOk(g.local, g.k);
      [[]]
    else
      var t := Run(g, steps[..|steps| - 1]);
      match steps[|steps| - 1]
      case Join(contact) => InsertOk(g, t, contact); Insert(g, t, contact).0
      case Leave(id) => DeleteOk(g.local, g.k, t, id); Delete(g.local, t, id).0
  }

  /** A contact with the id was added at some step, and no later step removed the id. */
  ghost predicate Stays(steps: seq<Step>, id: Id) {
    exists i :: StaysFrom(steps, id, i) && steps[i].contact.id == id
  }

  ghost predicate StaysFrom(steps: seq<Step>, id: Id, i: int) {
    0 <= i < |steps| && steps[i].Join? && forall j | i < j < |steps| :: steps[j] != Leave(id)
  }

  /** That very contact was. */
  ghost predicate StaysSo(steps: seq<Step>, c: Contact) {
    exists i :: StaysFrom(steps, c.id, i) && steps[i].contact == c
  }

  lemma {:induction false} StaysOn(steps: seq<Step>, id: Id, i: int)
    requires steps != [] && StaysFrom(steps[..|steps| - 1], id, i) && steps[|steps| - 1] != Leave(id)
    ensures StaysFrom(steps, id, i) && steps[i] == steps[..|steps| - 1][i]
  {
    var before := steps[..|steps| - 1];
    assert forall j | i < j < |steps| :: steps[j] == if j < |before| then before[j] else steps[|before|];
  }

  /** What the last step leaves was there before, or comes from the contact it added. */
  lemma {:induction false} LastStep(g: Config, steps: seq<Step>, c: Contact)
    requires StepsFit(g, steps) && steps != [] && Has(Run(g, steps), c)
    ensures var before, last := steps[..|steps| - 1], steps[|steps| - 1];
            && last != Leave(c.id)
            && (Has(Run(g, before), c)
                || (last.Join? && last.contact.id == c.id && (Selects(g.arbiter) ==> last.contact == c)))
  {
    var t := Run(g, steps[..|steps| - 1]);
    match steps[|steps| - 1]
    case Join(contact) => InsertOk(g, t, contact);
    case Leave(id) =>
      DeleteOk(g.local, g.k, t, id);
      if c.id == id {
        GoneAfter(g.local, g.k, t, c);
      }
  }

  /**
   * After any run, an id is in the table at most once, and only if it was added and not removed since; and the
   * contact is one that was added, if the arbiter only chooses.
   */
  lemma {:induction false} RunHolds(g: Config, steps: seq<Step>, c: Contact)
    requires StepsFit(g, steps) && Has(Run(g, steps), c)
    ensures Stays(steps, c.id)
    ensures Selects(g.arbiter) ==> StaysSo(steps, c)
    ensures forall x | Has(Run(g, steps), x) && x.id == c.id :: x == c
  {
    forall x | Has(Run(g, steps), x) && x.id == c.id
      ensures x == c
    {
      IdsDistinct(g.local, g.k, Run(g, steps), x, c);
    }
    StartOk(g.local, g.k);
    LastStep(g, steps, c);
    var n := |steps| - 1;
    var before := steps[..n];
    if Has(Run(g, before), c) {
      RunHolds(g, before, c);
      var i :| StaysFrom(before, c.id, i) && before[i].contact.id == c.id;
      StaysOn(steps, c.id, i);
      if Selects(g.arbiter) {
        var j :| StaysFrom(before, c.id, j) && before[j].contact == c;
        StaysOn(steps, c.id, j);
      }
    } else {
      assert StaysFrom(steps, c.id, n);
    }
  }

  lemma {:induction false} GoneAfter(local: Id, k: nat, t: Table, c: Contact)
    requires TableOk(local, k, t)
    ensures !Has(Delete(local, t, c.id).0, c)
  {
    DeleteOk(local, k, t, c.id);
    forall x | Has(t, x) && x.id == c.id && Has(t, c)
      ensures x == c
    {
      IdsDistinct(local, k, t, x, c);
    }
  }

  // ----- counting ------------------------------------------------------------------------------

  /** The number of contacts in the buckets from `i` on. */
  function SizeFrom(t: Table, i: nat): nat
    decreases |t| - i
  {
    if i >= |t| then 0 else |t[i]| + SizeFrom(t, i + 1)
  }

  function Count(t: Table): nat {
    SizeFrom(t, 0)
  }

  // ----- the walk to the closest contacts --------------------------------------------------------

  /** A subtree: one bucket off the local id's path, or the node on the path at depth `i`. */
  datatype Sub = Far(i: nat) | Path(i: nat)

  ghost predicate InSub(t: Table, s: Sub, c: Contact) {
    match s
    case Far(i) => i < |t| && c in t[i]
    case Path(i) => exists j: nat :: i <= j < |t| && c in t[j]
  }

  function SubSize(t: Table, s: Sub): nat {
    match s
    case Far(i) => if i < |t| then |t[i]| else 0
    case Path(i) => SizeFrom(t, i)
  }

  function StackSize(t: Table, stack: seq<Sub>): nat {
    if stack == [] then 0 else StackSize(t, stack[..|stack| - 1]) + SubSize(t, stack[|stack| - 1])
  }

  /** Everyone in the first subtree is closer to the target than everyone in the second. */
  ghost predicate Closer(t: Table, target: Id, s: Sub, s': Sub) {
    forall a, b | InSub(t, s, a) && InSub(t, s', b) && |a.id| == |b.id| == |target| ::
      Distance(a.id, target) < Distance(b.id, target)
  }

  ghost predicate CloserThan(t: Table, target: Id, found: seq<Contact>, s: Sub) {
    forall a, b | a in found && InSub(t, s, b) && |a.id| == |b.id| == |target| ::
      Distance(a.id, target) < Distance(b.id, target)
  }

  /** The subtrees on the stack; an inner node on the path waits at most once, at the depth of the bit counter. */
  ghost predicate Stacked(t: Table, stack: seq<Sub>, bitIndex: nat) {
    && (forall p | 0 <= p < |stack| ::
          && stack[p].i < |t|
          && (if stack[p].Far? then stack[p].i < |t| - 1 else stack[p].i == bitIndex))
    && (forall p, q {:trigger stack[p], stack[q]} | 0 <= p < q < |stack| :: stack[p].Path? ==> stack[q].Far?)
  }

  /** The closest on top. */
  ghost predicate Ordered(t: Table, target: Id, stack: seq<Sub>) {
    forall p, q {:trigger stack[p], stack[q]} | 0 <= p < q < |stack| :: Closer(t, target, stack[q], stack[p])
  }

  ghost predicate Waits(t: Table, stack: seq<Sub>, c: Contact) {
    exists p :: 0 <= p < |stack| && InSub(t, stack[p], c)
  }

  /** What has been found is closer than all that waits, and together they are everyone. */
  ghost predicate Found(t: Table, target: Id, stack: seq<Sub>, found: seq<Contact>) {
    && (forall p {:trigger stack[p]} | 0 <= p < |stack| :: CloserThan(t, target, found, stack[p]))
    && DistinctIds(found)
    && (forall c | Has(t, c) :: c in found || Waits(t, stack, c))
    && (forall c | c in found :: Has(t, c))
    && |found| + StackSize(t, stack) == Count(t)
  }

  ghost predicate Walk(t: Table, target: Id, stack: seq<Sub>, bitIndex: nat, found: seq<Contact>) {
    Stacked(t, stack, bitIndex) && Ordered(t, target, stack) && Found(t, target, stack, found)
  }

  /** At depth `i` the side with the target's bit is the closer one. */
  lemma {:induction false} Separate(local: Id, k: nat, t: Table, target: Id, i: nat)
    requires TableOk(local, k, t) && |target| == |local| && i < |t| - 1
    ensures if Bit(target, i) == Bit(local, i) then Closer(t, target, Path(i + 1), Far(i))
            else Closer(t, target, Far(i), Path(i + 1))
  {
    forall a, b | InSub(t, Path(i + 1), a) && InSub(t, Far(i), b)
      ensures |a.id| == |b.id| == |target|
      ensures if Bit(target, i) == Bit(local, i) then Distance(a.id, target) < Distance(b.id, target)
              else Distance(b.id, target) < Distance(a.id, target)
    {
      var j: nat :| i + 1 <= j < |t| && a in t[j];
      assert BucketOk(local, k, |t| - 1, j, t[j]) && BucketOk(local, k, |t| - 1, i, t[i]);
      assert Fits(local, |t| - 1, j, a) && Fits(local, |t| - 1, i, b);
      if Bit(target, i) == Bit(local, i) {
        Nearer(a.id, b.id, target, i);
      } else {
        Nearer(b.id, a.id, target, i);
      }
    }
  }

  lemma {:induction false} WalkStart(t: Table, target: Id)
    requires t != []
    ensures Walk(t, target, [Path(0)], 0, [])
  {
    forall c | Has(t, c)
      ensures Waits(t, [Path(0)], c)
    {
      var j: nat :| j < |t| && c in t[j];
      assert InSub(t, [Path(0)][0], c);
    }
    assert StackSize(t, [Path(0)][..0]) == 0;
  }

  lemma {:induction false} FoundDistinct(local: Id, k: nat, t: Table, target: Id, found: seq<Contact>, s: Sub,
                                         b: seq<Contact>)
    requires TableOk(local, k, t) && |target| == |local|
    requires DistinctIds(found) && DistinctIds(b) && CloserThan(t, target, found, s)
    requires (forall c | c in found :: Has(t, c)) && forall c | c in b :: Has(t, c) && InSub(t, s, c)
    ensures DistinctIds(found + b)
  {
    forall a, c | a in found && c in b
      ensures a.id != c.id
    {
      LengthOk(local, k, t, a);
      LengthOk(local, k, t, c);
    }
    var all := found + b;
    forall p, q | 0 <= p < q < |all|
      ensures all[p].id != all[q].id
    {
      if p < |found| <= q {
        assert all[p] in found && all[q] in b;
      }
    }
  }

  lemma {:induction false} LengthOk(local: Id, k: nat, t: Table, c: Contact)
    requires TableOk(local, k, t) && Has(t, c)
    ensures |c.id| == |local|
  {
    var i: nat :| i < |t| && c in t[i];
    assert BucketOk(local, k, |t| - 1, i, t[i]);
    assert Fits(local, |t| - 1, i, c);
  }

  lemma {:induction false} WaitsSplit(t: Table, stack: seq<Sub>, c: Contact, n: nat)
    requires n <= |stack|
    ensures Waits(t, stack, c) <==> Waits(t, stack[..n], c) || Waits(t, stack[n..], c)
  {
    if Waits(t, stack, c) {
      var p :| 0 <= p < |stack| && InSub(t, stack[p], c);
      assert if p < n then InSub(t, stack[..n][p], c) else InSub(t, stack[n..][p - n], c);
    }
    if Waits(t, stack[n..], c) {
      var p :| 0 <= p < |stack[n..]| && InSub(t, stack[n..][p], c);
      assert InSub(t, stack[n + p], c);
    }
    if Waits(t, stack[..n], c) {
      var p :| 0 <= p < n && InSub(t, stack[..n][p], c);
      assert InSub(t, stack[p], c);
    }
  }

  /** The bucket on top of the stack. */
  lemma {:induction false} TopBucket(t: Table, s: Sub)
    requires s.i < |t| && (s.Far? || s.i == |t| - 1)
    ensures (forall c :: InSub(t, s, c) <==> c in t[s.i]) && SubSize(t, s) == |t[s.i]|
  {
    assert SizeFrom(t, s.i) == |t[s.i]| + SizeFrom(t, s.i + 1);
  }

  /** The walk comes to a bucket. */
  lemma {:induction false} WalkBucket(local: Id, k: nat, t: Table, target: Id, stack: seq<Sub>, bitIndex: nat,
                                      found: seq<Contact>)
    requires TableOk(local, k, t) && |target| == |local| && Walk(t, target, stack, bitIndex, found) && stack != []
    requires stack[|stack| - 1].Far? || stack[|stack| - 1].i == |t| - 1
    ensures Walk(t, target, stack[..|stack| - 1], bitIndex, found + t[stack[|stack| - 1].i])
  {
    var n := |stack| - 1;
    TopBucket(t, stack[n]);
    FoundMore(local, k, t, target, stack, found, t[stack[n].i]);
  }

  lemma {:induction false} FoundMore(local: Id, k: nat, t: Table, target: Id, stack: seq<Sub>, found: seq<Contact>,
                                     b: seq<Contact>)
    requires TableOk(local, k, t) && |target| == |local| && stack != [] && Ordered(t, target, stack)
    requires Found(t, target, stack, found)
    requires stack[|stack| - 1].i < |t| && b == t[stack[|stack| - 1].i]
    requires (forall c :: InSub(t, stack[|stack| - 1], c) <==> c in b) && SubSize(t, stack[|stack| - 1]) == |b|
    ensures Found(t, target, stack[..|stack| - 1], found + b)
  {
    var n := |stack| - 1;
    assert BucketOk(local, k, |t| - 1, stack[n].i, b);
    assert forall c | c in b :: Has(t, c);
    FoundDistinct(local, k, t, target, found, stack[n], b);
    forall p | 0 <= p < n
      ensures CloserThan(t, target, found + b, stack[..n][p])
    {
      assert stack[p] == stack[..n][p];
      assert Closer(t, target, stack[n], stack[p]);
    }
    forall c | Has(t, c)
      ensures c in found + b || Waits(t, stack[..n], c)
    {
      WaitsSplit(t, stack, c, n);
    }
  }

  /** The two children of the inner node on top, the farther below the closer. */
  function Children(local: Id, target: Id, i: nat): seq<Sub> {
    if Bit(target, i) == Bit(local, i) then [Far(i), Path(i + 1)] else [Path(i + 1), Far(i)]
  }

  /** The walk comes to an inner node: the bit counter is at its depth. */
  lemma {:induction false} WalkInner(local: Id, k: nat, t: Table, target: Id, stack: seq<Sub>, bitIndex: nat,
                                     found: seq<Contact>)
    requires TableOk(local, k, t) && |target| == |local| && Walk(t, target, stack, bitIndex, found) && stack != []
    requires stack[|stack| - 1].Path? && stack[|stack| - 1].i < |t| - 1
    ensures stack[|stack| - 1].i == bitIndex
    ensures Walk(t, target, stack[..|stack| - 1] + Children(local, target, bitIndex), bitIndex + 1, found)
  {
    var children := Children(local, target, bitIndex);
    PathSplits(t, bitIndex);
    Separate(local, k, t, target, bitIndex);
    StackedInner(t, stack, children, bitIndex);
    OrderedInner(t, target, stack, children, bitIndex);
    FoundInner(t, target, stack, found, children, bitIndex);
  }

  lemma {:induction false} StackedInner(t: Table, stack: seq<Sub>, children: seq<Sub>, i: nat)
    requires stack != [] && stack[|stack| - 1] == Path(i) && i < |t| - 1 && Stacked(t, stack, i)
    requires children == [Far(i), Path(i + 1)] || children == [Path(i + 1), Far(i)]
    ensures Stacked(t, stack[..|stack| - 1] + children, i + 1)
  {
  }

  lemma {:induction false} OrderedInner(t: Table, target: Id, stack: seq<Sub>, children: seq<Sub>, i: nat)
    requires stack != [] && stack[|stack| - 1] == Path(i) && i < |t| - 1 && Ordered(t, target, stack)
    requires children == [Far(i), Path(i + 1)] || children == [Path(i + 1), Far(i)]
    requires Closer(t, target, children[1], children[0])
    ensures Ordered(t, target, stack[..|stack| - 1] + children)
  {
    var n := |stack| - 1;
    PathSplits(t, i);
    forall p | 0 <= p < n
      ensures Closer(t, target, Far(i), stack[p]) && Closer(t, target, Path(i + 1), stack[p])
    {
      assert Closer(t, target, stack[n], stack[p]);
    }
  }

  lemma {:induction false} FoundInner(t: Table, target: Id, stack: seq<Sub>, found: seq<Contact>, children: seq<Sub>,
                                      i: nat)
    requires stack != [] && stack[|stack| - 1] == Path(i) && i < |t| - 1 && Found(t, target, stack, found)
    requires children == [Far(i), Path(i + 1)] || children == [Path(i + 1), Far(i)]
    ensures Found(t, target, stack[..|stack| - 1] + children, found)
  {
    var n := |stack| - 1;
    var stack' := stack[..n] + children;
    PathSplits(t, i);
    assert CloserThan(t, target, found, stack[n]);
    assert CloserThan(t, target, found, Far(i)) && CloserThan(t, target, found, Path(i + 1));
    forall c | Has(t, c) && c !in found
      ensures Waits(t, stack', c)
    {
      WaitsSplit(t, stack, c, n);
      WaitsSplit(t, stack', c, n);
      assert stack'[..n] == stack[..n] && stack'[n..] == children && stack[n..] == [Path(i)];
      assert InSub(t, children[0], c) || InSub(t, children[1], c) ==> Waits(t, children, c);
    }
    StackGrows(t, stack[..n], children);
  }

  lemma {:induction false} StackGrows(t: Table, stack: seq<Sub>, children: seq<Sub>)
    requires |children| == 2
    ensures StackSize(t, stack + children) == StackSize(t, stack) + SubSize(t, children[0]) + SubSize(t, children[1])
  {
    var n := |stack|;
    var stack' := stack + children;
    assert stack'[..n + 1] == stack + [children[0]] && (stack + [children[0]])[..n] == stack;
  }

  lemma {:induction false} PathSplits(t: Table, i: nat)
    requires i < |t| - 1
    ensures forall c :: InSub(t, Path(i), c) <==> InSub(t, Far(i), c) || InSub(t, Path(i + 1), c)
    ensures SubSize(t, Path(i)) == SubSize(t, Far(i)) + SubSize(t, Path(i + 1))
  {
  }

  // ----- sorting -------------------------------------------------------------------------------

  function InsertBy(target: Id, c: Contact, sorted: seq<Contact>): (r: seq<Contact>)
    requires |c.id| == |target| && forall x | x in sorted :: |x.id| == |target|
    ensures multiset(r) == multiset(sorted) + multiset{c}
  {
    if sorted == [] then [c]
    else
      assert sorted == [sorted[0]] + sorted[1..];
      if Distance(c.id, target) < Distance(sorted[0].id, target) then [c] + sorted
      else [sorted[0]] + InsertBy(target, c, sorted[1..])
  }

  /** The contacts in order of their distance from the target. */
  function SortBy(target: Id, cs: seq<Contact>): (r: seq<Contact>)
    requires forall x | x in cs :: |x.id| == |target|
    ensures multiset(r) == multiset(cs)
    ensures |r| == |cs| && forall x :: x in r <==> x in cs
  {
    if cs == [] then []
    else
      var n := |cs| - 1;
      assert cs == cs[..n] + [cs[n]];
      var r := InsertBy(target, cs[n], SortBy(target, cs[..n]));
      SameElements(r, cs);
      r
  }

  lemma {:induction false} SameElements(a: seq<Contact>, b: seq<Contact>)
    requires multiset(a) == multiset(b)
    ensures |a| == |b| && forall x :: x in a <==> x in b
  {
    assert |a| == |multiset(a)| && |b| == |multiset(b)|;
    forall x
      ensures x in a <==> x in b
    {
      assert x in a <==> x in multiset(a);
      assert x in b <==> x in multiset(b);
    }
  }

  ghost predicate Sorted(target: Id, cs: seq<Contact>) {
    && (forall x | x in cs :: |x.id| == |target|)
    && forall p, q {:trigger cs[p], cs[q]} | 0 <= p < q < |cs| ::
         Distance(cs[p].id, target) <= Distance(cs[q].id, target)
  }

  lemma {:induction false} InsertSorted(target: Id, c: Contact, sorted: seq<Contact>)
    requires |c.id| == |target| && Sorted(target, sorted)
    ensures Sorted(target, InsertBy(target, c, sorted))
  {
    if sorted != [] && Distance(c.id, target) >= Distance(sorted[0].id, target) {
      InsertSorted(target, c, sorted[1..]);
      TailSorted(target, c, sorted, InsertBy(target, c, sorted[1..]));
    } else {
      ConsSorted(target, c, sorted);
    }
  }

  lemma {:induction false} TailSorted(target: Id, c: Contact, sorted: seq<Contact>, tail: seq<Contact>)
    requires |c.id| == |target| && Sorted(target, sorted) && sorted != []
    requires Distance(c.id, target) >= Distance(sorted[0].id, target)
    requires Sorted(target, tail) && multiset(tail) == multiset(sorted[1..]) + multiset{c}
    ensures Sorted(target, [sorted[0]] + tail)
  {
    SameElements(tail, sorted[1..] + [c]);
    ConsSorted(target, sorted[0], tail);
  }

  lemma {:induction false} ConsSorted(target: Id, c: Contact, cs: seq<Contact>)
    requires |c.id| == |target| && Sorted(target, cs)
    requires forall x | x in cs :: Distance(c.id, target) <= Distance(x.id, target)
    ensures Sorted(target, [c] + cs)
  {
  }

  lemma {:induction false} SortSorts(target: Id, cs: seq<Contact>)
    requires forall x | x in cs :: |x.id| == |target|
    ensures Sorted(target, SortBy(target, cs))
  {
    if cs != [] {
      SortSorts(target, cs[..|cs| - 1]);
      InsertSorted(target, cs[|cs| - 1], SortBy(target, cs[..|cs| - 1]));
    }
  }

  // ----- the closest contacts ------------------------------------------------------------------

  /** In strictly ascending order of distance. */
  ghost predicate Strictly(target: Id, s: seq<Contact>) {
    && (forall y | y in s :: |y.id| == |target|)
    && forall p, q {:trigger s[p], s[q]} | 0 <= p < q < |s| :: Distance(s[p].id, target) < Distance(s[q].id, target)
  }

  /** How many contacts are wanted: all of them, or at most so many. */
  datatype Limit = Everyone | AtMost(n: int)

  function Cut(limit: Limit, size: nat): (r: nat)
    requires limit.AtMost? ==> limit.n > 0
    ensures r <= size
  {
    if limit.AtMost? && limit.n < size then limit.n else size
  }

  /** In order, as many as wanted or there are, and nobody left out is nearer. */
  ghost predicate Closest(t: Table, target: Id, limit: Limit, r: seq<Contact>)
    requires limit.AtMost? ==> limit.n > 0
  {
    && (forall c | c in r :: Has(t, c) && |c.id| == |target|)
    && (forall p, q {:trigger r[p], r[q]} | 0 <= p < q < |r| :: Distance(r[p].id, target) < Distance(r[q].id, target))
    && |r| == Cut(limit, Count(t))
    && (forall c, x | Has(t, c) && c !in r && x in r && |c.id| == |target| ::
          Distance(x.id, target) < Distance(c.id, target))
  }

  lemma {:induction false} WalkEnds(local: Id, k: nat, t: Table, target: Id, stack: seq<Sub>, bitIndex: nat,
                                    found: seq<Contact>, limit: Limit)
    requires TableOk(local, k, t) && |target| == |local| && Walk(t, target, stack, bitIndex, found)
    requires limit.AtMost? ==> limit.n > 0
    requires stack == [] || (limit.AtMost? && |found| >= limit.n)
    requires forall c | c in found :: |c.id| == |target|
    ensures Closest(t, target, limit, SortBy(target, found)[..Cut(limit, |found|)])
  {
    var s := SortBy(target, found);
    StrictlySorted(target, found);
    ClosestFound(t, target, stack, found, s, limit);
  }

  lemma {:induction false} ClosestFound(t: Table, target: Id, stack: seq<Sub>, found: seq<Contact>, s: seq<Contact>,
                                        limit: Limit)
    requires Found(t, target, stack, found) && |s| == |found| && (forall c :: c in s <==> c in found)
    requires Strictly(target, s)
    requires limit.AtMost? ==> limit.n > 0
    requires stack == [] || (limit.AtMost? && |found| >= limit.n)
    ensures Closest(t, target, limit, s[..Cut(limit, |found|)])
  {
    var n := Cut(limit, |found|);
    NobodyCloser(t, target, stack, found, s, n);
    assert stack == [] ==> |found| == Count(t);
    assert forall c | c in s[..n] :: c in s;
  }

  lemma {:induction false} NobodyCloser(t: Table, target: Id, stack: seq<Sub>, found: seq<Contact>, s: seq<Contact>,
                                        n: nat)
    requires Found(t, target, stack, found) && n <= |s| && (forall c :: c in s <==> c in found)
    requires Strictly(target, s)
    ensures forall c, x | Has(t, c) && c !in s[..n] && x in s[..n] && |c.id| == |target| ::
              Distance(x.id, target) < Distance(c.id, target)
  {
    forall c, x | Has(t, c) && c !in s[..n] && x in s[..n] && |c.id| == |target|
      ensures Distance(x.id, target) < Distance(c.id, target)
    {
      assert x in s;
      if c in found {
        CutOff(target, s, n, c, x);
      } else {
        StillWaits(t, target, stack, found, c, x);
      }
    }
  }

  lemma {:induction false} CutOff(target: Id, s: seq<Contact>, n: nat, c: Contact, x: Contact)
    requires n <= |s| && c in s && c !in s[..n] && x in s[..n] && Strictly(target, s)
    ensures Distance(x.id, target) < Distance(c.id, target)
  {
    var p :| 0 <= p < n && s[..n][p] == x;
    var q :| 0 <= q < |s| && s[q] == c;
    assert s[p] == x;
    assert forall j | 0 <= j < n :: s[j] in s[..n];
  }

  lemma {:induction false} StillWaits(t: Table, target: Id, stack: seq<Sub>, found: seq<Contact>, c: Contact,
                                      x: Contact)
    requires Found(t, target, stack, found) && Has(t, c) && c !in found && x in found && |c.id| == |x.id| == |target|
    ensures Distance(x.id, target) < Distance(c.id, target)
  {
    var q :| 0 <= q < |stack| && InSub(t, stack[q], c);
    assert CloserThan(t, target, found, stack[q]);
  }

  /** Distinct ids are at distinct distances, so the order is strict. */
  lemma {:induction false} StrictlySorted(target: Id, cs: seq<Contact>)
    requires DistinctIds(cs) && forall x | x in cs :: |x.id| == |target|
    ensures Strictly(target, SortBy(target, cs))
  {
    var s := SortBy(target, cs);
    SortSorts(target, cs);
    forall p, q | 0 <= p < q < |s|
      ensures Distance(s[p].id, target) < Distance(s[q].id, target)
    {
      DistinctAfter(cs, s, p, q);
      assert s[p] in s && s[q] in s;
      DistancesDiffer(s[p].id, s[q].id, target);
    }
  }

  lemma {:induction false} DistinctAfter(cs: seq<Contact>, s: seq<Contact>, p: nat, q: nat)
    requires DistinctIds(cs) && multiset(s) == multiset(cs) && p < q < |s|
    ensures s[p].id != s[q].id
  {
    if s[p].id == s[q].id {
      assert s[p] in multiset(cs) && s[q] in multiset(cs);
      var i :| 0 <= i < |cs| && cs[i] == s[p];
      var j :| 0 <= j < |cs| && cs[j] == s[q];
      assert i == j;
      Twice(s, p, q);
      Once(cs, i);
    }
  }

  lemma {:induction false} Twice(s: seq<Contact>, p: nat, q: nat)
    requires p < q < |s| && s[p] == s[q]
    ensures multiset(s)[s[p]] >= 2
  {
    assert s == s[..q] + [s[q]] + s[q + 1..];
    assert s[p] == s[..q][p];
    assert s[p] in multiset(s[..q]);
  }

  lemma {:induction false} Once(cs: seq<Contact>, i: nat)
    requires DistinctIds(cs) && i < |cs|
    ensures multiset(cs)[cs[i]] == 1
  {
    assert cs == cs[..i] + [cs[i]] + cs[i + 1..];
    assert cs[i] !in cs[..i] && cs[i] !in cs[i + 1..];
  }
}
