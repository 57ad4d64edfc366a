/** The lookup index beside the k-bucket tree (packages/kademlia/src/routing-table.ts). */
module Routing {
  import opened Bytes
  import opened NodeIds
  import opened Buckets
  import opened KBuckets

  /** The string an id or an address is indexed by; the two kinds are never the same string. */
  datatype Key = IdKey(id: Id) | AddressKey(address: string, tcpPort: int)

  datatype PeerInfo = PeerInfo(id: Option<Id>, address: Option<string>, tcpPort: Option<int>, vectorClock: int)

  /** What a peer can be looked up by. */
  datatype Lookup = ById(id: Id) | ByKey(key: Key) | ByPeer(peer: PeerInfo)

  function PeerKeys(id: Option<Id>, address: Option<string>, tcpPort: Option<int>): seq<Key> {
    (if id.Some? then [IdKey(id.value)] else [])
    + (if address.Some? && tcpPort.Some? then [AddressKey(address.value, tcpPort.value)] else [])
  }

  function KeysOf(c: Contact): seq<Key> {
    PeerKeys(Some(c.id), c.address, c.tcpPort)
  }

  function GetKeys(obj: Lookup): seq<Key> {
    match obj
    case ById(id) => [IdKey(id)]
    case ByKey(key) => [key]
    case ByPeer(p) => PeerKeys(p.id, p.address, p.tcpPort)
  }

  /** Some of the keys are indexed. */
  predicate Known(peers: map<Key, Contact>, keys: seq<Key>) {
    exists i | 0 <= i < |keys| :: keys[i] in peers
  }

  /** The index holds exactly the keys of the contacts, each under its own, and so no two contacts share one. */
  ghost predicate Indexed(peers: map<Key, Contact>, t: Table) {
    (forall k | k in peers :: Holder(t, k, peers[k])) && (forall c, k | Holder(t, k, c) :: k in peers && peers[k] == c)
  }

  /** A contact is known by its id, and by its address with its port if it has both. */
  predicate Bears(c: Contact, k: Key) {
    match k
    case IdKey(id) => c.id == id
    case AddressKey(address, tcpPort) => c.address == Some(address) && c.tcpPort == Some(tcpPort)
  }

  /** A contact with the key. */
  ghost predicate Holder(t: Table, k: Key, c: Contact) {
    Has(t, c) && Bears(c, k)
  }

  /** The keys of a contact are those it is known by. */
  lemma {:induction false} KeysAre(c: Contact)
    ensures forall k :: k in KeysOf(c) <==> Bears(c, k)
  {
  }

  /** A lookup by a peer leads to whoever has its id, or its address and port; any other to whoever has the key. */
  predicate LeadsTo(obj: Lookup, c: Contact) {
    match obj
    case ById(id) => c.id == id
    case ByKey(key) => Bears(c, key)
    case ByPeer(p) =>
      || p.id == Some(c.id)
      || (p.address.Some? && p.tcpPort.Some? && p.address == c.address && p.tcpPort == c.tcpPort)
  }

  lemma {:induction false} LeadsToIff(obj: Lookup, c: Contact)
    ensures LeadsTo(obj, c) <==> exists k :: k in GetKeys(obj) && Bears(c, k)
  {
    match obj
    case ById(id) => assert IdKey(id) in GetKeys(obj);
    case ByKey(key) => assert key in GetKeys(obj);
    case ByPeer(p) =>
      if p.id.Some? {
        assert IdKey(p.id.value) in GetKeys(obj);
      }
      if p.address.Some? && p.tcpPort.Some? {
        assert AddressKey(p.address.value, p.tcpPort.value) in GetKeys(obj);
      }
  }

  lemma {:induction false} KeysDisjoint(peers: map<Key, Contact>, t: Table, a: Contact, b: Contact, k: Key)
    requires Indexed(peers, t) && Holder(t, k, a) && Holder(t, k, b)
    ensures a == b
  {
    assert peers[k] == a;
  }

  /** Someone the lookup leads to. */
  ghost predicate Meets(t: Table, obj: Lookup) {
    exists c :: Has(t, c) && LeadsTo(obj, c)
  }

  lemma {:induction false} KnownIff(peers: map<Key, Contact>, t: Table, obj: Lookup)
    requires Indexed(peers, t)
    ensures Known(peers, GetKeys(obj)) <==> Meets(t, obj)
  {
    var keys := GetKeys(obj);
    if i :| 0 <= i < |keys| && keys[i] in peers {
      assert Holder(t, keys[i], peers[keys[i]]);
      LeadsToIff(obj, peers[keys[i]]);
    }
    if c :| Has(t, c) && LeadsTo(obj, c) {
      LeadsToIff(obj, c);
      var k :| k in keys && Bears(c, k);
      assert Holder(t, k, c);
    }
  }

  lemma {:induction false} FirstKey(peers: map<Key, Contact>, t: Table, obj: Lookup, i: nat)
    requires Indexed(peers, t) && i < |GetKeys(obj)| && GetKeys(obj)[i] in peers
    requires forall j | 0 <= j < i :: GetKeys(obj)[j] !in peers
    ensures var c := peers[GetKeys(obj)[i]];
            && Has(t, c) && LeadsTo(obj, c)
            && (obj.ByPeer? && obj.peer.id.Some? && Meets(t, ById(obj.peer.id.value)) ==> c.id == obj.peer.id.value)
  {
    var k := GetKeys(obj)[i];
    assert Holder(t, k, peers[k]);
    LeadsToIff(obj, peers[k]);
    if obj.ByPeer? && obj.peer.id.Some? && i > 0 {
      KnownIff(peers, t, ById(obj.peer.id.value));
      assert GetKeys(obj)[0] == IdKey(obj.peer.id.value);
    }
  }

  function SetKeys(peers: map<Key, Contact>, keys: seq<Key>, c: Contact): map<Key, Contact> {
    if keys == [] then peers else SetKeys(peers, keys[..|keys| - 1], c)[keys[|keys| - 1] := c]
  }

  lemma {:induction false} SetKeysHas(peers: map<Key, Contact>, keys: seq<Key>, c: Contact)
    ensures forall k :: k in SetKeys(peers, keys, c) <==> k in peers || k in keys
    ensures forall k | k in SetKeys(peers, keys, c) :: SetKeys(peers, keys, c)[k] == if k in keys then c else peers[k]
  {
    if keys != [] {
      SetKeysHas(peers, keys[..|keys| - 1], c);
      assert keys == keys[..|keys| - 1] + [keys[|keys| - 1]];
    }
  }

  lemma {:induction false} AddedIndexed(peers: map<Key, Contact>, t: Table, t': Table, c: Contact)
    requires Indexed(peers, t) && (forall x :: Has(t', x) <==> Has(t, x) || x == c)
    requires forall k | k in KeysOf(c) :: k !in peers
    ensures Indexed(SetKeys(peers, KeysOf(c), c), t')
  {
    SetKeysHas(peers, KeysOf(c), c);
    assert forall x, k | Holder(t', k, x) && x != c :: Holder(t, k, x);
  }

  lemma {:induction false} RemovedIndexed(peers: map<Key, Contact>, t: Table, t': Table, c: Contact,
                                          peers': map<Key, Contact>)
    requires Indexed(peers, t) && Has(t, c) && (forall x :: Has(t', x) <==> Has(t, x) && x != c)
    requires (forall k :: k in peers' <==> k in peers && k !in KeysOf(c))
    requires forall k | k in peers' :: peers'[k] == peers[k]
    ensures Indexed(peers', t')
  {
    forall x, k | Holder(t', k, x)
      ensures k in peers' && peers'[k] == x
    {
      assert Holder(t, k, x);
      if k in KeysOf(c) {
        KeysDisjoint(peers, t, x, c, k);
      }
    }
    forall k | k in peers'
      ensures Holder(t', k, peers'[k])
    {
      assert Holder(t, k, peers[k]);
    }
  }

  class RoutingTable {
    var peers: map<Key, Contact>
    const kbucket: KBucket

    ghost predicate Valid()
      reads this, kbucket, kbucket.view.held.Keys
    {
      kbucket.Valid() && Indexed(peers, kbucket.view.t)
    }

    ghost function Contacts(): Table
      reads kbucket
    {
      kbucket.view.t
    }

    constructor (localNodeId: Id, k: nat, concurrency: nat)
      ensures Valid() && peers == map[] && kbucket.g == Config(localNodeId, k, concurrency, DefaultArbiter)
      ensures forall c :: !Has(Contacts(), c)
    {
      kbucket := new KBucket(Config(localNodeId, k, concurrency, DefaultArbiter));
      peers := map[];
    }

    method OnAdded(peer: Contact)
      modifies this`peers
      ensures peers == SetKeys(old(peers), KeysOf(peer), peer)
    {
      var keys := KeysOf(peer);
      var i := 0;
      while i < |keys|
        invariant 0 <= i <= |keys| && peers == SetKeys(old(peers), keys[..i], peer)
      {
        assert keys[..i + 1][..i] == keys[..i];
        peers := peers[keys[i] := peer];
        i := i + 1;
      }
      assert keys[..|keys|] == keys;
    }

    method OnRemoved(peer: Contact)
      modifies this`peers
      ensures forall k :: k in peers <==> k in old(peers) && k !in KeysOf(peer)
      ensures forall k | k in peers :: peers[k] == old(peers)[k]
    {
      var keys := KeysOf(peer);
      var i := 0;
      while i < |keys|
        invariant 0 <= i <= |keys|
        invariant forall k :: k in peers <==> k in old(peers) && k !in keys[..i]
        invariant forall k | k in peers :: peers[k] == old(peers)[k]
      {
        peers := peers - {keys[i]};
        assert keys[..i + 1] == keys[..i] + [keys[i]];
        i := i + 1;
      }
    }

    /** A contact that the lookup leads to, found exactly when there is one; by a peer, the one with its id if any. */
    method Get(obj: Lookup) returns (r: Option<Contact>)
      requires Valid()
      ensures r.Some? <==> Meets(Contacts(), obj)
      ensures r.Some? ==> Has(Contacts(), r.value) && LeadsTo(obj, r.value)
      ensures obj.ByPeer? && obj.peer.id.Some? && Meets(Contacts(), ById(obj.peer.id.value)) ==>
                r.Some? && r.value.id == obj.peer.id.value
    {
      var keys := GetKeys(obj);
      KnownIff(peers, Contacts(), obj);
      var i := 0;
      while i < |keys|
        invariant 0 <= i <= |keys| && forall j | 0 <= j < i :: keys[j] !in peers
      {
        if keys[i] in peers {
          FirstKey(peers, Contacts(), obj, i);
          return Some(peers[keys[i]]);
        }
        i := i + 1;
      }
      r := None;
    }

    /**
     * Adds a peer none of whose keys is known; one without an id is an error. The contact is added under its
     * keys, or its full bucket asks for a ping and nothing changes.
     */
    method Add(peer: PeerInfo) returns (event: Option<Event>, threw: bool)
      requires Valid() && (peer.id.Some? ==> Addable(kbucket.g, peer.id.value))
      modifies this, kbucket, kbucket.Nodes()
      ensures Valid() && fresh(kbucket.Nodes() - old(kbucket.Nodes()))
      ensures threw <==> !Meets(old(Contacts()), ByPeer(peer)) && peer.id.None?
      ensures event.None? <==> Meets(old(Contacts()), ByPeer(peer)) || peer.id.None?
      ensures match event
              case None => peers == old(peers) && Contacts() == old(Contacts())
              case Some(Added(c)) =>
                && peer == PeerInfo(Some(c.id), c.address, c.tcpPort, c.vectorClock)
                && forall x :: Has(Contacts(), x) <==> Has(old(Contacts()), x) || x == c
              case Some(Ping(_, c)) =>
                && peer == PeerInfo(Some(c.id), c.address, c.tcpPort, c.vectorClock) && peers == old(peers)
                && event == Insert(kbucket.g, old(Contacts()), c).1
                && forall x :: Has(Contacts(), x) <==> Has(old(Contacts()), x)
              case _ => false
    {
      threw := false;
      var keys := GetKeys(ByPeer(peer));
      KnownIff(peers, Contacts(), ByPeer(peer));
      var isExists := Known(peers, keys);
      if isExists || peer.id.None? {
        return None, !isExists;
      }
      event := AddNew(Contact(peer.id.value, peer.address, peer.tcpPort, peer.vectorClock));
    }

    method AddNew(contact: Contact) returns (event: Option<Event>)
      requires Valid() && Addable(kbucket.g, contact.id) && forall k | k in KeysOf(contact) :: k !in peers
      modifies this, kbucket, kbucket.Nodes()
      ensures Valid() && fresh(kbucket.Nodes() - old(kbucket.Nodes()))
      ensures match event
              case Some(Added(c)) =>
                c == contact && forall x :: Has(Contacts(), x) <==> Has(old(Contacts()), x) || x == c
              case Some(Ping(_, c)) =>
                && c == contact && peers == old(peers) && event == Insert(kbucket.g, old(Contacts()), contact).1
                && forall x :: Has(Contacts(), x) <==> Has(old(Contacts()), x)
              case _ => false
    {
      NobodyHas(peers, Contacts(), contact);
      InsertOk(kbucket.g, Contacts(), contact);
      event := kbucket.Add(contact);
      match event
      case Some(Added(c)) =>
        AddedIndexed(peers, old(Contacts()), Contacts(), c);
        OnAdded(c);
      case Some(Ping(_, _)) =>
        SameIndexed(peers, old(Contacts()), Contacts());
      case _ =>
    }

    /** Removes the peer that the keys lead to, with all its keys. */
    method Remove(obj: Lookup) returns (removed: Option<Contact>)
      requires Valid()
      modifies this, kbucket, kbucket.Nodes()
      ensures Valid()
      ensures removed.Some? <==> Meets(old(Contacts()), obj)
      ensures removed.Some? ==> Has(old(Contacts()), removed.value) && LeadsTo(obj, removed.value)
      ensures removed.Some? ==> forall x :: Has(Contacts(), x) <==> Has(old(Contacts()), x) && x != removed.value
      ensures removed.None? ==> peers == old(peers) && Contacts() == old(Contacts())
    {
      removed := Get(obj);
      if removed.Some? {
        RemoveContact(removed.value);
      }
    }

    method RemoveContact(c: Contact)
      requires Valid() && Has(Contacts(), c)
      modifies this, kbucket, kbucket.Nodes()
      ensures Valid() && forall x :: Has(Contacts(), x) <==> Has(old(Contacts()), x) && x != c
    {
      ghost var was, t := peers, Contacts();
      DeleteOk(kbucket.g.local, kbucket.g.k, t, c.id);
      var event := kbucket.Remove(c.id);
      IdsDistinct(kbucket.g.local, kbucket.g.k, t, c, event.value.contact);
      OnRemoved(event.value.contact);
      RemovedIndexed(was, t, Contacts(), c, peers);
    }
  }

  lemma {:induction false} NobodyHas(peers: map<Key, Contact>, t: Table, contact: Contact)
    requires Indexed(peers, t) && forall k | k in KeysOf(contact) :: k !in peers
    ensures forall c | Has(t, c) :: c.id != contact.id
  {
    forall c | Has(t, c)
      ensures c.id != contact.id
    {
      assert IdKey(contact.id) in KeysOf(contact);
      assert c.id == contact.id ==> Holder(t, IdKey(c.id), c);
    }
  }

  lemma {:induction false} SameIndexed(peers: map<Key, Contact>, t: Table, t': Table)
    requires Indexed(peers, t) && forall x :: Has(t', x) <==> Has(t, x)
    ensures Indexed(peers, t')
  {
    assert forall c, k :: Holder(t', k, c) <==> Holder(t, k, c);
  }
}
