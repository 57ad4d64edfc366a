/**
 * Total difficulties: what is stored for a header against the work of the headers behind it, and when a put
 * keeps the two equal.
 */
module ChainWork {
  import opened Bytes
  import opened ChainDb

  /** The difficulties of a header and of its parents, as far down as they are stored. */
  ghost function WorkOf(t: Tables, header: Header): nat
    decreases header.number
  {
    if header.number == 0 then header.difficulty
    else
      var p := t.GetHeaderAt(header.parentHash, header.number - 1);
      header.difficulty + if p.None? || p.value.number >= header.number then 0 else WorkOf(t, p.value)
  }

  function ParentKey(header: Header): (k: Key)
    requires header.number > 0
    ensures k.0 == header.number - 1
  {
    (header.number - 1, header.parentHash)
  }

  /** The parent is in the store, which a caller can look up. */
  predicate ParentStored(t: Tables, header: Header) {
    header.number == 0 || ParentKey(header) in t.headers
  }

  /** A header is stored whose parent would be the one with this number and hash. */
  predicate ChildStored(t: Tables, number: nat, h: Hash) {
    exists k | k in t.headers :: k.0 == number + 1 && t.headers[k].parentHash == h
  }

  /** Every header but genesis has its parent stored, and so all its parents down to genesis. */
  ghost predicate Rooted(t: Tables) {
    forall k | k in t.headers :: ParentStored(t, t.headers[k])
  }

  /** What is stored as a header's total difficulty is the sum of difficulties back from it. */
  ghost predicate SumsOk(t: Tables) {
    t.td.Keys == t.headers.Keys && forall k | k in t.headers :: t.td[k] == WorkOf(t, t.headers[k])
  }

  /** No stored header has more total difficulty than the head header. */
  ghost predicate Heaviest(t: Tables, n: nat, head: Hash) {
    forall k | k in t.headers && k in t.td :: t.td[k] <= t.GetTotalDifficultyAt(head, n)
  }

  /** A header that comes after its child: by then the child's sum has been stored without it. */
  predicate ComesLate(hash: HashOf, t: Tables, item: Header) {
    (item.number, hash(item)) !in t.headers && ChildStored(t, item.number, hash(item))
  }

  function TdFor(t: Tables, item: Header): nat {
    item.difficulty + t.GetTotalDifficultyAt(item.parentHash, item.number - 1)
  }

  /** The tables after the item is stored, in what concerns work. */
  ghost predicate Adds(hash: HashOf, t: Tables, t': Tables, item: Header) {
    var key := (item.number, hash(item));
    && t'.headers == t.headers[key := item]
    && t'.td == t.td[key := TdFor(t, item)]
  }

  // ----- one step down the chain --------------------------------------------------------------

  lemma {:induction false} WorkUnfold(hash: HashOf, t: Tables, header: Header)
    requires StoreOk(hash, t) && header.number > 0
    ensures WorkOf(t, header)
            == header.difficulty
               + if ParentKey(header) in t.headers then WorkOf(t, t.headers[ParentKey(header)]) else 0
  {
  }

  /** The total difficulty of a parent that is not stored reads as zero, in every state. */
  lemma {:induction false} OrphanHasNoWork(t: Tables, item: Header)
    requires t.td.Keys == t.headers.Keys && !ParentStored(t, item)
    ensures t.GetTotalDifficultyAt(item.parentHash, item.number - 1) == 0
  {
  }

  /** So what a put stores is the sum back from the item as things are. */
  lemma {:induction false} TdIsWork(hash: HashOf, t: Tables, item: Header)
    requires StoreOk(hash, t) && SumsOk(t) && item.number > 0
    ensures TdFor(t, item) == WorkOf(t, item)
  {
    WorkUnfold(hash, t, item);
    if !ParentStored(t, item) {
      OrphanHasNoWork(t, item);
    }
  }

  // ----- what a new header does to sums ---------------------------------------------------------

  /** Nothing below or beside a new header is changed by it. */
  lemma {:induction false} WorkBelow(hash: HashOf, t: Tables, t': Tables, item: Header, x: Header)
    requires StoreOk(hash, t) && StoreOk(hash, t') && x.number <= item.number
    requires t'.headers == t.headers[(item.number, hash(item)) := item]
    ensures WorkOf(t', x) == WorkOf(t, x)
    decreases x.number
  {
    if x.number > 0 {
      WorkUnfold(hash, t, x);
      WorkUnfold(hash, t', x);
      assert ParentKey(x) != (item.number, hash(item));
      if ParentKey(x) in t.headers {
        WorkBelow(hash, t, t', item, t.headers[ParentKey(x)]);
      }
    }
  }

  /** Nor is anything above, if no child waits for it, or it has no work. */
  lemma {:induction false} WorkAbove(hash: HashOf, t: Tables, t': Tables, item: Header, x: Header)
    requires StoreOk(hash, t) && StoreOk(hash, t') && (item.number, hash(item)) !in t.headers
    requires t'.headers == t.headers[(item.number, hash(item)) := item]
    requires !ChildStored(t, item.number, hash(item)) || WorkOf(t, item) == 0
    requires x == item || ((x.number, hash(x)) in t.headers && t.headers[(x.number, hash(x))] == x)
    ensures WorkOf(t', x) == WorkOf(t, x)
    decreases x.number
  {
    if x.number <= item.number {
      WorkBelow(hash, t, t', item, x);
    } else {
      WorkUnfold(hash, t, x);
      WorkUnfold(hash, t', x);
      var p := ParentKey(x);
      if p == (item.number, hash(item)) {
        assert (x.number, hash(x)) in t.headers;
        WorkBelow(hash, t, t', item, item);
      } else if p in t.headers {
        WorkAbove(hash, t, t', item, t.headers[p]);
      }
    }
  }

  /** A child stored before has a sum without the new header's work. */
  lemma {:induction false} ChildFallsShort(hash: HashOf, t: Tables, t': Tables, item: Header, k: Key)
    requires StoreOk(hash, t) && StoreOk(hash, t') && SumsOk(t) && (item.number, hash(item)) !in t.headers
    requires t'.headers == t.headers[(item.number, hash(item)) := item]
    requires k in t.headers && k.0 == item.number + 1 && t.headers[k].parentHash == hash(item)
    ensures WorkOf(t', t.headers[k]) == t.td[k] + WorkOf(t, item)
  {
    var child := t.headers[k];
    assert child.number == k.0 && ParentKey(child) == (item.number, hash(item));
    WorkUnfold(hash, t, child);
    WorkUnfold(hash, t', child);
    WorkBelow(hash, t, t', item, item);
  }

  lemma {:induction false} StoredAgain(hash: HashOf, t: Tables, t': Tables, item: Header)
    requires Injective(hash) && StoreOk(hash, t) && SumsOk(t) && item.number > 0
    requires (item.number, hash(item)) in t.headers && Adds(hash, t, t', item)
    ensures t'.headers == t.headers && t'.td == t.td
  {
    TdIsWork(hash, t, item);
    assert t.headers[(item.number, hash(item))] == item;
  }

  lemma {:induction false} LateBreaks(hash: HashOf, t: Tables, t': Tables, item: Header)
    requires StoreOk(hash, t) && StoreOk(hash, t') && SumsOk(t) && item.number > 0
    requires Adds(hash, t, t', item) && ComesLate(hash, t, item) && TdFor(t, item) > 0
    ensures !SumsOk(t')
  {
    TdIsWork(hash, t, item);
    var k :| k in t.headers && k.0 == item.number + 1 && t.headers[k].parentHash == hash(item);
    ChildFallsShort(hash, t, t', item, k);
    assert t'.headers[k] == t.headers[k] && t'.td[k] == t.td[k];
  }

  lemma {:induction false} NewKeeps(hash: HashOf, t: Tables, t': Tables, item: Header)
    requires StoreOk(hash, t) && StoreOk(hash, t') && SumsOk(t) && item.number > 0
    requires Adds(hash, t, t', item) && (item.number, hash(item)) !in t.headers
    requires !ChildStored(t, item.number, hash(item)) || TdFor(t, item) == 0
    ensures SumsOk(t')
  {
    TdIsWork(hash, t, item);
    forall k | k in t'.headers
      ensures t'.td[k] == WorkOf(t', t'.headers[k])
    {
      WorkAbove(hash, t, t', item, t'.headers[k]);
    }
  }

  /**
   * A put keeps the stored sums right exactly when its item does not come after a child of its own, or adds
   * nothing to it.
   */
  lemma {:induction false} PutSums(hash: HashOf, t: Tables, t': Tables, item: Header)
    requires Injective(hash) && StoreOk(hash, t) && StoreOk(hash, t') && SumsOk(t) && item.number > 0
    requires Adds(hash, t, t', item)
    ensures SumsOk(t') <==> !ComesLate(hash, t, item) || TdFor(t, item) == 0
  {
    if (item.number, hash(item)) in t.headers {
      StoredAgain(hash, t, t', item);
      SameWork(t, t');
    } else if ChildStored(t, item.number, hash(item)) && TdFor(t, item) > 0 {
      LateBreaks(hash, t, t', item);
    } else {
      NewKeeps(hash, t, t', item);
    }
  }

  lemma {:induction false} SameWork(t: Tables, t': Tables)
    requires SumsOk(t) && t'.headers == t.headers && t'.td == t.td
    ensures SumsOk(t')
  {
    forall k | k in t.headers
      ensures WorkOf(t', t.headers[k]) == WorkOf(t, t.headers[k])
    {
      SameWorkOf(t, t', t.headers[k]);
    }
  }

  lemma {:induction false} SameWorkOf(t: Tables, t': Tables, x: Header)
    requires t'.headers == t.headers
    ensures WorkOf(t', x) == WorkOf(t, x)
    decreases x.number
  {
    if x.number > 0 {
      var p := t.GetHeaderAt(x.parentHash, x.number - 1);
      if p.Some? && p.value.number < x.number {
        SameWorkOf(t, t', p.value);
      }
    }
  }

  /** Storing headers on top of stored parents keeps every total difficulty the sum back to genesis. */
  lemma {:induction false} StoreKeepsWork(hash: HashOf, t: Tables, t': Tables, item: Header)
    requires Injective(hash) && StoreOk(hash, t) && StoreOk(hash, t') && item.number > 0
    requires SumsOk(t) && Rooted(t) && ParentStored(t, item) && Adds(hash, t, t', item)
    ensures SumsOk(t') && Rooted(t')
  {
    NotLate(hash, t, item);
    PutSums(hash, t, t', item);
    forall k | k in t'.headers
      ensures ParentStored(t', t'.headers[k])
    {
      assert k != (item.number, hash(item)) ==> ParentStored(t, t.headers[k]);
    }
  }

  /** With all parents stored nothing comes after its child. */
  lemma {:induction false} NotLate(hash: HashOf, t: Tables, item: Header)
    requires StoreOk(hash, t) && Rooted(t)
    ensures !ComesLate(hash, t, item)
  {
    if k :| k in t.headers && k.0 == item.number + 1 && t.headers[k].parentHash == hash(item) {
      assert ParentKey(t.headers[k]) == (item.number, hash(item));
      assert ParentStored(t, t.headers[k]);
    }
  }

  // ----- the heaviest header ----------------------------------------------------------------------

  ghost predicate HeadAfter(hash: HashOf, t: Tables, item: Header, n: nat, head: Hash, n': nat, head': Hash) {
    if TdFor(t, item) > t.GetTotalDifficultyAt(head, n) then n' == item.number && head' == hash(item)
    else n' == n && head' == head
  }

  /** A put leaves no header with more total difficulty than the head header. */
  lemma {:induction false} StaysHeaviest(hash: HashOf, t: Tables, t': Tables, item: Header, n: nat, head: Hash, n': nat,
                                         head': Hash)
    requires Injective(hash) && StoreOk(hash, t) && SumsOk(t) && item.number > 0
    requires Heaviest(t, n, head) && (n, head) in t.headers
    requires Adds(hash, t, t', item) && HeadAfter(hash, t, item, n, head, n', head')
    ensures Heaviest(t', n', head')
  {
    var key := (item.number, hash(item));
    if key in t.headers {
      StoredAgain(hash, t, t', item);
    }
    HeavierOfTwo(t, t', key, TdFor(t, item), n, head, n', head');
  }

  lemma {:induction false} HeavierOfTwo(t: Tables, t': Tables, key: Key, td: nat, n: nat, head: Hash, n': nat,
                                        head': Hash)
    requires Heaviest(t, n, head) && t'.td == t.td[key := td] && t'.headers.Keys == t.headers.Keys + {key}
    requires key == (n, head) ==> t.GetTotalDifficultyAt(head, n) == td
    requires if td > t.GetTotalDifficultyAt(head, n) then (n', head') == key else n' == n && head' == head
    ensures Heaviest(t', n', head')
  {
    var most := t'.GetTotalDifficultyAt(head', n');
    assert most >= td && most >= t.GetTotalDifficultyAt(head, n);
    forall k | k in t'.headers && k in t'.td
      ensures t'.td[k] <= most
    {
      if k != key {
        assert k in t.headers && k in t.td;
      }
    }
  }

  /** Both together: the sums stay right exactly under the condition above, and no header outweighs the head. */
  lemma {:induction false} PutWork(hash: HashOf, t: Tables, t': Tables, item: Header, n: nat, head: Hash, n': nat,
                                   head': Hash)
    requires Injective(hash) && StoreOk(hash, t) && StoreOk(hash, t') && SumsOk(t) && item.number > 0
    requires Heaviest(t, n, head) && (n, head) in t.headers
    requires Adds(hash, t, t', item) && HeadAfter(hash, t, item, n, head, n', head')
    ensures SumsOk(t') <==> !ComesLate(hash, t, item) || TdFor(t, item) == 0
    ensures Heaviest(t', n', head')
    ensures Rooted(t) && ParentStored(t, item) ==> SumsOk(t') && Rooted(t')
  {
    PutSums(hash, t, t', item);
    StaysHeaviest(hash, t, t', item, n, head, n', head');
    if Rooted(t) && ParentStored(t, item) {
      StoreKeepsWork(hash, t, t', item);
    }
  }
}
