/**
 * What reorganisations and deletions do to the tables and the heads (packages/blockchain/src/blockchain.ts), as
 * facts about the state before and after.
 */
module ChainReorg {
  import opened Bytes
  import opened ChainDb
  import opened ChainWork

  /** `h` is the canonical hash of some number in lo..hi. */
  ghost predicate StaleIn(t: Tables, lo: nat, hi: nat, h: Hash) {
    exists m :: lo <= m < hi && m in t.numberToHash && t.numberToHash[m] == h
  }

  ghost function Redirect(t: Tables, lo: nat, hi: nat, to: Hash, h: Hash): Hash {
    if StaleIn(t, lo, hi, h) then to else h
  }

  ghost function RedirectAll(t: Tables, lo: nat, hi: nat, to: Hash, heads: map<string, Hash>): map<string, Hash> {
    map name | name in heads :: Redirect(t, lo, hi, to, heads[name])
  }

  /** The iterator heads, the head header and the head block. */
  datatype HeadSet = HeadSet(iterators: map<string, Hash>, header: Hash, block: Hash)

  ghost function Move(stale: Hash, to: Hash, hs: HeadSet): HeadSet {
    HeadSet(map name | name in hs.iterators :: if hs.iterators[name] == stale then to else hs.iterators[name],
            if hs.header == stale then to else hs.header,
            if hs.block == stale then to else hs.block)
  }

  ghost function MoveAll(t: Tables, lo: nat, hi: nat, to: Hash, hs: HeadSet): HeadSet {
    HeadSet(RedirectAll(t, lo, hi, to, hs.iterators), Redirect(t, lo, hi, to, hs.header),
            Redirect(t, lo, hi, to, hs.block))
  }

  function NamesOn(heads: map<string, Hash>, h: Hash): set<string> {
    set name | name in heads && heads[name] == h
  }

  ghost function StaleNames(t: Tables, lo: nat, hi: nat, heads: map<string, Hash>): set<string> {
    set name | name in heads && StaleIn(t, lo, hi, heads[name])
  }

  lemma {:induction false} StaleStep(t: Tables, lo: nat, hi: nat, heads: map<string, Hash>, h: Hash)
    requires lo < hi
    ensures StaleNames(t, lo, hi, heads)
            == StaleNames(t, lo + 1, hi, heads)
               + if lo in t.numberToHash then NamesOn(heads, t.numberToHash[lo]) else {}
    ensures StaleIn(t, lo, hi, h) <==> StaleIn(t, lo + 1, hi, h) || (lo in t.numberToHash && t.numberToHash[lo] == h)
  {
    forall h'
      ensures StaleIn(t, lo, hi, h') <==>
                StaleIn(t, lo + 1, hi, h') || (lo in t.numberToHash && t.numberToHash[lo] == h')
    {
    }
  }

  lemma {:induction false} StaleNamesMoved(t: Tables, lo: nat, hi: nat, to: Hash, heads: map<string, Hash>)
    ensures (map name | name in heads :: if name in StaleNames(t, lo, hi, heads) then to else heads[name])
            == RedirectAll(t, lo, hi, to, heads)
  {
  }

  lemma {:induction false} RedirectSnoc(t: Tables, lo: nat, hi: nat, to: Hash, h: Hash)
    requires lo <= hi && hi in t.numberToHash
    ensures var r := Redirect(t, lo, hi, to, h);
            Redirect(t, lo, hi + 1, to, h) == if r == t.numberToHash[hi] then to else r
  {
  }

  /** One more stale entry dealt with. */
  lemma {:induction false} MoveAllStep(t: Tables, lo: nat, hi: nat, to: Hash, hs: HeadSet)
    requires lo <= hi && hi in t.numberToHash
    ensures Move(t.numberToHash[hi], to, MoveAll(t, lo, hi, to, hs)) == MoveAll(t, lo, hi + 1, to, hs)
  {
    forall name | name in hs.iterators
      ensures Move(t.numberToHash[hi], to, MoveAll(t, lo, hi, to, hs)).iterators[name]
                == Redirect(t, lo, hi + 1, to, hs.iterators[name])
    {
      RedirectSnoc(t, lo, hi, to, hs.iterators[name]);
    }
    RedirectSnoc(t, lo, hi, to, hs.header);
    RedirectSnoc(t, lo, hi, to, hs.block);
  }

  ghost predicate UpTo(n2h: map<nat, Hash>, n: nat) {
    forall i: nat :: i in n2h <==> i <= n
  }

  ghost function Without(n2h: map<nat, Hash>, lo: nat, hi: nat): map<nat, Hash> {
    map m | m in n2h && !(lo <= m < hi) :: n2h[m]
  }

  lemma {:induction false} WithoutSnoc(n2h: map<nat, Hash>, lo: nat, hi: nat)
    requires lo <= hi
    ensures Without(n2h, lo, hi) - {hi} == Without(n2h, lo, hi + 1)
  {
  }

  lemma {:induction false} WithoutBelow(n2h: map<nat, Hash>, lo: nat, hi: nat)
    requires lo <= hi && forall m: nat | m >= hi :: m !in n2h
    ensures Without(n2h, lo, hi) == Below(n2h, lo)
  {
  }

  /** What the queue does when the entries from `lo` to `hi` are to be removed. */
  ghost predicate Deleted(t: Tables, ops: seq<DbOp>, ops': seq<DbOp>, lo: nat, hi: nat) {
    Apply(t, ops') == Apply(t, ops).(numberToHash := Without(t.numberToHash, lo, hi))
  }

  lemma {:induction false} DeleteStep(t: Tables, ops: seq<DbOp>, ops': seq<DbOp>, lo: nat, hi: nat, to: Hash,
                                      hs: HeadSet)
    requires lo <= hi && hi in t.numberToHash && Deleted(t, ops, ops', lo, hi)
    ensures Deleted(t, ops, ops' + [DelNumberToHash(hi)], lo, hi + 1)
    ensures Move(t.numberToHash[hi], to, MoveAll(t, lo, hi, to, hs)) == MoveAll(t, lo, hi + 1, to, hs)
  {
    ApplySnoc(t, ops', DelNumberToHash(hi));
    WithoutSnoc(t.numberToHash, lo, hi);
    MoveAllStep(t, lo, hi, to, hs);
  }

  /** Beyond the chain's end there is nothing to remove or to move from. */
  lemma {:induction false} DeleteEnd(t: Tables, ops: seq<DbOp>, ops': seq<DbOp>, lo: nat, hi: nat, n: nat, to: Hash,
                                     hs: HeadSet)
    requires UpTo(t.numberToHash, n) && lo <= hi && hi > n && Deleted(t, ops, ops', lo, hi)
    ensures Apply(t, ops') == Apply(t, ops).(numberToHash := Below(t.numberToHash, lo))
    ensures MoveAll(t, lo, hi, to, hs) == MoveAll(t, lo, n + 1, to, hs)
  {
    WithoutBelow(t.numberToHash, lo, hi);
    forall h
      ensures Redirect(t, lo, hi, to, h) == Redirect(t, lo, n + 1, to, h)
    {
    }
  }

  ghost function Below(n2h: map<nat, Hash>, bound: nat): map<nat, Hash> {
    map m | m in n2h && m < bound :: n2h[m]
  }

  ghost function AncestorHash(hash: HashOf, t: Tables, header: Header, m: nat): Hash {
    var a := Ancestor(t, header, m);
    if a.Some? then hash(a.value) else 0
  }

  /** The entries with the header's parent chain written over them from `lo` (excluded) up. */
  ghost function Overlay(hash: HashOf, t: Tables, header: Header, lo: nat, n2h: map<nat, Hash>): map<nat, Hash>
    decreases header.number - lo
  {
    if header.number <= lo then n2h
    else Overlay(hash, t, header, lo + 1, n2h)[lo + 1 := AncestorHash(hash, t, header, lo + 1)]
  }

  lemma {:induction false} OverlayAt(hash: HashOf, t: Tables, header: Header, lo: nat, n2h: map<nat, Hash>, m: nat)
    ensures var o := Overlay(hash, t, header, lo, n2h);
            && (m in o <==> m in n2h || lo < m <= header.number)
            && (m in o ==> o[m] == if lo < m <= header.number then AncestorHash(hash, t, header, m) else n2h[m])
    decreases header.number - lo
  {
    if lo < header.number {
      OverlayAt(hash, t, header, lo + 1, n2h, m);
    }
  }

  /** The tables `a` with the header's parent chain, as it is in `t`, written over the entries above `m`. */
  ghost function Rewrite(hash: HashOf, t: Tables, a: Tables, start: Header, m: nat): Tables {
    a.(numberToHash := Overlay(hash, t, start, m, a.numberToHash),
       hashToNumber := if m < start.number then a.hashToNumber[hash(start) := start.number] else a.hashToNumber)
  }

  /** What the queue does when the rewriting has come down to number `m`. */
  ghost predicate Rebuilt(hash: HashOf, t: Tables, ops: seq<DbOp>, ops': seq<DbOp>, start: Header, m: nat) {
    Apply(t, ops') == Rewrite(hash, t, Apply(t, ops), start, m)
  }

  lemma {:induction false} RebuildStep(hash: HashOf, t: Tables, ops: seq<DbOp>, ops': seq<DbOp>, start: Header,
                                       header: Header)
    requires Injective(hash) && StoreOk(hash, t) && Apply(t, ops).hashToNumber == t.hashToNumber
    requires 0 < header.number <= start.number && Ancestor(t, start, header.number) == Some(header)
    requires Rebuilt(hash, t, ops, ops', start, header.number)
    ensures Rebuilt(hash, t, ops,
                    ops' + [SetNumberToHash(header.number, hash(header)), SetHashToNumber(hash(header), header.number)],
                    start, header.number - 1)
  {
    var m := header.number;
    var o1, o2 := SetNumberToHash(m, hash(header)), SetHashToNumber(hash(header), m);
    ApplySnoc(t, ops', o1);
    ApplySnoc(t, ops' + [o1], o2);
    assert ops' + [o1] + [o2] == ops' + [o1, o2];
    IndexKept(hash, t, Apply(t, ops).hashToNumber, start, header);
  }

  /** Indexing a header that is already stored changes nothing. */
  lemma {:induction false} IndexKept(hash: HashOf, t: Tables, h2n: map<Hash, nat>, start: Header, header: Header)
    requires Injective(hash) && StoreOk(hash, t) && h2n == t.hashToNumber
    requires header.number <= start.number && Ancestor(t, start, header.number) == Some(header)
    ensures var was := if header.number < start.number then h2n[hash(start) := start.number] else h2n;
            was[hash(header) := header.number] == h2n[hash(start) := start.number]
  {
    if header.number < start.number {
      AncestorStep(hash, t, start, header.number);
      assert hash(header) in h2n && h2n[hash(header)] == header.number;
      assert hash(header) != hash(start);
    }
  }

  /** The walk back from `start` stands at `header`, with the entries above it queued. */
  ghost predicate WalkedTo(hash: HashOf, t: Tables, ops: seq<DbOp>, ops': seq<DbOp>, start: Header, header: Header) {
    && header.number <= start.number && Ancestor(t, start, header.number) == Some(header)
    && Rebuilt(hash, t, ops, ops', start, header.number)
  }

  lemma {:induction false} WalkStep(hash: HashOf, t: Tables, ops: seq<DbOp>, ops': seq<DbOp>, start: Header,
                                    header: Header, c: nat)
    requires Injective(hash) && StoreOk(hash, t) && Apply(t, ops).hashToNumber == t.hashToNumber
    requires ForkPoint(hash, t, start, c) && c <= header.number && WalkedTo(hash, t, ops, ops', start, header)
    requires header.number !in t.numberToHash || t.numberToHash[header.number] != hash(header)
    ensures c < header.number
    ensures var p := t.GetHeaderAt(header.parentHash, header.number - 1);
            && p.Some? && p.value.number == header.number - 1
            && WalkedTo(hash, t, ops,
                        ops' + [SetNumberToHash(header.number, hash(header)),
                                SetHashToNumber(hash(header), header.number)],
                        start, p.value)
  {
    assert !Agree(hash, t, start, header.number);
    ParentStep(hash, t, start, header, c);
    RebuildStep(hash, t, ops, ops', start, header);
  }

  /** Where the walk meets the canonical chain, it is at the fork point. */
  lemma {:induction false} WalkEnd(hash: HashOf, t: Tables, ops: seq<DbOp>, ops': seq<DbOp>, start: Header,
                                   header: Header, c: nat)
    requires ForkPoint(hash, t, start, c) && c <= header.number && WalkedTo(hash, t, ops, ops', start, header)
    requires header.number in t.numberToHash && t.numberToHash[header.number] == hash(header)
    ensures header.number == c && hash(header) == AncestorHash(hash, t, start, c)
  {
    assert Agree(hash, t, start, header.number);
  }

  /** Above a stored ancestor, the parent is stored and is the next ancestor. */
  lemma {:induction false} ParentStep(hash: HashOf, t: Tables, start: Header, header: Header, c: nat)
    requires StoreOk(hash, t) && c < header.number <= start.number
    requires Ancestor(t, start, header.number) == Some(header) && Ancestor(t, start, c).Some?
    ensures var p := t.GetHeaderAt(header.parentHash, header.number - 1);
            p.Some? && p.value.number == header.number - 1 && Ancestor(t, start, header.number - 1) == p
  {
    AncestorAbove(hash, t, start, header.number - 1, c);
    AncestorStep(hash, t, start, header.number - 1);
  }

  /** The chain rewritten: the canonical entries up to `c`, then the new header's parent chain. */
  ghost predicate Rewritten(hash: HashOf, t: Tables, header: Header, c: nat, n2h: map<nat, Hash>) {
    && (forall m: nat :: m in n2h <==> m <= header.number)
    && (forall m: nat | m <= c :: m in n2h && m in t.numberToHash && n2h[m] == t.numberToHash[m])
    && (forall m: nat | c < m <= header.number ::
          m in n2h && Ancestor(t, header, m).Some? && n2h[m] == hash(Ancestor(t, header, m).value))
  }

  ghost predicate NoneAbove(hash: HashOf, t: Tables, header: Header, c: nat) {
    forall m: nat | c < m <= header.number :: !Agree(hash, t, header, m)
  }

  ghost predicate NoneUpTo(hash: HashOf, t: Tables, header: Header, c: nat) {
    forall m: nat | m <= c :: !Agree(hash, t, header, m)
  }

  lemma {:induction false} NoneBelow(hash: HashOf, t: Tables, header: Header, c: nat)
    requires StoreOk(hash, t) && c <= header.number && Ancestor(t, header, c).None?
    ensures NoneUpTo(hash, t, header, c)
  {
    forall m: nat | m <= c
      ensures !Agree(hash, t, header, m)
    {
      AncestorMissing(hash, t, header, c, m);
    }
  }

  /** One step down both chains, from a number at which they differ. */
  lemma {:induction false} TogetherStep(hash: HashOf, t: Tables, newHeader: Header, canonical: Header, cur: Header)
    requires StoreOk(hash, t) && 0 < cur.number == canonical.number <= newHeader.number
    requires Ancestor(t, newHeader, cur.number) == Some(cur) && t.GetCanonicalHeader(cur.number) == Some(canonical)
    requires hash(canonical) != hash(cur) && NoneAbove(hash, t, newHeader, cur.number)
    ensures NoneAbove(hash, t, newHeader, cur.number - 1)
    ensures Ancestor(t, newHeader, cur.number - 1) == t.GetHeaderAt(cur.parentHash, cur.number - 1)
  {
    assert !Agree(hash, t, newHeader, cur.number);
    AncestorStep(hash, t, newHeader, cur.number - 1);
  }

  /** The highest number at which the header's parent chain and the canonical chain agree. */
  ghost predicate ForkPoint(hash: HashOf, t: Tables, header: Header, c: nat) {
    c <= header.number && Agree(hash, t, header, c) && NoneAbove(hash, t, header, c)
  }

  /** What stands behind an entry of the rewritten chain. */
  lemma {:induction false} RewrittenEntry(hash: HashOf, t: Tables, t': Tables, genesis: Header, n: nat, head: Hash,
                                          header: Header, c: nat, i: nat)
    requires Injective(hash) && StoreOk(hash, t) && Canonical(hash, t, genesis, n, head)
    requires Agree(hash, t, header, c) && Rewritten(hash, t, header, c, t'.numberToHash) && i <= header.number
    requires t'.headers == t.headers[(header.number, hash(header)) := header]
    ensures t'.GetCanonicalHeader(i) == if c <= i then Ancestor(t, header, i) else t.GetCanonicalHeader(i)
    ensures t'.GetCanonicalHeader(i).Some?
  {
    AncestorNumber(t, header, c);
    if c <= i < header.number {
      AncestorStep(hash, t, header, i);
    } else if i < c {
      assert t.GetCanonicalHeader(i).Some?;
    }
  }

  lemma {:induction false} RewrittenHash(hash: HashOf, t: Tables, header: Header, c: nat, n2h: map<nat, Hash>, i: nat)
    requires Agree(hash, t, header, c) && Rewritten(hash, t, header, c, n2h) && c <= i <= header.number
    ensures i in n2h && Ancestor(t, header, i).Some? && n2h[i] == hash(Ancestor(t, header, i).value)
  {
  }

  lemma {:induction false} ParentHash(hash: HashOf, t: Tables, header: Header, i: nat)
    requires StoreOk(hash, t) && 0 < i <= header.number && Ancestor(t, header, i).Some?
    requires Ancestor(t, header, i - 1).Some?
    ensures Ancestor(t, header, i).value.parentHash == hash(Ancestor(t, header, i - 1).value)
  {
    AncestorStep(hash, t, header, i - 1);
  }

  lemma {:induction false} RewrittenLink(hash: HashOf, t: Tables, t': Tables, genesis: Header, n: nat, head: Hash,
                                         header: Header, c: nat, i: nat)
    requires Injective(hash) && StoreOk(hash, t) && Canonical(hash, t, genesis, n, head)
    requires Agree(hash, t, header, c) && Rewritten(hash, t, header, c, t'.numberToHash)
    requires t'.headers == t.headers[(header.number, hash(header)) := header] && 0 < i <= header.number
    ensures t'.GetCanonicalHeader(i).Some? && t'.GetCanonicalHeader(i).value.parentHash == t'.numberToHash[i - 1]
  {
    RewrittenEntry(hash, t, t', genesis, n, head, header, c, i);
    if c < i {
      RewrittenHash(hash, t, header, c, t'.numberToHash, i);
      RewrittenHash(hash, t, header, c, t'.numberToHash, i - 1);
      ParentHash(hash, t, header, i);
    } else {
      AncestorNumber(t, header, c);
      assert t.GetCanonicalHeader(i).Some?;
      if c == i {
        assert Ancestor(t, header, i) == t.GetCanonicalHeader(i);
      }
    }
  }

  /** Storing a header and rewriting the chain up to it gives a canonical chain again. */
  lemma {:induction false} RewrittenCanonical(hash: HashOf, t: Tables, t': Tables, genesis: Header, n: nat, head: Hash,
                                              header: Header, c: nat)
    requires Injective(hash) && StoreOk(hash, t) && Canonical(hash, t, genesis, n, head)
    requires Agree(hash, t, header, c) && Rewritten(hash, t, header, c, t'.numberToHash)
    requires t'.headers == t.headers[(header.number, hash(header)) := header]
    ensures Canonical(hash, t', genesis, header.number, hash(header))
  {
    AncestorNumber(t, header, c);
    forall i: nat | i <= header.number
      ensures t'.GetCanonicalHeader(i).Some?
    {
      RewrittenEntry(hash, t, t', genesis, n, head, header, c, i);
    }
    forall i: nat | 0 < i <= header.number
      ensures t'.GetCanonicalHeader(i).value.parentHash == t'.numberToHash[i - 1]
    {
      RewrittenLink(hash, t, t', genesis, n, head, header, c, i);
    }
    assert Ancestor(t, header, header.number) == Some(header);
  }

  /** What every successful put stores. */
  ghost predicate StoredIn(hash: HashOf, t: Tables, t': Tables, item: Header, td: nat, isBlock: bool) {
    var h := hash(item);
    && t'.headers == t.headers[(item.number, h) := item]
    && t'.bodies == t.bodies + (if isBlock then {(item.number, h)} else {})
    && t'.td == t.td[(item.number, h) := td]
    && t'.hashToNumber == t.hashToNumber[h := item.number]
  }

  /** What every step keeps: a canonical chain up to the head header, with all iterator heads on it. */
  ghost predicate ValidState(hash: HashOf, genesis: Header, t: Tables, hs: HeadSet) {
    && Injective(hash) && genesis.number == 0
    && StoreOk(hash, t) && t.td.Keys == t.headers.Keys
    && hs.header in t.hashToNumber
    && Canonical(hash, t, genesis, t.hashToNumber[hs.header], hs.header)
    && forall name | name in hs.iterators :: IsCanonical(t, hs.iterators[name])
  }

  /** A parent found by its hash, with the number before, is stored. */
  lemma {:induction false} FitsStored(hash: HashOf, t: Tables, item: Header)
    requires StoreOk(hash, t)
    ensures var parent := t.GetHeader(item.parentHash);
            parent.Some? && item.number == parent.value.number + 1 ==> ParentStored(t, item)
  {
  }

  lemma {:induction false} HeadStored(hash: HashOf, genesis: Header, t: Tables, hs: HeadSet)
    requires ValidState(hash, genesis, t, hs)
    ensures var n := t.hashToNumber[hs.header];
            t.GetHeader(hs.header).Some? && (n, hs.header) in t.headers && t.GetHeader(hs.header).value.number == n
  {
  }

  lemma {:induction false} CanonicalIndexed(hash: HashOf, t: Tables, genesis: Header, n: nat, head: Hash, h: Hash)
    requires StoreOk(hash, t) && Canonical(hash, t, genesis, n, head) && IsCanonical(t, h)
    ensures h in t.hashToNumber && t.hashToNumber[h] <= n && t.numberToHash[t.hashToNumber[h]] == h
  {
    var i: nat :| i in t.numberToHash && t.numberToHash[i] == h;
    assert t.GetCanonicalHeader(i).Some?;
  }

  ghost function CutTables(t: Tables, k: nat, keys: set<Key>): Tables {
    Removed(t, keys).(numberToHash := Below(t.numberToHash, k))
  }

  /** The chain 0..n cut before number `k`, the blocks of the given keys gone, and every head cut off moved. */
  ghost predicate CutAt(t: Tables, hs: HeadSet, t': Tables, hs': HeadSet, k: nat, n: nat, keys: set<Key>, to: Hash) {
    && t' == CutTables(t, k, keys)
    && hs' == MoveAll(t, k, n + 1, to, hs)
  }

  /** A side block goes alone; a canonical one with all above it, and heads on those move to its parent. */
  ghost predicate BlockDeleted(t: Tables, hs: HeadSet, t': Tables, hs': HeadSet, h: Hash) {
    && h in t.hashToNumber && hs.header in t.hashToNumber
    && var k, n := t.hashToNumber[h], t.hashToNumber[hs.header];
       if IsCanonical(t, h) then
         && k <= n && t.GetHeaderAt(h, k).Some?
         && CutAt(t, hs, t', hs', k, n, CanonicalKeys(t, k, n + 1), t.GetHeaderAt(h, k).value.parentHash)
       else t' == Removed(t, {(k, h)}) && hs' == hs
  }

  /** A deletion takes the block with this key along: the block itself, or one above it on its canonical chain. */
  ghost predicate Gone(t: Tables, h: Hash, k: Key) {
    && h in t.hashToNumber
    && if IsCanonical(t, h) then k.0 >= t.hashToNumber[h] && k.0 in t.numberToHash && t.numberToHash[k.0] == k.1
       else k == (t.hashToNumber[h], h)
  }

  /** Of a block that is gone no header, body, total difficulty or number is left; all others keep theirs. */
  lemma {:induction false} WhatIsGone(hash: HashOf, genesis: Header, t: Tables, hs: HeadSet, t': Tables, hs': HeadSet,
                                      h: Hash, k: Key)
    requires ValidState(hash, genesis, t, hs) && BlockDeleted(t, hs, t', hs', h)
    ensures Gone(t, h, (t.hashToNumber[h], h))
    ensures k in t'.headers <==> k in t.headers && !Gone(t, h, k)
    ensures k in t'.bodies <==> k in t.bodies && !Gone(t, h, k)
    ensures k in t'.td <==> k in t.td && !Gone(t, h, k)
    ensures k in t.headers ==> (k.1 in t'.hashToNumber <==> !Gone(t, h, k))
    ensures k in t'.headers ==> t'.headers[k] == t.headers[k] && k in t'.td && t'.td[k] == t.td[k]
    ensures k in t'.headers ==> k.1 in t'.hashToNumber && t'.hashToNumber[k.1] == t.hashToNumber[k.1]
  {
    var n := t.hashToNumber[hs.header];
    CanonicalHash(hash, t, genesis, n, hs.header, h);
    if IsCanonical(t, h) {
      var keys := CanonicalKeys(t, t.hashToNumber[h], n + 1);
      assert forall x :: x in keys <==> Gone(t, h, x);
      GoneHashes(hash, genesis, t, hs, keys, k);
    } else {
      assert (set x | x in {(t.hashToNumber[h], h)} :: x.1) == {h};
    }
  }

  /** Hashes are indexed under one number, so a hash goes with its block alone. */
  lemma {:induction false} GoneHashes(hash: HashOf, genesis: Header, t: Tables, hs: HeadSet, keys: set<Key>, k: Key)
    requires ValidState(hash, genesis, t, hs) && keys <= CanonicalKeys(t, 0, t.hashToNumber[hs.header] + 1)
    ensures k in t.headers ==> (k.1 in (set x | x in keys :: x.1) <==> k in keys)
  {
    KeysStored(hash, t, genesis, t.hashToNumber[hs.header], hs.header, 0);
  }

  lemma {:induction false} NothingRemoved(t: Tables)
    ensures Removed(t, {}) == t
  {
    var none: set<Key> := {};
    assert (set k | k in none :: k.1) == {};
  }

  function StoreOps(hash: HashOf, item: Header, td: nat, isBlock: bool): seq<DbOp> {
    [SetTD(hash(item), item.number, td), SetHeader(item, hash(item))]
      + if isBlock then [SetBody(hash(item), item.number)] else []
  }

  lemma {:induction false} StoreOpsDo(hash: HashOf, t: Tables, item: Header, td: nat, isBlock: bool)
    ensures Apply(t, StoreOps(hash, item, td, isBlock))
            == t.(headers := t.headers[(item.number, hash(item)) := item],
                  bodies := t.bodies + (if isBlock then {(item.number, hash(item))} else {}),
                  td := t.td[(item.number, hash(item)) := td])
  {
    var o1, o2, o3 := SetTD(hash(item), item.number, td), SetHeader(item, hash(item)), SetBody(hash(item), item.number);
    ApplySnoc(t, [], o1);
    ApplySnoc(t, [o1], o2);
    ApplySnoc(t, [o1, o2], o3);
    assert [] + [o1] == [o1] && [o1] + [o2] == [o1, o2] && [o1, o2] + [] == [o1, o2];
  }

  /** The heads with a new head header, which for a block is the head block too. */
  function MovedTo(hs: HeadSet, h: Hash, isBlock: bool): HeadSet {
    HeadSet(hs.iterators, h, if isBlock then h else hs.block)
  }

  /** The heads after a reorganisation: above the new head to it, from the fork point up to the fork point. */
  ghost function Reorged(hash: HashOf, t: Tables, item: Header, c: nat, n: nat, isBlock: bool, hs: HeadSet): HeadSet {
    var h := hash(item);
    var above := MoveAll(t, item.number + 1, n + 1, h, MovedTo(hs, h, isBlock));
    MoveAll(t, c + 1, item.number + 1, AncestorHash(hash, t, item, c), above).(header := h)
  }

  lemma {:induction false} ReorgedIs(hash: HashOf, t: Tables, item: Header, c: nat, n: nat, isBlock: bool, hs: HeadSet,
                                     above: HeadSet, hs': HeadSet)
    requires above == MoveAll(t, item.number + 1, n + 1, hash(item), MovedTo(hs, hash(item), isBlock))
    requires hs' == MoveAll(t, c + 1, item.number + 1, AncestorHash(hash, t, item, c), above).(header := hash(item))
    ensures hs' == Reorged(hash, t, item, c, n, isBlock, hs)
  {
  }

  lemma {:induction false} ReorgedTables(hash: HashOf, t: Tables, cut: Tables, t': Tables, item: Header, td: nat,
                                         isBlock: bool, c: nat)
    requires cut == Apply(t, StoreOps(hash, item, td, isBlock)).(numberToHash := Below(t.numberToHash, item.number + 1))
    requires t' == Rewrite(hash, t, cut, item, c)
    ensures t' == Apply(t, StoreOps(hash, item, td, isBlock)).(
              numberToHash := Overlay(hash, t, item, c, Below(t.numberToHash, item.number + 1)),
              hashToNumber := if c < item.number then t.hashToNumber[hash(item) := item.number] else t.hashToNumber)
  {
    StoreOpsDo(hash, t, item, td, isBlock);
  }

  lemma {:induction false} OverlayRewritten(hash: HashOf, t: Tables, item: Header, c: nat)
    requires StoreOk(hash, t) && c <= item.number && Agree(hash, t, item, c)
    requires forall i: nat | i <= c :: i in t.numberToHash
    ensures Rewritten(hash, t, item, c, Overlay(hash, t, item, c, Below(t.numberToHash, item.number + 1)))
  {
    var below := Below(t.numberToHash, item.number + 1);
    var n2h := Overlay(hash, t, item, c, below);
    forall m: nat
      ensures m in n2h <==> m <= item.number
      ensures m <= c ==> n2h[m] == t.numberToHash[m]
      ensures c < m <= item.number ==> Ancestor(t, item, m).Some? && n2h[m] == hash(Ancestor(t, item, m).value)
    {
      OverlayAt(hash, t, item, c, below, m);
      if c < m <= item.number {
        AncestorAbove(hash, t, item, m, c);
      }
    }
  }

  /** Every head a reorganisation moves lands on the new canonical chain. */
  lemma {:induction false} ReorgedCanonical(hash: HashOf, t: Tables, t': Tables, item: Header, c: nat, n: nat, h: Hash)
    requires UpTo(t.numberToHash, n) && c <= item.number && Agree(hash, t, item, c)
    requires Rewritten(hash, t, item, c, t'.numberToHash) && IsCanonical(t, h)
    ensures IsCanonical(t', Redirect(t, c + 1, item.number + 1, AncestorHash(hash, t, item, c),
                                     Redirect(t, item.number + 1, n + 1, hash(item), h)))
  {
    var i: nat :| i in t.numberToHash && t.numberToHash[i] == h;
    RewrittenHash(hash, t, item, c, t'.numberToHash, item.number);
    assert t'.numberToHash[item.number] == hash(item);
    assert t'.numberToHash[c] == AncestorHash(hash, t, item, c);
    if i <= c {
      assert t'.numberToHash[i] == h;
    } else if i <= item.number {
      assert StaleIn(t, c + 1, item.number + 1, h);
    } else {
      assert StaleIn(t, item.number + 1, n + 1, h);
    }
  }

  /** Which canonical entries are stale: they stand in one place only. */
  lemma {:induction false} StaleAt(hash: HashOf, t: Tables, genesis: Header, n: nat, head: Hash, lo: nat, hi: nat,
                                   m: nat)
    requires StoreOk(hash, t) && Canonical(hash, t, genesis, n, head) && m <= n
    ensures StaleIn(t, lo, hi, t.numberToHash[m]) <==> lo <= m < hi
  {
    forall i: nat | i <= n && t.numberToHash[i] == t.numberToHash[m]
      ensures i == m
    {
      assert t.GetCanonicalHeader(i).Some? && t.GetCanonicalHeader(m).Some?;
    }
  }

  /** The item itself is not an entry above the fork point. */
  lemma {:induction false} ItemNotStale(hash: HashOf, t: Tables, genesis: Header, n: nat, head: Hash, item: Header,
                                        c: nat)
    requires Injective(hash) && StoreOk(hash, t) && Canonical(hash, t, genesis, n, head) && ForkPoint(hash, t, item, c)
    ensures !StaleIn(t, c + 1, item.number + 1, hash(item))
  {
    forall i: nat | c < i <= item.number && i <= n
      ensures t.numberToHash[i] != hash(item)
    {
      assert t.GetCanonicalHeader(i).Some?;
      assert !Agree(hash, t, item, i);
    }
  }

  /**
   * Where a reorganisation takes an iterator head: to the fork point if it stands above it, but to the new
   * block if it stands above that.
   */
  lemma {:induction false} ReorgedHead(hash: HashOf, t: Tables, genesis: Header, n: nat, head: Hash, item: Header,
                                       c: nat, isBlock: bool, hs: HeadSet, name: string, m: nat)
    requires Injective(hash) && StoreOk(hash, t) && Canonical(hash, t, genesis, n, head) && ForkPoint(hash, t, item, c)
    requires name in hs.iterators && m <= n && hs.iterators[name] == t.numberToHash[m]
    ensures Reorged(hash, t, item, c, n, isBlock, hs).iterators[name]
            == if m > item.number then hash(item) else if m > c then t.numberToHash[c] else t.numberToHash[m]
  {
    StaleAt(hash, t, genesis, n, head, item.number + 1, n + 1, m);
    StaleAt(hash, t, genesis, n, head, c + 1, item.number + 1, m);
    ItemNotStale(hash, t, genesis, n, head, item, c);
  }

  /**
   * Where it takes the heads kept in memory: the head header to the item, and so the head block when the item is a
   * block; under a new header alone the head block goes where an iterator head would, or stays off the chain.
   */
  lemma {:induction false} ReorgedBlock(hash: HashOf, t: Tables, genesis: Header, n: nat, head: Hash, item: Header,
                                        c: nat, isBlock: bool, hs: HeadSet)
    requires Injective(hash) && StoreOk(hash, t) && Canonical(hash, t, genesis, n, head) && ForkPoint(hash, t, item, c)
    ensures var hs' := Reorged(hash, t, item, c, n, isBlock, hs);
            && hs'.header == hash(item) && hs'.iterators.Keys == hs.iterators.Keys
            && (isBlock ==> hs'.block == hash(item))
            && (!isBlock && !IsCanonical(t, hs.block) ==> hs'.block == hs.block)
            && (forall m: nat | !isBlock && m <= n && hs.block == t.numberToHash[m] ::
                  hs'.block == if m > item.number then hash(item) else if m > c then t.numberToHash[c] else hs.block)
  {
    ItemNotStale(hash, t, genesis, n, head, item, c);
    forall m: nat | !isBlock && m <= n && hs.block == t.numberToHash[m]
      ensures Reorged(hash, t, item, c, n, isBlock, hs).block
              == if m > item.number then hash(item) else if m > c then t.numberToHash[c] else hs.block
    {
      StaleAt(hash, t, genesis, n, head, item.number + 1, n + 1, m);
      StaleAt(hash, t, genesis, n, head, c + 1, item.number + 1, m);
    }
  }

  /** What cutting the chain does: the entries below stay, and heads on those cut off move, while all others stay. */
  lemma {:induction false} CutMeans(hash: HashOf, genesis: Header, t: Tables, hs: HeadSet, t': Tables, hs': HeadSet,
                                    k: nat, keys: set<Key>, to: Hash)
    requires ValidState(hash, genesis, t, hs) && k <= t.hashToNumber[hs.header] + 1
    requires CutAt(t, hs, t', hs', k, t.hashToNumber[hs.header], keys, to)
    ensures forall m: nat :: m in t'.numberToHash <==> m < k
    ensures forall m: nat | m < k :: m in t.numberToHash && t'.numberToHash[m] == t.numberToHash[m]
    ensures hs'.iterators.Keys == hs.iterators.Keys
    ensures forall name, m: nat | name in hs.iterators && m <= t.hashToNumber[hs.header]
              && hs.iterators[name] == t.numberToHash[m] ::
              hs'.iterators[name] == if m >= k then to else t.numberToHash[m]
    ensures hs'.header == if k <= t.hashToNumber[hs.header] then to else hs.header
    ensures forall m: nat | m <= t.hashToNumber[hs.header] && hs.block == t.numberToHash[m] ::
              hs'.block == if m >= k then to else hs.block
    ensures !IsCanonical(t, hs.block) ==> hs'.block == hs.block
    ensures keys == {} ==>
              t'.headers == t.headers && t'.bodies == t.bodies && t'.td == t.td && t'.hashToNumber == t.hashToNumber
  {
    var n := t.hashToNumber[hs.header];
    forall m: nat | m <= n
      ensures StaleIn(t, k, n + 1, t.numberToHash[m]) <==> k <= m
    {
      StaleAt(hash, t, genesis, n, hs.header, k, n + 1, m);
    }
    if keys == {} {
      NothingRemoved(t);
    }
  }

  lemma {:induction false} CanonicalUpTo(hash: HashOf, t: Tables, genesis: Header, n: nat, head: Hash)
    requires Canonical(hash, t, genesis, n, head)
    ensures UpTo(t.numberToHash, n)
  {
  }

  /** A reorganisation, applied as one batch, leaves a canonical chain with all heads on it. */
  lemma {:induction false} ReorganiseOk(hash: HashOf, t: Tables, t': Tables, genesis: Header, n: nat, hs: HeadSet,
                                        item: Header, td: nat, isBlock: bool, c: nat)
    requires ValidState(hash, genesis, t, hs) && n == t.hashToNumber[hs.header]
    requires item.number > 0 && ForkPoint(hash, t, item, c)
    requires t' == Apply(t, StoreOps(hash, item, td, isBlock)).(
               numberToHash := Overlay(hash, t, item, c, Below(t.numberToHash, item.number + 1)),
               hashToNumber := if c < item.number then t.hashToNumber[hash(item) := item.number] else t.hashToNumber)
    ensures Rewritten(hash, t, item, c, t'.numberToHash)
    ensures StoredIn(hash, t, t', item, td, isBlock)
    ensures ValidState(hash, genesis, t', Reorged(hash, t, item, c, n, isBlock, hs))
  {
    StoreOpsDo(hash, t, item, td, isBlock);
    CanonicalUpTo(hash, t, genesis, n, hs.header);
    OverlayRewritten(hash, t, item, c);
    if c == item.number {
      assert t.GetCanonicalHeader(c).Some?;
    }
    ReorgedValid(hash, t, t', genesis, n, hs, item, td, isBlock, c);
  }

  lemma {:induction false} ReorgedValid(hash: HashOf, t: Tables, t': Tables, genesis: Header, n: nat, hs: HeadSet,
                                        item: Header, td: nat, isBlock: bool, c: nat)
    requires ValidState(hash, genesis, t, hs) && n == t.hashToNumber[hs.header] && ForkPoint(hash, t, item, c)
    requires StoredIn(hash, t, t', item, td, isBlock) && Rewritten(hash, t, item, c, t'.numberToHash)
    ensures ValidState(hash, genesis, t', Reorged(hash, t, item, c, n, isBlock, hs))
  {
    CanonicalUpTo(hash, t, genesis, n, hs.header);
    StorePut(hash, t, t', item);
    RewrittenCanonical(hash, t, t', genesis, n, hs.header, item, c);
    ReorgedHeads(hash, t, t', item, c, n, isBlock, hs);
  }

  lemma {:induction false} ReorgedHeads(hash: HashOf, t: Tables, t': Tables, item: Header, c: nat, n: nat,
                                        isBlock: bool, hs: HeadSet)
    requires UpTo(t.numberToHash, n) && c <= item.number && Agree(hash, t, item, c)
    requires Rewritten(hash, t, item, c, t'.numberToHash)
    requires forall name | name in hs.iterators :: IsCanonical(t, hs.iterators[name])
    ensures var hs' := Reorged(hash, t, item, c, n, isBlock, hs).iterators;
            forall name | name in hs' :: IsCanonical(t', hs'[name])
  {
    forall name | name in hs.iterators
      ensures IsCanonical(t', Reorged(hash, t, item, c, n, isBlock, hs).iterators[name])
    {
      ReorgedCanonical(hash, t, t', item, c, n, hs.iterators[name]);
    }
  }

  lemma {:induction false} StoreOnlyOk(hash: HashOf, t: Tables, t': Tables, genesis: Header, n: nat, hs: HeadSet,
                                       item: Header)
    requires ValidState(hash, genesis, t, hs) && n == t.hashToNumber[hs.header]
    requires t'.headers == t.headers[(item.number, hash(item)) := item]
    requires t'.td.Keys == t.td.Keys + {(item.number, hash(item))}
    requires t'.hashToNumber == t.hashToNumber[hash(item) := item.number] && t'.numberToHash == t.numberToHash
    ensures ValidState(hash, genesis, t', hs)
  {
    StorePut(hash, t, t', item);
    SameChain(hash, t, t', genesis, n, hs.header);
    HeadIndexed(hash, t', genesis, n, hs.header);
    SameIterators(t, t', hs);
  }

  /** A canonical chain is one in all tables that have its headers and entries. */
  lemma {:induction false} SameChain(hash: HashOf, t: Tables, t': Tables, genesis: Header, n: nat, head: Hash)
    requires Canonical(hash, t, genesis, n, head) && t'.numberToHash == t.numberToHash
    requires StoreOk(hash, t) && StoreOk(hash, t') && Injective(hash) && forall k | k in t.headers :: k in t'.headers
    ensures Canonical(hash, t', genesis, n, head)
  {
    forall i: nat | i <= n
      ensures t.GetCanonicalHeader(i).Some? && t'.GetCanonicalHeader(i) == t.GetCanonicalHeader(i)
    {
      assert t.GetCanonicalHeader(i).Some?;
    }
  }

  /** The head of a canonical chain is indexed under its number. */
  lemma {:induction false} HeadIndexed(hash: HashOf, t: Tables, genesis: Header, n: nat, head: Hash)
    requires StoreOk(hash, t) && Canonical(hash, t, genesis, n, head)
    ensures head in t.hashToNumber && t.hashToNumber[head] == n
  {
    assert t.GetCanonicalHeader(n).Some?;
  }

  // ----- cutting the chain ------------------------------------------------------------------------

  /** The tables without the blocks of the given keys. */
  ghost function Removed(t: Tables, keys: set<Key>): Tables {
    t.(headers := t.headers - keys, bodies := t.bodies - keys, td := t.td - keys,
       hashToNumber := t.hashToNumber - (set k | k in keys :: k.1))
  }

  ghost function CanonicalKeys(t: Tables, lo: nat, hi: nat): set<Key> {
    set m | m in t.numberToHash && lo <= m < hi :: (m, t.numberToHash[m])
  }

  lemma {:induction false} ParentEntry(hash: HashOf, t: Tables, genesis: Header, n: nat, head: Hash, number: nat)
    requires Canonical(hash, t, genesis, n, head) && number <= n && t.numberToHash[number] != hash(genesis)
    ensures number > 0
    ensures t.GetCanonicalHeader(number).Some?
    ensures t.GetCanonicalHeader(number).value.parentHash == t.numberToHash[number - 1]
  {
  }

  lemma {:induction false} KeysStored(hash: HashOf, t: Tables, genesis: Header, n: nat, head: Hash, lo: nat)
    requires Canonical(hash, t, genesis, n, head)
    ensures forall x | x in CanonicalKeys(t, lo, n + 1) :: x in t.headers && x.0 >= lo
  {
    forall x | x in CanonicalKeys(t, lo, n + 1)
      ensures x in t.headers && x.0 >= lo
    {
      assert t.GetCanonicalHeader(x.0).Some?;
    }
  }

  lemma {:induction false} RemoveFirst(t: Tables, base: Tables, k: nat, n: nat)
    requires UpTo(t.numberToHash, n) && k <= n
    ensures Removed(ApplyOne(base, DelBlock(t.numberToHash[k], k)), CanonicalKeys(t, k + 1, n + 1))
            == Removed(base, CanonicalKeys(t, k, n + 1))
  {
    var first, rest := (k, t.numberToHash[k]), CanonicalKeys(t, k + 1, n + 1);
    var all := CanonicalKeys(t, k, n + 1);
    assert all == {first} + rest;
    assert (set x | x in all :: x.1) == {first.1} + (set x | x in rest :: x.1);
  }

  lemma {:induction false} MoveFirst(t: Tables, k: nat, n: nat, to: Hash, hs: HeadSet, moved: HeadSet)
    requires UpTo(t.numberToHash, n) && k <= n
    requires moved == Move(t.numberToHash[k], to, hs).(iterators := hs.iterators)
    ensures Redirect(t, k + 1, n + 1, to, moved.header) == Redirect(t, k, n + 1, to, hs.header)
    ensures Redirect(t, k + 1, n + 1, to, moved.block) == Redirect(t, k, n + 1, to, hs.block)
  {
    StaleStep(t, k, n + 1, hs.iterators, hs.header);
    StaleStep(t, k, n + 1, hs.iterators, hs.block);
  }

  lemma {:induction false} NothingAbove(t: Tables, base: Tables, n: nat, to: Hash, hs: HeadSet)
    ensures Removed(base, CanonicalKeys(t, n + 1, n + 1)) == base
    ensures Redirect(t, n + 1, n + 1, to, hs.header) == hs.header && Redirect(t, n + 1, n + 1, to, hs.block) == hs.block
  {
    assert CanonicalKeys(t, n + 1, n + 1) == {};
    NothingRemoved(base);
  }

  lemma {:induction false} MoveTwice(t: Tables, lo: nat, n: nat, to: Hash, hs: HeadSet)
    ensures MoveAll(t, lo, n + 1, to, MoveAll(t, lo, n + 1, to, hs).(iterators := hs.iterators))
              == MoveAll(t, lo, n + 1, to, hs)
  {
  }

  lemma {:induction false} CanonicalHash(hash: HashOf, t: Tables, genesis: Header, n: nat, head: Hash, h: Hash)
    requires StoreOk(hash, t) && Canonical(hash, t, genesis, n, head) && h in t.hashToNumber
    ensures IsCanonical(t, h) <==> t.hashToNumber[h] in t.numberToHash && t.numberToHash[t.hashToNumber[h]] == h
  {
    if IsCanonical(t, h) {
      var i: nat :| i in t.numberToHash && t.numberToHash[i] == h;
      assert t.GetCanonicalHeader(i).Some?;
    }
  }

  /** Cutting the chain before number `k`, and deleting only blocks from there on, keeps the state valid. */
  lemma {:induction false} TruncateOk(hash: HashOf, genesis: Header, t: Tables, t': Tables, hs: HeadSet, hs': HeadSet,
                                      k: nat, n: nat, keys: set<Key>, to: Hash)
    requires ValidState(hash, genesis, t, hs) && n == t.hashToNumber[hs.header]
    requires k > 0 && k - 1 in t.numberToHash && to == t.numberToHash[k - 1] && CutAt(t, hs, t', hs', k, n, keys, to)
    requires forall x | x in keys :: x in t.headers && x.0 >= k
    ensures ValidState(hash, genesis, t', hs')
  {
    RemoveKeepsStore(hash, t, t', keys);
    TruncateChain(hash, genesis, t, t', hs, k, n, keys);
    HeadIndexed(hash, t', genesis, k - 1, to);
    CanonicalUpTo(hash, t, genesis, n, hs.header);
    TruncatedHead(t, k, n, hs);
    TruncateHeads(t, t', k, n, to, hs);
  }

  lemma {:induction false} TruncatedHead(t: Tables, k: nat, n: nat, hs: HeadSet)
    requires UpTo(t.numberToHash, n) && k > 0 && k - 1 in t.numberToHash && t.numberToHash[n] == hs.header
    ensures Redirect(t, k, n + 1, t.numberToHash[k - 1], hs.header) == t.numberToHash[k - 1]
  {
    assert StaleIn(t, k, n + 1, hs.header) || k == n + 1;
  }

  lemma {:induction false} TruncateChain(hash: HashOf, genesis: Header, t: Tables, t': Tables, hs: HeadSet, k: nat,
                                         n: nat, keys: set<Key>)
    requires Canonical(hash, t, genesis, n, hs.header) && k > 0 && k - 1 in t.numberToHash
    requires t' == CutTables(t, k, keys)
    requires forall x | x in keys :: x in t.headers && x.0 >= k
    ensures Canonical(hash, t', genesis, k - 1, t.numberToHash[k - 1])
  {
    forall i: nat | i < k
      ensures t.GetCanonicalHeader(i).Some? && t'.GetCanonicalHeader(i) == t.GetCanonicalHeader(i)
    {
      assert t.GetCanonicalHeader(i).Some?;
    }
  }

  lemma {:induction false} TruncateHeads(t: Tables, t': Tables, k: nat, n: nat, to: Hash, hs: HeadSet)
    requires UpTo(t.numberToHash, n) && k > 0 && k - 1 in t.numberToHash && to == t.numberToHash[k - 1]
    requires t'.numberToHash == Below(t.numberToHash, k)
    requires forall name | name in hs.iterators :: IsCanonical(t, hs.iterators[name])
    ensures forall name | name in hs.iterators :: IsCanonical(t', Redirect(t, k, n + 1, to, hs.iterators[name]))
  {
    forall name | name in hs.iterators
      ensures IsCanonical(t', Redirect(t, k, n + 1, to, hs.iterators[name]))
    {
      var i: nat :| i in t.numberToHash && t.numberToHash[i] == hs.iterators[name];
      if i >= k {
        assert StaleIn(t, k, n + 1, hs.iterators[name]);
      } else {
        assert t'.numberToHash[i] == hs.iterators[name];
      }
      assert t'.numberToHash[k - 1] == to;
    }
  }

  lemma {:induction false} RemoveKeepsStore(hash: HashOf, t: Tables, t': Tables, keys: set<Key>)
    requires StoreOk(hash, t) && forall x | x in keys :: x in t.headers
    requires t'.headers == Removed(t, keys).headers && t'.hashToNumber == Removed(t, keys).hashToNumber
    ensures StoreOk(hash, t')
  {
  }

  /** Cutting the chain before a canonical block deletes it. */
  lemma {:induction false} CanonicalDeleted(t: Tables, t': Tables, hs: HeadSet, hs': HeadSet, k: nat, n: nat, h: Hash,
                                            to: Hash)
    requires t.GetHeaderAt(h, k).Some? && to == t.GetHeaderAt(h, k).value.parentHash
    requires IsCanonical(t, h) && h in t.hashToNumber && t.hashToNumber[h] == k
    requires hs.header in t.hashToNumber && n == t.hashToNumber[hs.header] && k <= n
    requires CutAt(t, hs, t', hs', k, n, CanonicalKeys(t, k, n + 1), to)
    ensures BlockDeleted(t, hs, t', hs', h)
  {
  }

  lemma {:induction false} CutBefore(hash: HashOf, genesis: Header, t: Tables, t': Tables, hs: HeadSet, hs': HeadSet,
                                     k: nat, n: nat, to: Hash)
    requires ValidState(hash, genesis, t, hs) && n == t.hashToNumber[hs.header]
    requires k <= n && t.numberToHash[k] != hash(genesis) && t.GetCanonicalHeader(k).Some?
    requires to == t.GetCanonicalHeader(k).value.parentHash
    requires CutAt(t, hs, t', hs', k, n, CanonicalKeys(t, k, n + 1), to)
    ensures ValidState(hash, genesis, t', hs')
  {
    ParentEntry(hash, t, genesis, n, hs.header, k);
    KeysStored(hash, t, genesis, n, hs.header, k);
    TruncateOk(hash, genesis, t, t', hs, hs', k, n, CanonicalKeys(t, k, n + 1), to);
  }

  /** Without the genesis block nothing is left of the chain. */
  lemma {:induction false} GenesisCut(hash: HashOf, genesis: Header, t: Tables, t': Tables, hs: HeadSet, hs': HeadSet,
                                      k: nat, n: nat, to: Hash)
    requires ValidState(hash, genesis, t, hs) && n == t.hashToNumber[hs.header] && k <= n
    requires t.numberToHash[k] == hash(genesis) && CutAt(t, hs, t', hs', k, n, CanonicalKeys(t, k, n + 1), to)
    ensures !ValidState(hash, genesis, t', hs')
  {
    assert t.GetCanonicalHeader(k).Some?;
    assert 0 !in t'.numberToHash;
  }

  /** Deleting a block off the canonical chain leaves the chain and the heads as they are. */
  lemma {:induction false} RemoveSide(hash: HashOf, genesis: Header, t: Tables, t': Tables, hs: HeadSet, key: Key)
    requires ValidState(hash, genesis, t, hs) && key in t.headers && !IsCanonical(t, key.1)
    requires t' == ApplyOne(t, DelBlock(key.1, key.0))
    ensures t' == Removed(t, {key}) && ValidState(hash, genesis, t', hs)
  {
    assert (set k | k in {key} :: k.1) == {key.1};
    RemoveKeepsStore(hash, t, t', {key});
    var n := t.hashToNumber[hs.header];
    SameCanonical(hash, t, t', genesis, n, hs.header, key);
    assert t'.GetCanonicalHeader(n).Some?;
    SameIterators(t, t', hs);
  }

  lemma {:induction false} SameCanonical(hash: HashOf, t: Tables, t': Tables, genesis: Header, n: nat, head: Hash,
                                         key: Key)
    requires Canonical(hash, t, genesis, n, head) && !IsCanonical(t, key.1)
    requires t'.headers == t.headers - {key} && t'.numberToHash == t.numberToHash
    ensures Canonical(hash, t', genesis, n, head)
  {
    forall i: nat | i <= n
      ensures t.GetCanonicalHeader(i).Some? && t'.GetCanonicalHeader(i) == t.GetCanonicalHeader(i)
    {
      assert t.GetCanonicalHeader(i).Some?;
      assert t.numberToHash[i] != key.1;
    }
  }

  lemma {:induction false} SameIterators(t: Tables, t': Tables, hs: HeadSet)
    requires t'.numberToHash == t.numberToHash
    requires forall name | name in hs.iterators :: IsCanonical(t, hs.iterators[name])
    ensures forall name | name in hs.iterators :: IsCanonical(t', hs.iterators[name])
  {
    forall name | name in hs.iterators
      ensures IsCanonical(t', hs.iterators[name])
    {
      var i: nat :| i in t.numberToHash && t.numberToHash[i] == hs.iterators[name];
      assert t'.numberToHash[i] == hs.iterators[name];
    }
  }
}
