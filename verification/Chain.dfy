/**
 * The canonical chain and its reorganisations (packages/blockchain/src/blockchain.ts). Writes are
 * queued and applied as one batch, so every walk reads the tables as they were.
 */
module Chain {
  import opened Bytes
  import opened ChainDb
  import opened ChainWork
  import opened ChainReorg
  import opened ChainIterators

  /** Every block but a genesis block is in the store, with its body. */
  ghost predicate AllStored(hash: HashOf, t: Tables, blocks: seq<Header>) {
    forall b | b in blocks && b.number > 0 :: IsStored(hash, t, b)
  }

  ghost predicate IsStored(hash: HashOf, t: Tables, b: Header) {
    var key := (b.number, hash(b));
    key in t.headers && t.headers[key] == b && key in t.bodies
  }

  /** No header or body is lost or changed. */
  ghost predicate Keeps(t: Tables, t': Tables) {
    t.bodies <= t'.bodies && forall k | k in t.headers :: k in t'.headers && t'.headers[k] == t.headers[k]
  }

  lemma {:induction false} OneMoreStored(hash: HashOf, t: Tables, t': Tables, blocks: seq<Header>, n: nat)
    requires Injective(hash) && StoreOk(hash, t) && n < |blocks| && AllStored(hash, t, blocks[..n])
    requires blocks[n].number == 0 ==> t' == t
    requires blocks[n].number > 0 ==> exists td :: StoredIn(hash, t, t', blocks[n], td, true)
    ensures AllStored(hash, t', blocks[..n + 1]) && Keeps(t, t')
  {
    assert blocks[..n + 1] == blocks[..n] + [blocks[n]];
    forall b | b in blocks[..n + 1] && b.number > 0
      ensures IsStored(hash, t', b)
    {
      if b in blocks[..n] {
        assert IsStored(hash, t, b);
      }
    }
  }

  class Blockchain {
    const hash: HashOf
    const genesis: Header
    const validateBlocks: bool

    var tables: Tables
    var heads: map<string, Hash>
    var headHeader: Hash
    var headBlock: Hash

    ghost predicate Valid()
      reads this
    {
      ValidState(hash, genesis, tables, Heads())
    }

    /** The number of the head header. */
    ghost function HeadNumber(): nat
      reads this
    {
      if headHeader in tables.hashToNumber then tables.hashToNumber[headHeader] else 0
    }

    /** The sums of difficulties are right as far as parents are stored, and none is larger than the head header's. */
    ghost predicate Weighted()
      reads this
    {
      SumsOk(tables) && Heaviest(tables, HeadNumber(), headHeader)
    }

    /** A fresh store, with the genesis block in it. */
    constructor (hash: HashOf, genesis: Header, validateBlocks: bool)
      requires Injective(hash) && genesis.number == 0
      ensures Valid() && Weighted() && Rooted(tables) && headHeader == hash(genesis) && heads == map[]
      ensures this.hash == hash && this.genesis == genesis && this.validateBlocks == validateBlocks
      ensures tables == GenesisTables(hash, genesis) && headBlock == hash(genesis)
    {
      this.hash, this.genesis, this.validateBlocks := hash, genesis, validateBlocks;
      var h := hash(genesis);
      tables := GenesisTables(hash, genesis);
      heads, headHeader, headBlock := map[], h, h;
    }

    // ----- walks ------------------------------------------------------------------------------

    /** Walks both chains down to the highest header they share; fails when they share none that is stored. */
    method FindCommonAncestor(newHeader: Header) returns (ancestor: Option<Header>)
      requires Valid()
      ensures ancestor.Some? ==>
                var c := ancestor.value.number;
                ForkPoint(hash, tables, newHeader, c) && Ancestor(tables, newHeader, c) == ancestor
      ensures ancestor.None? ==> NoneUpTo(hash, tables, newHeader, newHeader.number)
    {
      var found := tables.GetHeader(headHeader);
      var header, cur := found.value, newHeader;
      if header.number > cur.number {
        header := tables.GetCanonicalHeader(cur.number).value;
      } else {
        while header.number != cur.number && cur.number > 0
          invariant header.number <= cur.number <= newHeader.number
          invariant Ancestor(tables, newHeader, cur.number) == Some(cur)
          decreases cur.number
        {
          var parent := tables.GetHeaderAt(cur.parentHash, cur.number - 1);
          AncestorStep(hash, tables, newHeader, cur.number - 1);
          if parent.None? {
            NoneBelow(hash, tables, newHeader, cur.number - 1);
            return None;
          }
          cur := parent.value;
        }
      }
      ancestor := WalkTogether(header, cur, newHeader);
    }

    /** The second loop of the walk: down both chains in step until their hashes agree. */
    method WalkTogether(canonical: Header, start: Header, ghost newHeader: Header) returns (ancestor: Option<Header>)
      requires Valid()
      requires canonical.number == start.number <= newHeader.number
      requires Ancestor(tables, newHeader, start.number) == Some(start)
      requires tables.GetCanonicalHeader(canonical.number) == Some(canonical)
      requires NoneAbove(hash, tables, newHeader, start.number)
      ensures ancestor.Some? ==>
                var c := ancestor.value.number;
                ForkPoint(hash, tables, newHeader, c) && Ancestor(tables, newHeader, c) == ancestor
      ensures ancestor.None? ==> NoneUpTo(hash, tables, newHeader, newHeader.number)
    {
      var header, cur := canonical, start;
      while hash(header) != hash(cur) && header.number > 0
        invariant header.number == cur.number <= start.number
        invariant Ancestor(tables, newHeader, cur.number) == Some(cur)
        invariant tables.GetCanonicalHeader(header.number) == Some(header)
        invariant NoneAbove(hash, tables, newHeader, cur.number)
        decreases header.number
      {
        TogetherStep(hash, tables, newHeader, header, cur);
        header := tables.GetCanonicalHeader(header.number - 1).value;
        var parent := tables.GetHeaderAt(cur.parentHash, cur.number - 1);
        if parent.None? {
          NoneBelow(hash, tables, newHeader, cur.number - 1);
          return None;
        }
        cur := parent.value;
      }
      return if hash(header) == hash(cur) then Some(header) else None;
    }

    // ----- rewriting the chain -------------------------------------------------------------

    /** Moves every head that stands on the stale hash. */
    method ResetStale(stale: Hash, headHash: Hash)
      modifies this`heads, this`headHeader, this`headBlock
      ensures Heads() == Move(stale, headHash, old(Heads()))
    {
      heads := map name | name in heads :: if heads[name] == stale then headHash else heads[name];
      if headHeader == stale {
        headHeader := headHash;
      }
      if headBlock == stale {
        headBlock := headHash;
      }
    }

    /** The heads kept in memory. */
    ghost function Heads(): HeadSet
      reads this
    {
      HeadSet(heads, headHeader, headBlock)
    }

    /**
     * Queues the removal of all canonical entries from `blockNumber` on, and moves every head that
     * stands on one of them to `headHash`.
     */
    method DeleteCanonicalChainReferences(blockNumber: nat, headHash: Hash, ops: seq<DbOp>, ghost n: nat)
        returns (ops': seq<DbOp>)
      requires UpTo(tables.numberToHash, n)
      requires Apply(tables, ops).numberToHash == tables.numberToHash
      modifies this`heads, this`headHeader, this`headBlock
      ensures Apply(tables, ops') == Apply(tables, ops).(numberToHash := Below(tables.numberToHash, blockNumber))
      ensures Heads() == MoveAll(tables, blockNumber, n + 1, headHash, old(Heads()))
    {
      ops' := ops;
      var number := blockNumber;
      while number in tables.numberToHash
        invariant blockNumber <= number
        invariant Heads() == MoveAll(tables, blockNumber, number, headHash, old(Heads()))
        invariant Deleted(tables, ops, ops', blockNumber, number)
        decreases n + 1 - number
      {
        DeleteStep(tables, ops, ops', blockNumber, number, headHash, old(Heads()));
        ops' := ops' + [DelNumberToHash(number)];
        ResetStale(tables.numberToHash[number], headHash);
        number := number + 1;
      }
      DeleteEnd(tables, ops, ops', blockNumber, number, n, headHash, old(Heads()));
    }

    /**
     * Queues the entries of the header's parent chain down to where it meets the canonical chain, and
     * moves every head that stands on an entry overwritten to the meeting point.
     */
    method RebuildCanonical(start: Header, ops: seq<DbOp>, ghost c: nat) returns (ops': seq<DbOp>)
      requires Injective(hash) && StoreOk(hash, tables) && ForkPoint(hash, tables, start, c)
      requires Apply(tables, ops).hashToNumber == tables.hashToNumber
      modifies this`heads, this`headBlock
      ensures Apply(tables, ops') == Rewrite(hash, tables, Apply(tables, ops), start, c)
      ensures var meet := AncestorHash(hash, tables, start, c);
              Heads() == MoveAll(tables, c + 1, start.number + 1, meet, old(Heads())).(header := old(headHeader))
    {
      var staleHeads, staleHeadBlock, meet;
      ops', staleHeads, staleHeadBlock, meet := WalkBack(start, ops, c);
      StaleNamesMoved(tables, c + 1, start.number + 1, meet, heads);
      heads := map name | name in heads :: if name in staleHeads then meet else heads[name];
      if staleHeadBlock {
        headBlock := meet;
      }
    }

    /** The loop of `_rebuildCanonical`: queues entries while noting which heads stand on those overwritten. */
    method WalkBack(start: Header, ops: seq<DbOp>, ghost c: nat)
        returns (ops': seq<DbOp>, staleHeads: set<string>, staleHeadBlock: bool, meet: Hash)
      requires Injective(hash) && StoreOk(hash, tables) && ForkPoint(hash, tables, start, c)
      requires Apply(tables, ops).hashToNumber == tables.hashToNumber
      ensures Rebuilt(hash, tables, ops, ops', start, c) && meet == AncestorHash(hash, tables, start, c)
      ensures staleHeads == StaleNames(tables, c + 1, start.number + 1, heads)
      ensures staleHeadBlock == StaleIn(tables, c + 1, start.number + 1, headBlock)
    {
      var header := start;
      staleHeads, staleHeadBlock := {}, false;
      ops' := ops;
      while header.number !in tables.numberToHash || tables.numberToHash[header.number] != hash(header)
        invariant c <= header.number && WalkedTo(hash, tables, ops, ops', start, header)
        invariant staleHeads == StaleNames(tables, header.number + 1, start.number + 1, heads)
        invariant staleHeadBlock == StaleIn(tables, header.number + 1, start.number + 1, headBlock)
        decreases header.number
      {
        WalkStep(hash, tables, ops, ops', start, header, c);
        ops' := ops' + [SetNumberToHash(header.number, hash(header)), SetHashToNumber(hash(header), header.number)];
        staleHeads, staleHeadBlock := NoteStale(header.number, staleHeads, staleHeadBlock, start.number + 1);
        header := tables.GetHeaderAt(header.parentHash, header.number - 1).value;
      }
      WalkEnd(hash, tables, ops, ops', start, header, c);
      meet := hash(header);
    }

    /** Adds the heads that stand on the canonical entry at `number`. */
    method NoteStale(number: nat, staleHeads: set<string>, staleHeadBlock: bool, ghost hi: nat)
        returns (staleHeads': set<string>, staleHeadBlock': bool)
      requires number < hi
      requires staleHeads == StaleNames(tables, number + 1, hi, heads)
      requires staleHeadBlock == StaleIn(tables, number + 1, hi, headBlock)
      ensures staleHeads' == StaleNames(tables, number, hi, heads)
      ensures staleHeadBlock' == StaleIn(tables, number, hi, headBlock)
    {
      StaleStep(tables, number, hi, heads, headBlock);
      staleHeads', staleHeadBlock' := staleHeads, staleHeadBlock;
      if number in tables.numberToHash {
        var stale := tables.numberToHash[number];
        staleHeads' := staleHeads + NamesOn(heads, stale);
        staleHeadBlock' := staleHeadBlock || headBlock == stale;
      }
    }

    // ----- putting a block or header --------------------------------------------------------------

    ghost function TdOf(item: Header): nat
      reads this
    {
      TdFor(tables, item)
    }

    ghost predicate Heavier(item: Header)
      reads this
    {
      TdOf(item) > tables.GetTotalDifficultyAt(headHeader, HeadNumber())
    }

    ghost predicate ParentFits(item: Header)
      reads this
    {
      var parent := tables.GetHeader(item.parentHash);
      parent.Some? && item.number == parent.value.number + 1
    }

    /**
     * When a put fails: another genesis block, a failed check, a block not on top of its parent, a head
     * block no longer stored, or more work on a chain that does not meet the canonical one.
     */
    ghost predicate PutThrows(item: Header, isBlock: bool, valid: bool)
      reads this
    {
      if item.number == 0 then hash(item) != hash(genesis)
      else
        || !valid || (validateBlocks && isBlock && !ParentFits(item))
        || headBlock !in tables.hashToNumber
        || (Heavier(item) && NoneUpTo(hash, tables, item, item.number))
    }

    /**
     * Adds a block or header. With more work than the head it becomes the head, and the chain is
     * rewritten down to where its parents meet the old one; otherwise it is only stored. A put that
     * throws changes nothing. `valid` is the outcome of the checks that read nothing modelled here.
     */
    method PutBlockOrHeader(item: Header, isBlock: bool, valid: bool) returns (r: Outcome)
      requires Valid()
      modifies this
      ensures Valid()
      ensures r.Threw? <==> old(PutThrows(item, isBlock, valid))
      ensures r.Threw? || item.number == 0 ==> tables == old(tables) && Heads() == old(Heads())
      ensures r.Done? && item.number > 0 ==> StoredIn(hash, old(tables), tables, item, old(TdOf(item)), isBlock)
      ensures r.Done? && item.number > 0 && !old(Heavier(item)) ==>
                PutAside(old(tables), old(Heads()), tables, Heads(), item, isBlock)
      ensures r.Done? && item.number > 0 && old(Heavier(item)) ==>
                PutOnTop(old(tables), old(Heads()), tables, Heads(), item, isBlock)
    {
      if item.number == 0 {
        return if hash(item) == hash(genesis) then Done else Threw;
      }
      if !valid {
        return Threw;
      }
      if validateBlocks && isBlock {
        var parent := tables.GetHeader(item.parentHash);
        if parent.None? || item.number != parent.value.number + 1 {
          return Threw;
        }
      }
      if headBlock !in tables.hashToNumber {
        return Threw;
      }
      r := Accept(item, isBlock);
    }

    /** An item with no more work than the head moves only the head block, and that for a block with more work. */
    ghost predicate PutAside(t: Tables, hs: HeadSet, t': Tables, hs': HeadSet, item: Header, isBlock: bool)
      requires hs.block in t.hashToNumber
    {
      && t'.numberToHash == t.numberToHash
      && hs' == hs.(block := if isBlock && TdFor(t, item) > BlockTd(t, hs) then hash(item) else hs.block)
    }

    static function BlockTd(t: Tables, hs: HeadSet): nat
      requires hs.block in t.hashToNumber
    {
      t.GetTotalDifficultyAt(hs.block, t.hashToNumber[hs.block])
    }

    /** An item with more work becomes the head, over its parent chain from the fork point. */
    ghost predicate PutOnTop(t: Tables, hs: HeadSet, t': Tables, hs': HeadSet, item: Header, isBlock: bool)
      requires hs.header in t.hashToNumber
    {
      exists c :: ForkPoint(hash, t, item, c) && Rewritten(hash, t, item, c, t'.numberToHash)
                  && hs' == Reorged(hash, t, item, c, t.hashToNumber[hs.header], isBlock, hs)
    }

    /** The put after its checks: compares the work and stores the item where it belongs. */
    method Accept(item: Header, isBlock: bool) returns (r: Outcome)
      requires Valid() && item.number > 0 && headBlock in tables.hashToNumber
      modifies this
      ensures Valid()
      ensures r.Threw? <==> old(Heavier(item)) && NoneUpTo(hash, old(tables), item, item.number)
      ensures r.Threw? ==> tables == old(tables) && Heads() == old(Heads())
      ensures r.Done? ==> StoredIn(hash, old(tables), tables, item, old(TdOf(item)), isBlock)
      ensures r.Done? && !old(Heavier(item)) ==> PutAside(old(tables), old(Heads()), tables, Heads(), item, isBlock)
      ensures r.Done? && old(Heavier(item)) ==> PutOnTop(old(tables), old(Heads()), tables, Heads(), item, isBlock)
    {
      var oldHeads, oldHeadHeader, oldHeadBlock := heads, headHeader, headBlock;
      var currentHeaderTd := tables.GetTotalDifficultyAt(headHeader, tables.hashToNumber[headHeader]);
      var currentBlockTd := tables.GetTotalDifficultyAt(headBlock, tables.hashToNumber[headBlock]);
      var td := item.difficulty + tables.GetTotalDifficultyAt(item.parentHash, item.number - 1);
      var dbOps := StoreOps(hash, item, td, isBlock);
      if td > currentHeaderTd {
        var ancestor := FindCommonAncestor(item);
        if ancestor.None? {
          heads, headHeader, headBlock := oldHeads, oldHeadHeader, oldHeadBlock;
          return Threw;
        }
        Reorganise(item, isBlock, td, dbOps, ancestor.value.number);
      } else {
        StoreOnly(item, isBlock, td, dbOps, td > currentBlockTd);
      }
      r := Done;
    }

    /** The put of an item with more work than the head. */
    method Reorganise(item: Header, isBlock: bool, td: nat, dbOps: seq<DbOp>, ghost c: nat)
      requires Valid() && item.number > 0 && ForkPoint(hash, tables, item, c)
      requires dbOps == StoreOps(hash, item, td, isBlock) && td == TdOf(item)
      modifies this
      ensures Valid() && StoredIn(hash, old(tables), tables, item, old(TdOf(item)), isBlock)
      ensures Rewritten(hash, old(tables), item, c, tables.numberToHash)
      ensures Heads() == Reorged(hash, old(tables), item, c, old(HeadNumber()), isBlock, old(Heads()))
    {
      ghost var n, t, hs := HeadNumber(), tables, Heads();
      CanonicalUpTo(hash, tables, genesis, n, headHeader);
      ghost var cut, above;
      var ops;
      ops, cut, above := QueueReorg(item, isBlock, td, dbOps, n, c);
      tables := Apply(tables, ops);
      ReorgedTables(hash, t, cut, tables, item, td, isBlock, c);
      ReorgedIs(hash, t, item, c, n, isBlock, hs, above, Heads());
      ReorganiseOk(hash, t, tables, genesis, n, hs, item, td, isBlock, c);
    }

    /** Moves the heads and queues the rewriting of the chain; `cut` and `above` are where its first half leads. */
    method QueueReorg(item: Header, isBlock: bool, ghost td: nat, dbOps: seq<DbOp>, ghost n: nat, ghost c: nat)
        returns (ops: seq<DbOp>, ghost cut: Tables, ghost above: HeadSet)
      requires Injective(hash) && StoreOk(hash, tables) && ForkPoint(hash, tables, item, c)
      requires UpTo(tables.numberToHash, n)
      requires dbOps == StoreOps(hash, item, td, isBlock)
      modifies this`heads, this`headHeader, this`headBlock
      ensures cut == Apply(tables, dbOps).(numberToHash := Below(tables.numberToHash, item.number + 1))
      ensures above == MoveAll(tables, item.number + 1, n + 1, hash(item), MovedTo(old(Heads()), hash(item), isBlock))
      ensures Apply(tables, ops) == Rewrite(hash, tables, cut, item, c)
      ensures var meet := AncestorHash(hash, tables, item, c);
              Heads() == MoveAll(tables, c + 1, item.number + 1, meet, above).(header := hash(item))
    {
      ops := CutAbove(item, isBlock, td, dbOps, n);
      cut, above := Apply(tables, ops), Heads();
      ops := RebuildCanonical(item, ops, c);
    }

    /** Makes the item the head and queues the deletion of what is above it. */
    method CutAbove(item: Header, isBlock: bool, ghost td: nat, dbOps: seq<DbOp>, ghost n: nat) returns (ops: seq<DbOp>)
      requires UpTo(tables.numberToHash, n)
      requires dbOps == StoreOps(hash, item, td, isBlock)
      modifies this`heads, this`headHeader, this`headBlock
      ensures Heads() == MoveAll(tables, item.number + 1, n + 1, hash(item), MovedTo(old(Heads()), hash(item), isBlock))
      ensures headHeader == hash(item)
      ensures Apply(tables, ops) == Apply(tables, dbOps).(numberToHash := Below(tables.numberToHash, item.number + 1))
      ensures Apply(tables, ops).hashToNumber == tables.hashToNumber
    {
      StoreOpsDo(hash, tables, item, td, isBlock);
      headHeader := hash(item);
      if isBlock {
        headBlock := hash(item);
      }
      ops := DeleteCanonicalChainReferences(item.number + 1, hash(item), dbOps, n);
    }

    /** The put of an item with no more work than the head. */
    method StoreOnly(item: Header, isBlock: bool, td: nat, dbOps: seq<DbOp>, moreThanBlock: bool)
      requires Valid() && item.number > 0
      requires dbOps == StoreOps(hash, item, td, isBlock) && td == TdOf(item)
      modifies this
      ensures Valid() && StoredIn(hash, old(tables), tables, item, old(TdOf(item)), isBlock)
      ensures tables.numberToHash == old(tables.numberToHash)
      ensures Heads() == old(Heads()).(block := if moreThanBlock && isBlock then hash(item) else old(headBlock))
    {
      ghost var n, t := HeadNumber(), tables;
      StoreOpsDo(hash, tables, item, td, isBlock);
      if moreThanBlock && isBlock {
        headBlock := hash(item);
      }
      ApplySnoc(tables, dbOps, SetHashToNumber(hash(item), item.number));
      tables := Apply(tables, dbOps + [SetHashToNumber(hash(item), item.number)]);
      StoreOnlyOk(hash, t, tables, genesis, n, Heads(), item);
    }

    /**
     * A put: right sums of difficulties stay so exactly when the item does not come after its own child, or adds
     * nothing to it; none is above the head header's then. On top of stored parents they are sums back to genesis.
     */
    method PutItem(item: Header, isBlock: bool, valid: bool) returns (r: Outcome)
      requires Valid()
      modifies this
      ensures Valid()
      ensures r.Threw? <==> old(PutThrows(item, isBlock, valid))
      ensures r.Threw? || item.number == 0 ==> tables == old(tables) && Heads() == old(Heads())
      ensures r.Done? && item.number > 0 ==> StoredIn(hash, old(tables), tables, item, old(TdOf(item)), isBlock)
      ensures old(Weighted()) && r.Done? && item.number > 0 ==>
                (Weighted() <==> !ComesLate(hash, old(tables), item) || old(TdOf(item)) == 0)
      ensures old(Weighted() && Rooted(tables)) && ParentStored(old(tables), item) ==> Weighted() && Rooted(tables)
      ensures old(Weighted() && Rooted(tables)) && validateBlocks && isBlock ==> Weighted() && Rooted(tables)
    {
      ghost var t, n, head := tables, HeadNumber(), headHeader;
      HeadStored(hash, genesis, t, Heads());
      r := PutBlockOrHeader(item, isBlock, valid);
      if r.Done? && item.number > 0 {
        if old(Weighted()) {
          PutWork(hash, t, tables, item, n, head, HeadNumber(), headHeader);
        }
        FitsStored(hash, t, item);
      }
    }

    /** Puts blocks in order up to the first that throws; those before it stay. */
    method PutBlocks(blocks: seq<Header>, valid: seq<bool>) returns (r: Outcome, done: nat)
      requires Valid() && |valid| == |blocks|
      modifies this
      ensures Valid()
      ensures done <= |blocks| && (r.Done? <==> done == |blocks|)
      ensures AllStored(hash, tables, blocks[..done]) && Keeps(old(tables), tables)
      ensures old(Weighted() && Rooted(tables)) && validateBlocks ==> Weighted() && Rooted(tables)
    {
      done := 0;
      while done < |blocks|
        invariant done <= |blocks| && Valid()
        invariant old(Weighted() && Rooted(tables)) && validateBlocks ==> Weighted() && Rooted(tables)
        invariant AllStored(hash, tables, blocks[..done]) && Keeps(old(tables), tables)
      {
        ghost var t := tables;
        r := PutItem(blocks[done], true, valid[done]);
        if r.Threw? {
          return;
        }
        OneMoreStored(hash, t, tables, blocks, done);
        done := done + 1;
      }
      r := Done;
    }

    // ----- iterating ------------------------------------------------------------------------------

    /**
     * Runs an iterator over at most `maxBlocks` canonical blocks after its head, which moves along. With `release`
     * the lock is free during callbacks. Whatever they have the chain do, it stays valid with all heads on it; and
     * each block follows on what was run before exactly when one has been kept or the head the iteration started
     * from is still canonical.
     */
    method Iterate(name: string, maxBlocks: nat, release: bool, calls: seq<Call>)
        returns (ran: nat, r: Outcome, ghost trace: seq<Step>)
      requires Valid() && maxBlocks <= |calls|
      requires forall call | call in calls :: AllowedCall(call, release, hash(genesis))
      modifies this
      ensures Valid()
      ensures var start := HeadOf(old(heads), name, hash(genesis));
              && start in old(tables).hashToNumber
              && Iterated(hash, hash(genesis), name, start, old(tables).hashToNumber[start], maxBlocks, calls,
                          old(tables), old(Heads()), ran, r, trace, tables, Heads())
      decreases calls, 1
    {
      HeadCanonical(hash, genesis, tables, Heads(), name);
      var start := HeadOf(heads, name, hash(genesis));
      ran, r, trace := WalkOn(name, start, tables.hashToNumber[start], maxBlocks, release, calls);
    }

    /** The loop of `iterator`. */
    method WalkOn(name: string, ghost start: Hash, from: nat, maxBlocks: nat, release: bool, calls: seq<Call>)
        returns (ran: nat, r: Outcome, ghost trace: seq<Step>)
      requires Valid() && maxBlocks <= |calls| && from in tables.numberToHash
      requires forall call | call in calls :: AllowedCall(call, release, hash(genesis))
      modifies this
      ensures Valid()
      ensures Iterated(hash, hash(genesis), name, start, from, maxBlocks, calls,
                       old(tables), old(Heads()), ran, r, trace, tables, Heads())
      decreases calls, 0
    {
      ghost var t, hs := tables, Heads();
      var w := Walk(from + 1, None);
      ran, trace := 0, [];
      LoopBegins(hash, hash(genesis), name, start, from, calls, t, hs);
      while ran != maxBlocks
        invariant Valid() && ran <= maxBlocks
        invariant Looping(hash, hash(genesis), name, start, from, calls, t, hs, Loop(ran, w, trace, tables, Heads()))
        decreases maxBlocks - ran
      {
        ghost var l := Loop(ran, w, trace, tables, Heads());
        ghost var s;
        var p;
        w, p, s := RunNext(name, start, from, w, release, calls[ran]);
        if p != Onward {
          LoopStops(hash, hash(genesis), name, start, from, maxBlocks, calls, t, hs, l, w, p, s, tables, Heads());
          return ran, if p.Ended? then Done else Threw, if s.Some? then trace + [s.value] else trace;
        }
        ran, trace := ran + 1, trace + [s.value];
        LoopGoesOn(hash, hash(genesis), name, start, from, calls, t, hs, l, s.value,
                   Loop(ran, w, trace, tables, Heads()));
      }
      LoopIsDone(hash, hash(genesis), name, start, from, calls, t, hs, Loop(ran, w, trace, tables, Heads()));
      r := Done;
    }

    /** One round of the loop: reads the next block, calls back, and keeps the block unless it has left the chain. */
    method RunNext(name: string, ghost start: Hash, ghost from: nat, w: Walk, release: bool, call: Call)
        returns (w': Walk, p: Progress, ghost s: Option<Step>)
      requires Valid() && AllowedCall(call, release, hash(genesis)) && (w.last.None? ==> w.next == from + 1)
      modifies this
      ensures Valid()
      ensures Rounded(hash, hash(genesis), name, start, from, w, call, old(tables), old(Heads()), w', p, s, tables,
                      Heads())
      decreases call, 2
    {
      var found, reorg, next, failed := Fetch(name, w);
      if found.None? {
        return w, if failed then Failed else Ended, None;
      }
      ghost var t, hs := tables, Heads();
      var block := found.value;
      var kept := CallBack(next, block, release, call);
      FetchedFollows(hash, genesis, t, hs, name, w, found, reorg, next, failed, start, from, kept);
      s := Some(Step(t, hs.iterators, w.last, block, reorg, kept));
      w' := if kept then Walk(next + 1, found) else Walk(next, w.last);
      if kept {
        HeadMayMove(hash, genesis, tables, Heads(), name, next);
        heads := heads[name := hash(block)];
      }
      p := Told(call.answer);
    }

    /** Reads the block to run next, from the iterator's head if the last block kept is no longer its parent. */
    method Fetch(name: string, w: Walk) returns (found: Option<Header>, reorg: bool, next: nat, failed: bool)
      requires Valid()
      ensures Fetched(hash, hash(genesis), tables, heads, name, w, found, reorg, next, failed)
    {
      next, reorg := w.next, false;
      if tables.Readable(next) && w.last.Some? {
        reorg := hash(w.last.value) != tables.GetCanonicalHeader(next).value.parentHash;
        if reorg {
          HeadCanonical(hash, genesis, tables, Heads(), name);
          next := tables.hashToNumber[HeadOf(heads, name, hash(genesis))] + 1;
        }
      }
      if tables.Readable(next) {
        return tables.GetCanonicalHeader(next), reorg, next, false;
      }
      return None, reorg, next, next in tables.numberToHash;
    }

    /** The callback on a block, and whether the block is still canonical when it ends well. */
    method CallBack(next: nat, block: Header, release: bool, call: Call) returns (kept: bool)
      requires Valid() && AllowedCall(call, release, hash(genesis))
      requires tables.Readable(next) && tables.GetCanonicalHeader(next) == Some(block)
      modifies this
      ensures Valid()
      ensures kept <==> call.answer.Good? && tables.Readable(next) && tables.GetCanonicalHeader(next) == Some(block)
      ensures call.during == [] ==> tables == old(tables) && Heads() == old(Heads())
      decreases call, 1
    {
      ServeAll(call.during);
      kept := call.answer.Good?;
      if release {
        kept := kept && tables.Readable(next) && hash(tables.GetCanonicalHeader(next).value) == hash(block);
      }
    }

    method ServeAll(requests: seq<Request>)
      requires Valid() && forall q | q in requests :: Allowed(q, hash(genesis))
      modifies this
      ensures Valid() && (requests == [] ==> tables == old(tables) && Heads() == old(Heads()))
      decreases requests
    {
      for k := 0 to |requests|
        invariant Valid() && (k == 0 ==> tables == old(tables) && Heads() == old(Heads()))
      {
        Serve(requests[k]);
      }
    }

    /** Canonical entry i is the head header's ancestor at number i, and there are entries for 0..n exactly. */
    lemma {:induction false} ChainIsAncestry(i: nat)
      requires Valid()
      ensures i in tables.numberToHash <==> i <= HeadNumber()
      ensures tables.GetHeader(headHeader).Some? && tables.GetHeader(headHeader).value.number == HeadNumber()
      ensures i <= HeadNumber() ==>
                Ancestor(tables, tables.GetHeader(headHeader).value, i) == tables.GetCanonicalHeader(i)
      ensures i <= HeadNumber() ==> tables.GetCanonicalHeader(i).Some?
    {
      HeadStored(hash, genesis, tables, Heads());
      if i <= HeadNumber() {
        CanonicalIsAncestor(hash, tables, genesis, HeadNumber(), headHeader, i);
        assert tables.GetCanonicalHeader(i).Some?;
      }
    }

    // ----- resetting and deleting --------------------------------------------------------------

    /** Cuts the canonical chain back to the given number; fails when that is beyond its end. */
    method ResetCanonicalHead(canonicalHead: nat) returns (r: Outcome)
      requires Valid()
      modifies this
      ensures Valid()
      ensures r.Done? <==> canonicalHead <= old(HeadNumber())
      ensures r.Threw? ==> tables == old(tables) && Heads() == old(Heads())
      ensures r.Done? ==>
                && canonicalHead in old(tables).numberToHash
                && CutAt(old(tables), old(Heads()), tables, Heads(), canonicalHead + 1, old(HeadNumber()), {},
                         old(tables).numberToHash[canonicalHead])
    {
      ghost var n, t, hs := HeadNumber(), tables, Heads();
      CanonicalUpTo(hash, tables, genesis, n, headHeader);
      if tables.GetCanonicalHeader(canonicalHead).None? {
        assert canonicalHead <= n ==> tables.GetCanonicalHeader(canonicalHead).Some?;
        return Threw;
      }
      CutAfter(canonicalHead, n);
      TruncateOk(hash, genesis, t, tables, hs, Heads(), canonicalHead + 1, n, {}, tables.numberToHash[canonicalHead]);
      r := Done;
    }

    /** Removes the canonical entries after a number and moves the heads that stood on them. */
    method CutAfter(number: nat, ghost n: nat)
      requires UpTo(tables.numberToHash, n) && number in tables.numberToHash
      modifies this
      ensures CutAt(old(tables), old(Heads()), tables, Heads(), number + 1, n, {}, old(tables).numberToHash[number])
    {
      NothingRemoved(tables);
      var h := tables.numberToHash[number];
      var ops := DeleteCanonicalChainReferences(number + 1, h, [], n);
      tables := Apply(tables, ops);
    }

    /**
     * Queues the deletion of a canonical block and of all canonical blocks above it, and moves the head
     * header and head block off them.
     */
    method DelChild(blockHash: Hash, blockNumber: nat, headHash: Hash, ops: seq<DbOp>, ghost n: nat)
        returns (ops': seq<DbOp>)
      requires StoreOk(hash, tables) && UpTo(tables.numberToHash, n)
      requires forall i: nat {:trigger tables.GetCanonicalHeader(i)} | i <= n :: tables.GetCanonicalHeader(i).Some?
      requires blockNumber <= n && tables.numberToHash[blockNumber] == blockHash
      modifies this`headHeader, this`headBlock
      ensures Apply(tables, ops') == Removed(Apply(tables, ops), CanonicalKeys(tables, blockNumber, n + 1))
      ensures Heads() == MoveAll(tables, blockNumber, n + 1, headHash, old(Heads())).(iterators := old(heads))
      decreases n - blockNumber
    {
      ops' := DelOne(blockHash, blockNumber, headHash, ops);
      RemoveFirst(tables, Apply(tables, ops), blockNumber, n);
      MoveFirst(tables, blockNumber, n, headHash, old(Heads()), Heads());
      var child := tables.GetCanonicalHeader(blockNumber + 1);
      if child.Some? {
        ops' := DelChild(hash(child.value), child.value.number, headHash, ops', n);
      } else {
        assert blockNumber + 1 <= n ==> tables.GetCanonicalHeader(blockNumber + 1).Some?;
        NothingAbove(tables, Apply(tables, ops'), n, headHash, Heads());
      }
    }

    /** `_delChild` on one block: its four deletes, and the heads moved off it. */
    method DelOne(blockHash: Hash, blockNumber: nat, headHash: Hash, ops: seq<DbOp>) returns (ops': seq<DbOp>)
      modifies this`headHeader, this`headBlock
      ensures Apply(tables, ops') == ApplyOne(Apply(tables, ops), DbOp.DelBlock(blockHash, blockNumber))
      ensures Heads() == Move(blockHash, headHash, old(Heads())).(iterators := old(heads))
    {
      ApplySnoc(tables, ops, DbOp.DelBlock(blockHash, blockNumber));
      ops' := ops + [DbOp.DelBlock(blockHash, blockNumber)];
      if headHeader == blockHash {
        headHeader := headHash;
      }
      if headBlock == blockHash {
        headBlock := headHash;
      }
    }

    /**
     * Deletes a block; on the canonical chain also every block above it, and the chain then ends at its
     * parent; that keeps the state valid unless it is the genesis block. Fails when the block is not stored.
     */
    method DelBlock(blockHash: Hash) returns (r: Outcome)
      requires Valid()
      modifies this
      ensures Valid() <==> r.Threw? || blockHash != hash(genesis)
      ensures r.Threw? <==> old(tables.GetHeader(blockHash)).None?
      ensures r.Threw? ==> tables == old(tables) && Heads() == old(Heads())
      ensures r.Done? ==> BlockDeleted(old(tables), old(Heads()), tables, Heads(), blockHash)
    {
      var header := tables.GetHeader(blockHash);
      if header.None? {
        return Threw;
      }
      var number := header.value.number;
      CanonicalHash(hash, tables, genesis, HeadNumber(), headHeader, blockHash);
      if number in tables.numberToHash && tables.numberToHash[number] == blockHash {
        DelCanonical(blockHash, number, header.value.parentHash);
      } else {
        DelSide(blockHash, number);
      }
      r := Done;
    }

    method DelSide(blockHash: Hash, number: nat)
      requires Valid() && (number, blockHash) in tables.headers && !IsCanonical(tables, blockHash)
      modifies this
      ensures Valid() && BlockDeleted(old(tables), old(Heads()), tables, Heads(), blockHash)
    {
      ghost var t := tables;
      ApplySnoc(tables, [], DbOp.DelBlock(blockHash, number));
      tables := Apply(tables, [] + [DbOp.DelBlock(blockHash, number)]);
      RemoveSide(hash, genesis, t, tables, Heads(), (number, blockHash));
    }

    method DelCanonical(blockHash: Hash, number: nat, parentHash: Hash)
      requires Valid() && IsCanonical(tables, blockHash)
      requires number in tables.numberToHash && tables.numberToHash[number] == blockHash
      requires blockHash in tables.hashToNumber && tables.hashToNumber[blockHash] == number
      requires tables.GetCanonicalHeader(number).Some?
      requires tables.GetCanonicalHeader(number).value.parentHash == parentHash
      modifies this
      ensures Valid() <==> blockHash != hash(genesis)
      ensures BlockDeleted(old(tables), old(Heads()), tables, Heads(), blockHash)
    {
      ghost var n, t, hs := HeadNumber(), tables, Heads();
      CanonicalUpTo(hash, tables, genesis, n, headHeader);
      DeleteFrom(blockHash, number, parentHash, n);
      if blockHash != hash(genesis) {
        CutBefore(hash, genesis, t, tables, hs, Heads(), number, n, parentHash);
      } else {
        GenesisCut(hash, genesis, t, tables, hs, Heads(), number, n, parentHash);
      }
      CanonicalDeleted(t, tables, hs, Heads(), number, n, blockHash, parentHash);
    }

    /** Deletes the canonical blocks from a number on with their canonical entries, and moves the heads. */
    method DeleteFrom(blockHash: Hash, number: nat, parentHash: Hash, ghost n: nat)
      requires StoreOk(hash, tables) && UpTo(tables.numberToHash, n)
      requires forall i: nat {:trigger tables.GetCanonicalHeader(i)} | i <= n :: tables.GetCanonicalHeader(i).Some?
      requires number <= n && tables.numberToHash[number] == blockHash
      modifies this
      ensures CutAt(old(tables), old(Heads()), tables, Heads(), number, n, CanonicalKeys(old(tables), number, n + 1),
                    parentHash)
    {
      var ops := DelChild(blockHash, number, parentHash, [], n);
      ops := DeleteCanonicalChainReferences(number, parentHash, ops, n);
      MoveTwice(tables, number, n, parentHash, old(Heads()));
      tables := Apply(tables, ops);
    }

    // ----- runs ---------------------------------------------------------------------------------

    /**
     * Any run of puts, resets, deletes and iterations, some of which may fail, ends with a canonical chain:
     * entries for 0..n exactly, n the head header's number, and entry i its ancestor at number i.
     */
    method Run(requests: seq<Request>)
      requires Valid() && forall q | q in requests :: Allowed(q, hash(genesis))
      modifies this
      ensures Valid() && tables.GetHeader(headHeader).Some? && tables.GetHeader(headHeader).value.number == HeadNumber()
      ensures forall i: nat :: i in tables.numberToHash <==> i <= HeadNumber()
      ensures forall i: nat | i <= HeadNumber() ::
                tables.GetCanonicalHeader(i).Some?
                  && Ancestor(tables, tables.GetHeader(headHeader).value, i) == tables.GetCanonicalHeader(i)
    {
      ServeAll(requests);
      forall i: nat
        ensures i in tables.numberToHash <==> i <= HeadNumber()
        ensures tables.GetHeader(headHeader).Some? && tables.GetHeader(headHeader).value.number == HeadNumber()
        ensures i <= HeadNumber() ==>
                  tables.GetCanonicalHeader(i).Some?
                    && Ancestor(tables, tables.GetHeader(headHeader).value, i) == tables.GetCanonicalHeader(i)
      {
        ChainIsAncestry(i);
      }
      ChainIsAncestry(0);
    }

    method Serve(q: Request)
      requires Valid() && Allowed(q, hash(genesis))
      modifies this
      ensures Valid()
      decreases q
    {
      match q
      case PutOne(item, isBlock, valid) => var r := PutItem(item, isBlock, valid);
      case ResetTo(canonicalHead) => var r := ResetCanonicalHead(canonicalHead);
      case DeleteOne(blockHash) => var r := DelBlock(blockHash);
      case IterateOver(name, maxBlocks, release, calls) =>
        var ran, r, trace := Iterate(name, maxBlocks, release, calls);
    }
  }
}
