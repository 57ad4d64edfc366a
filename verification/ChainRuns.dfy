/** Runs of puts, iterations and deletes that end where one would not expect. */
module ChainRuns {
  import opened Bytes
  import opened ChainDb
  import opened ChainWork
  import opened ChainReorg
  import opened ChainIterators
  import opened Chain

  lemma {:induction false} ParentAgrees(hash: HashOf, t: Tables, item: Header)
    requires StoreOk(hash, t) && item.number > 0 && ParentStored(t, item)
    requires item.number - 1 in t.numberToHash && t.numberToHash[item.number - 1] == item.parentHash
    ensures !NoneUpTo(hash, t, item, item.number)
  {
    var p := t.headers[ParentKey(item)];
    assert Ancestor(t, item, p.number) == Some(p);
    assert Agree(hash, t, item, p.number);
  }

  /** Puts an item on the canonical block before it; it has more work than the head. */
  method PutAbove(b: Blockchain, item: Header, isBlock: bool)
    requires b.Valid() && b.headBlock in b.tables.hashToNumber && !b.validateBlocks
    requires item.number > 0 && ParentStored(b.tables, item) && b.Heavier(item)
    requires item.number - 1 in b.tables.numberToHash && b.tables.numberToHash[item.number - 1] == item.parentHash
    modifies b
    ensures b.Valid() && StoredIn(b.hash, old(b.tables), b.tables, item, old(b.TdOf(item)), isBlock)
    ensures b.PutOnTop(old(b.tables), old(b.Heads()), b.tables, b.Heads(), item, isBlock)
    ensures b.headHeader == b.hash(item) && b.HeadNumber() == item.number
  {
    ParentAgrees(b.hash, b.tables, item);
    var r := b.PutBlockOrHeader(item, isBlock, true);
  }

  // ----- the first put on a fresh store -----------------------------------------------------------

  /** A store of genesis and one header on it, which is the head header. */
  ghost predicate OneOnGenesis(t: Tables, hs: HeadSet, hash: HashOf, genesis: Header, item: Header, isBlock: bool) {
    && hs == HeadSet(map[], hash(item), if isBlock then hash(item) else hash(genesis))
    && t.GetCanonicalHeader(0) == Some(genesis) && t.GetCanonicalHeader(1) == Some(item)
    && t.numberToHash == map[0 := hash(genesis), 1 := hash(item)] && (isBlock ==> t.Readable(1))
    && t.GetTotalDifficultyAt(hash(genesis), 0) == genesis.difficulty
    && t.GetTotalDifficultyAt(hash(item), 1) == item.difficulty + genesis.difficulty
  }

  lemma {:induction false} TopOfGenesis(b: Blockchain, genesis: Header, t': Tables, hs': HeadSet, item: Header,
                                        isBlock: bool)
    requires var t := GenesisTables(b.hash, genesis); var g := b.hash(genesis);
             b.PutOnTop(t, HeadSet(map[], g, g), t', hs', item, isBlock)
    requires item.number == 1
    ensures t'.numberToHash == map[0 := b.hash(genesis), 1 := b.hash(item)]
    ensures hs' == HeadSet(map[], b.hash(item), if isBlock then b.hash(item) else b.hash(genesis))
  {
    var t, g := GenesisTables(b.hash, genesis), b.hash(genesis);
    var hs := HeadSet(map[], g, g);
    var c :| ForkPoint(b.hash, t, item, c) && Rewritten(b.hash, t, item, c, t'.numberToHash)
             && hs' == Reorged(b.hash, t, item, c, 0, isBlock, hs);
    assert c == 0;
    assert Ancestor(t, item, 1) == Some(item);
    forall h
      ensures Redirect(t, 2, 1, b.hash(item), h) == h && Redirect(t, 1, 2, AncestorHash(b.hash, t, item, 0), h) == h
    {
    }
  }

  method PutOnGenesis(hash: HashOf, genesis: Header, item: Header, isBlock: bool) returns (b: Blockchain)
    requires Injective(hash) && genesis.number == 0
    requires item.number == 1 && item.parentHash == hash(genesis) && item.difficulty > 0
    ensures fresh(b) && b.Valid() && b.hash == hash && b.genesis == genesis && !b.validateBlocks
    ensures OneOnGenesis(b.tables, b.Heads(), hash, genesis, item, isBlock)
  {
    b := new Blockchain(hash, genesis, false);
    PutFirst(b, item, isBlock);
  }

  lemma {:induction false} StoredOnGenesis(hash: HashOf, genesis: Header, t': Tables, item: Header, td: nat,
                                           isBlock: bool)
    requires item.number > 0 && StoredIn(hash, GenesisTables(hash, genesis), t', item, td, isBlock)
    ensures var g, h := hash(genesis), hash(item);
            && t'.headers == map[(0, g) := genesis, (item.number, h) := item]
            && t'.bodies == (if isBlock then {(0, g), (item.number, h)} else {(0, g)})
            && t'.td == map[(0, g) := genesis.difficulty, (item.number, h) := td]
            && t'.hashToNumber == map[g := 0, h := item.number]
  {
  }

  method PutFirst(b: Blockchain, item: Header, isBlock: bool)
    requires b.Valid() && !b.validateBlocks && b.tables == GenesisTables(b.hash, b.genesis)
    requires b.Heads() == HeadSet(map[], b.hash(b.genesis), b.hash(b.genesis))
    requires item.number == 1 && item.parentHash == b.hash(b.genesis) && item.difficulty > 0
    modifies b
    ensures b.Valid() && OneOnGenesis(b.tables, b.Heads(), b.hash, b.genesis, item, isBlock)
  {
    ghost var td := b.TdOf(item);
    assert td == item.difficulty + b.genesis.difficulty;
    PutAbove(b, item, isBlock);
    StoredOnGenesis(b.hash, b.genesis, b.tables, item, td, isBlock);
    TopOfGenesis(b, b.genesis, b.tables, b.Heads(), item, isBlock);
  }

  // ----- a child before its parent --------------------------------------------------------------

  lemma {:induction false} WorkOfTwo(t: Tables, genesis: Header, parent: Header, child: Header)
    requires genesis.number == 0 && parent.number == 1 && child.number == 2
    requires t.GetHeaderAt(parent.parentHash, 0) == Some(genesis) && t.GetHeaderAt(child.parentHash, 1) == Some(parent)
    ensures WorkOf(t, parent) == parent.difficulty + genesis.difficulty
    ensures WorkOf(t, child) == child.difficulty + parent.difficulty + genesis.difficulty
  {
  }

  /** A header alone above genesis, with its parent missing and no more work than genesis. */
  method PutOrphan(hash: HashOf, genesis: Header, child: Header) returns (b: Blockchain)
    requires Injective(hash) && genesis.number == 0
    requires child.number == 2 && child.difficulty <= genesis.difficulty
    ensures fresh(b) && b.Valid() && b.hash == hash && !b.validateBlocks
    ensures var g, h := hash(genesis), hash(child);
            && b.tables.headers == map[(0, g) := genesis, (2, h) := child]
            && b.tables.td == map[(0, g) := genesis.difficulty, (2, h) := child.difficulty]
            && b.tables.hashToNumber == map[g := 0, h := 2] && b.tables.numberToHash == map[0 := g]
            && b.Heads() == HeadSet(map[], g, g)
  {
    b := new Blockchain(hash, genesis, false);
    PutLighterOrphan(b, child);
    StoredOnGenesis(hash, genesis, b.tables, child, child.difficulty, false);
  }

  method PutLighterOrphan(b: Blockchain, child: Header)
    requires b.Valid() && b.tables == GenesisTables(b.hash, b.genesis) && !b.validateBlocks
    requires b.headBlock == b.headHeader == b.hash(b.genesis)
    requires child.number == 2 && child.difficulty <= b.genesis.difficulty
    modifies b
    ensures b.Valid() && StoredIn(b.hash, old(b.tables), b.tables, child, child.difficulty, false)
    ensures b.tables.numberToHash == old(b.tables.numberToHash) && b.Heads() == old(b.Heads())
  {
    OrphanHasNoWork(b.tables, child);
    var r := b.PutBlockOrHeader(child, false, true);
  }

  /**
   * A header put before its parent: the sum stored for it lacks its parent's work, and the parent becomes the
   * head although the child outweighs it.
   */
  method ChildFirst(hash: HashOf, genesis: Header, parent: Header, child: Header) returns (b: Blockchain)
    requires Injective(hash) && genesis.number == 0
    requires parent.number == 1 && parent.parentHash == hash(genesis) && parent.difficulty > 0
    requires child.number == 2 && child.parentHash == hash(parent) && child.difficulty <= genesis.difficulty
    ensures fresh(b) && b.Valid() && b.headHeader == hash(parent) && !SumsOk(b.tables)
    ensures var g, p, h := (0, hash(genesis)), (1, hash(parent)), (2, hash(child));
            && b.tables.headers == map[g := genesis, h := child, p := parent]
            && h in b.tables.td && b.tables.td[h] == child.difficulty
    ensures WorkOf(b.tables, child) == child.difficulty + WorkOf(b.tables, parent)
  {
    b := PutOrphan(hash, genesis, child);
    PutAbove(b, parent, false);
    WorkOfTwo(b.tables, genesis, parent, child);
    assert b.tables.headers[(2, hash(child))] == child;
  }

  // ----- an iterator head above a heavier block -------------------------------------------------

  /** Two blocks above genesis, and an iterator that has run both. */
  method TwoBlocksRun(hash: HashOf, genesis: Header, a1: Header, a2: Header) returns (b: Blockchain)
    requires Injective(hash) && genesis.number == 0
    requires a1.number == 1 && a1.parentHash == hash(genesis) && a1.difficulty > 0
    requires a2.number == 2 && a2.parentHash == hash(a1) && a2.difficulty > 0
    ensures fresh(b) && b.Valid() && b.hash == hash && b.genesis == genesis && !b.validateBlocks
    ensures TwoOnGenesis(b.tables, b.Heads(), hash, genesis, a1, a2) && b.heads == map["vm" := hash(a2)]
  {
    b := PutOnGenesis(hash, genesis, a1, true);
    PutTop(b, a1, a2);
    RunBoth(b, genesis, a1, a2);
  }

  /** A store of genesis and two blocks above it, the upper one the head. */
  ghost predicate TwoOnGenesis(t: Tables, hs: HeadSet, hash: HashOf, genesis: Header, a1: Header, a2: Header) {
    && hs.header == hs.block == hash(a2)
    && hash(a2) in t.hashToNumber && t.hashToNumber[hash(a2)] == 2 && (0, hash(genesis)) in t.headers
    && t.GetTotalDifficultyAt(hash(a2), 2) == a2.difficulty + a1.difficulty + genesis.difficulty
    && t.GetTotalDifficultyAt(hash(genesis), 0) == genesis.difficulty
    && t.GetCanonicalHeader(1) == Some(a1) && t.Readable(1)
    && t.GetCanonicalHeader(2) == Some(a2) && t.Readable(2)
  }

  method PutTop(b: Blockchain, a1: Header, a2: Header)
    requires b.Valid() && !b.validateBlocks && OneOnGenesis(b.tables, b.Heads(), b.hash, b.genesis, a1, true)
    requires a1.number == 1 && a2.number == 2 && a2.parentHash == b.hash(a1) && a2.difficulty > 0
    modifies b
    ensures b.Valid() && b.heads == map[] && TwoOnGenesis(b.tables, b.Heads(), b.hash, b.genesis, a1, a2)
  {
    ghost var t, hs := b.tables, b.Heads();
    PutSecond(b, a1, a2);
    SecondBlock(b, t, hs, b.tables, b.Heads(), b.genesis, a1, a2);
  }

  method PutSecond(b: Blockchain, a1: Header, a2: Header)
    requires b.Valid() && !b.validateBlocks && OneOnGenesis(b.tables, b.Heads(), b.hash, b.genesis, a1, true)
    requires a1.number == 1 && a2.number == 2 && a2.parentHash == b.hash(a1) && a2.difficulty > 0
    modifies b
    ensures b.Valid() && b.heads == map[] && b.headHeader == b.headBlock == b.hash(a2)
    ensures StoredIn(b.hash, old(b.tables), b.tables, a2, a2.difficulty + a1.difficulty + b.genesis.difficulty, true)
  {
    SecondTd(b.hash, b.tables, b.Heads(), b.genesis, a1, a2);
    PutNext(b, a2);
  }

  /** A block on top of the head header, with no iterator to move. */
  method PutNext(b: Blockchain, item: Header)
    requires b.Valid() && b.headBlock in b.tables.hashToNumber && !b.validateBlocks && b.heads == map[]
    requires item.number == b.HeadNumber() + 1 && item.parentHash == b.headHeader && b.Heavier(item)
    modifies b
    ensures b.Valid() && b.heads == map[] && b.headHeader == b.headBlock == b.hash(item)
    ensures StoredIn(b.hash, old(b.tables), b.tables, item, old(b.TdOf(item)), true)
  {
    ghost var t, hs := b.tables, b.Heads();
    b.ChainIsAncestry(b.HeadNumber());
    PutAbove(b, item, true);
    HeadsOnTop(b, t, hs, b.tables, b.Heads(), item);
  }

  lemma {:induction false} SecondBlock(b: Blockchain, t: Tables, hs: HeadSet, t': Tables, hs': HeadSet, genesis: Header,
                                       a1: Header, a2: Header)
    requires ValidState(b.hash, genesis, t', hs') && hs'.header == hs'.block == b.hash(a2)
    requires OneOnGenesis(t, hs, b.hash, genesis, a1, true)
    requires a1.number == 1 && a2.number == 2 && a2.parentHash == b.hash(a1)
    requires StoredIn(b.hash, t, t', a2, a2.difficulty + a1.difficulty + genesis.difficulty, true)
    ensures TwoOnGenesis(t', hs', b.hash, genesis, a1, a2)
  {
    assert t'.GetCanonicalHeader(2).Some? && t'.GetCanonicalHeader(1).Some?;
    assert t'.headers[(2, b.hash(a2))] == a2 && t'.headers[(1, b.hash(a1))] == a1;
  }

  lemma {:induction false} SecondTd(hash: HashOf, t: Tables, hs: HeadSet, genesis: Header, a1: Header, a2: Header)
    requires ValidState(hash, genesis, t, hs) && OneOnGenesis(t, hs, hash, genesis, a1, true)
    requires a1.number == 1 && a2.number == 2 && a2.parentHash == hash(a1) && a2.difficulty > 0
    ensures TdFor(t, a2) == a2.difficulty + a1.difficulty + genesis.difficulty
    ensures hs.header in t.hashToNumber && hs.block in t.hashToNumber && ParentStored(t, a2)
    ensures TdFor(t, a2) > t.GetTotalDifficultyAt(hs.header, t.hashToNumber[hs.header])
  {
  }

  lemma {:induction false} HeadsOnTop(b: Blockchain, t: Tables, hs: HeadSet, t': Tables, hs': HeadSet, item: Header)
    requires ValidState(b.hash, b.genesis, t, hs) && b.PutOnTop(t, hs, t', hs', item, true)
    ensures hs'.block == b.hash(item) && (hs.iterators == map[] ==> hs'.iterators == map[])
  {
    var n := t.hashToNumber[hs.header];
    var c :| ForkPoint(b.hash, t, item, c) && Rewritten(b.hash, t, item, c, t'.numberToHash)
             && hs' == Reorged(b.hash, t, item, c, n, true, hs);
    ItemNotStale(b.hash, t, b.genesis, n, hs.header, item, c);
  }

  lemma {:induction false} AllRan(t: Tables, hs: HeadSet, k: nat, calls: seq<Call>, ran: nat, r: Outcome, t': Tables,
                                  hs': HeadSet)
    requires 0 < k == |calls| && IteratedFrom(t, hs, "vm", 0, k, calls, ran, r, t', hs')
    requires (forall i | 0 <= i < k :: calls[i].answer.Good?) && forall i | 0 < i <= k :: t.Readable(i)
    ensures t' == t && k in t.numberToHash && hs' == hs.(iterators := hs.iterators["vm" := t.numberToHash[k]])
  {
    var next: nat := ran + 1;
    assert next <= k ==> t.Readable(next);
  }

  /** A new iterator over the first blocks after genesis, all of which can be read. */
  method RunFirstBlocks(b: Blockchain, k: nat, calls: seq<Call>)
    requires b.Valid() && b.heads == map[] && 0 < k == |calls|
    requires (forall i | 0 <= i < k :: calls[i] == Call([], Good)) && forall i | 0 < i <= k :: b.tables.Readable(i)
    modifies b
    ensures b.Valid() && b.tables == old(b.tables) && k in b.tables.numberToHash
    ensures b.Heads() == old(b.Heads()).(iterators := map["vm" := b.tables.numberToHash[k]])
  {
    b.ChainIsAncestry(0);
    ghost var t, hs := b.tables, b.Heads();
    var ran, r, trace := b.Iterate("vm", k, false, calls);
    AllRan(t, hs, k, calls, ran, r, b.tables, b.Heads());
  }

  method RunBoth(b: Blockchain, genesis: Header, a1: Header, a2: Header)
    requires b.Valid() && TwoOnGenesis(b.tables, b.Heads(), b.hash, genesis, a1, a2) && b.heads == map[]
    modifies b
    ensures b.Valid() && b.tables == old(b.tables) && b.heads == map["vm" := b.hash(a2)]
    ensures b.headHeader == old(b.headHeader) && b.headBlock == old(b.headBlock)
  {
    b.ChainIsAncestry(2);
    RunFirstBlocks(b, 2, [Call([], Good), Call([], Good)]);
  }

  /** Two blocks, run by an iterator, and then a heavier one beside the first: the iterator's head is on that. */
  method HeadOnHeavierBlock(hash: HashOf, genesis: Header, a1: Header, a2: Header, b1: Header) returns (b: Blockchain)
    requires Injective(hash) && genesis.number == 0
    requires a1.number == 1 && a1.parentHash == hash(genesis) && a1.difficulty > 0
    requires a2.number == 2 && a2.parentHash == hash(a1) && a2.difficulty > 0
    requires b1.number == 1 && b1.parentHash == hash(genesis) && b1.difficulty > a1.difficulty + a2.difficulty
    ensures fresh(b) && b.Valid() && b.headHeader == hash(b1) && b.heads == map["vm" := hash(b1)]
  {
    b := TwoBlocksRun(hash, genesis, a1, a2);
    PutHeavier(b, genesis, a1, a2, b1);
  }

  method PutHeavier(b: Blockchain, genesis: Header, a1: Header, a2: Header, b1: Header)
    requires b.Valid() && b.genesis == genesis && !b.validateBlocks && b.heads == map["vm" := b.hash(a2)]
    requires TwoOnGenesis(b.tables, b.Heads(), b.hash, genesis, a1, a2)
    requires b1.number == 1 && b1.parentHash == b.hash(genesis) && b1.difficulty > a1.difficulty + a2.difficulty
    modifies b
    ensures b.Valid() && b.headHeader == b.hash(b1) && b.heads == map["vm" := b.hash(b1)]
  {
    ghost var t, hs := b.tables, b.Heads();
    BesideHeavier(t, hs, b.hash, genesis, a1, a2, b1);
    PutAbove(b, b1, true);
    HeadMoved(b, t, hs, b.tables, b.Heads(), b1);
  }

  lemma {:induction false} BesideHeavier(t: Tables, hs: HeadSet, hash: HashOf, genesis: Header, a1: Header, a2: Header,
                                         b1: Header)
    requires TwoOnGenesis(t, hs, hash, genesis, a1, a2)
    requires b1.number == 1 && b1.parentHash == hash(genesis) && b1.difficulty > a1.difficulty + a2.difficulty
    ensures TdFor(t, b1) > t.GetTotalDifficultyAt(hs.header, t.hashToNumber[hs.header]) && ParentStored(t, b1)
  {
  }

  lemma {:induction false} HeadMoved(b: Blockchain, t: Tables, hs: HeadSet, t': Tables, hs': HeadSet, b1: Header)
    requires ValidState(b.hash, b.genesis, t, hs) && t.hashToNumber[hs.header] == 2 && b1.number == 1
    requires hs.iterators == map["vm" := hs.header] && b.PutOnTop(t, hs, t', hs', b1, true)
    ensures hs'.iterators == map["vm" := b.hash(b1)]
  {
    var c :| ForkPoint(b.hash, t, b1, c) && Rewritten(b.hash, t, b1, c, t'.numberToHash)
             && hs' == Reorged(b.hash, t, b1, c, 2, true, hs);
    HeadMovedTo(b.hash, b.genesis, t, hs, b1, c);
  }

  lemma {:induction false} HeadMovedTo(hash: HashOf, genesis: Header, t: Tables, hs: HeadSet, b1: Header, c: nat)
    requires ValidState(hash, genesis, t, hs) && t.hashToNumber[hs.header] == 2 && b1.number == 1
    requires hs.iterators == map["vm" := hs.header] && ForkPoint(hash, t, b1, c)
    ensures Reorged(hash, t, b1, c, 2, true, hs).iterators == map["vm" := hash(b1)]
  {
    ReorgedHead(hash, t, genesis, 2, hs.header, b1, c, true, hs, "vm", 2);
  }

  // ----- a block that no callback sees -------------------------------------------------------------

  /**
   * An iterator on a1 runs a2 with the lock released, and its callback puts b1 and b2 with more work. a2 is not
   * kept, and the next round, told of no reorganisation, runs b2: b1 is left out, on which b2 stands.
   */
  method BlockLeftOut(hash: HashOf, genesis: Header, a1: Header, a2: Header, b1: Header, b2: Header)
      returns (b: Blockchain, ghost s: Option<Step>)
    requires Injective(hash) && genesis.number == 0
    requires a1.number == 1 && a1.parentHash == hash(genesis) && a1.difficulty > 0
    requires a2.number == 2 && a2.parentHash == hash(a1) && a2.difficulty > 0
    requires b1.number == 1 && b1.parentHash == hash(genesis) && b1.difficulty > a1.difficulty + a2.difficulty
    requires b2.number == 2 && b2.parentHash == hash(b1) && b2.difficulty > 0
    ensures fresh(b) && b.Valid() && "vm" in b.heads && b.heads["vm"] == hash(b2)
    ensures s.Some? && s.value.block == b2 && !s.value.reorg && !FollowsOn(hash, hash(genesis), "vm", hash(a1), s.value)
  {
    b := PutOnGenesis(hash, genesis, a1, true);
    PutTop(b, a1, a2);
    RunFirst(b, genesis, a1, a2);
    var found, reorg, next, failed := b.Fetch("vm", Walk(2, None));
    assert found == Some(a2);
    PutHeavierTwo(b, genesis, a1, a2, b1, b2);
    s := RunSecond(b, a1, b1, b2);
  }

  /** The first of the two blocks, run by an iterator. */
  method RunFirst(b: Blockchain, genesis: Header, a1: Header, a2: Header)
    requires b.Valid() && TwoOnGenesis(b.tables, b.Heads(), b.hash, genesis, a1, a2) && b.heads == map[]
    modifies b
    ensures b.Valid() && b.tables == old(b.tables) && b.heads == map["vm" := b.hash(a1)]
    ensures b.headHeader == old(b.headHeader) && b.headBlock == old(b.headBlock)
  {
    b.ChainIsAncestry(1);
    RunFirstBlocks(b, 1, [Call([], Good)]);
  }

  /** Two blocks with more work than the chain of two: they are canonical then. */
  method PutHeavierTwo(b: Blockchain, genesis: Header, a1: Header, a2: Header, b1: Header, b2: Header)
    requires b.Valid() && b.genesis == genesis && !b.validateBlocks
    requires TwoOnGenesis(b.tables, b.Heads(), b.hash, genesis, a1, a2)
    requires b1.number == 1 && b1.parentHash == b.hash(genesis) && b1.difficulty > a1.difficulty + a2.difficulty
    requires b2.number == 2 && b2.parentHash == b.hash(b1) && b2.difficulty > 0
    modifies b
    ensures b.Valid() && b.tables.GetCanonicalHeader(1) == Some(b1)
    ensures b.tables.GetCanonicalHeader(2) == Some(b2) && b.tables.Readable(2)
  {
    BesideHeavier(b.tables, b.Heads(), b.hash, genesis, a1, a2, b1);
    PutBody(b, b1);
    PutBody(b, b2);
    b.ChainIsAncestry(1);
  }

  /** A block that becomes the head. */
  method PutBody(b: Blockchain, item: Header)
    requires b.Valid() && b.headBlock in b.tables.hashToNumber && !b.validateBlocks
    requires item.number > 0 && ParentStored(b.tables, item) && b.Heavier(item)
    requires item.number - 1 in b.tables.numberToHash && b.tables.numberToHash[item.number - 1] == item.parentHash
    modifies b
    ensures b.Valid() && OnTop(b.hash, b.tables, b.Heads(), item, old(b.TdOf(item)))
  {
    ghost var t, hs := b.tables, b.Heads();
    PutAbove(b, item, true);
    HeadsOnTop(b, t, hs, b.tables, b.Heads(), item);
    StoredOnTop(b.hash, b.genesis, t, b.tables, b.Heads(), item, TdFor(t, item));
  }

  ghost predicate OnTop(hash: HashOf, t: Tables, hs: HeadSet, item: Header, td: nat) {
    && hs.header == hs.block == hash(item) && hash(item) in t.hashToNumber && t.hashToNumber[hash(item)] == item.number
    && t.GetCanonicalHeader(item.number) == Some(item) && t.Readable(item.number)
    && t.GetTotalDifficultyAt(hash(item), item.number) == td
  }

  lemma {:induction false} StoredOnTop(hash: HashOf, genesis: Header, t: Tables, t': Tables, hs': HeadSet, item: Header,
                                       td: nat)
    requires ValidState(hash, genesis, t', hs') && hs'.header == hs'.block == hash(item)
    requires StoredIn(hash, t, t', item, td, true)
    ensures OnTop(hash, t', hs', item, td)
  {
    assert t'.GetCanonicalHeader(item.number).Some?;
  }

  method RunSecond(b: Blockchain, a1: Header, b1: Header, b2: Header) returns (ghost s: Option<Step>)
    requires b.Valid() && b.hash(a1) != b.hash(b1) && b2.number == 2
    requires b.tables.GetCanonicalHeader(1) == Some(b1)
    requires b.tables.GetCanonicalHeader(2) == Some(b2) && b.tables.Readable(2)
    modifies b
    ensures b.Valid() && "vm" in b.heads && b.heads["vm"] == b.hash(b2)
    ensures s.Some? && s.value.block == b2 && !s.value.reorg
    ensures !FollowsOn(b.hash, b.hash(b.genesis), "vm", b.hash(a1), s.value)
  {
    var w, p;
    w, p, s := b.RunNext("vm", b.hash(a1), 1, Walk(2, None), true, Call([], Good));
  }

  // ----- a head block deleted -----------------------------------------------------------------------

  /** A header, a lighter block beside it, and the block deleted: no put succeeds any more. */
  method HeadBlockGone(hash: HashOf, genesis: Header, header: Header, side: Header) returns (b: Blockchain)
    requires Injective(hash) && genesis.number == 0 && header.number == 1 == side.number && header != side
    requires header.parentHash == side.parentHash == hash(genesis) && 0 < side.difficulty <= header.difficulty
    ensures fresh(b) && b.Valid()
    ensures forall item: Header, isBlock, valid | item.number > 0 :: b.PutThrows(item, isBlock, valid)
  {
    b := PutOnGenesis(hash, genesis, header, false);
    PutBeside(b, genesis, header, side);
    var r := b.DelBlock(hash(side));
  }

  method PutBeside(b: Blockchain, genesis: Header, header: Header, side: Header)
    requires b.Valid() && OneOnGenesis(b.tables, b.Heads(), b.hash, genesis, header, false) && !b.validateBlocks
    requires genesis == b.genesis && header.number == 1 == side.number && header != side
    requires side.parentHash == b.hash(genesis) && 0 < side.difficulty <= header.difficulty
    modifies b
    ensures b.Valid() && b.headBlock == b.hash(side) && !IsCanonical(b.tables, b.hash(side))
    ensures b.hash(side) in b.tables.hashToNumber && b.tables.hashToNumber[b.hash(side)] == 1
    ensures b.tables.GetHeader(b.hash(side)) == Some(side)
  {
    BesideLighter(b.tables, b.Heads(), b.hash, genesis, header, side);
    PutBesideHead(b, side);
  }

  lemma {:induction false} BesideLighter(t: Tables, hs: HeadSet, hash: HashOf, genesis: Header, header: Header,
                                         side: Header)
    requires ValidState(hash, genesis, t, hs) && OneOnGenesis(t, hs, hash, genesis, header, false)
    requires header.number == 1 == side.number && header != side
    requires side.parentHash == hash(genesis) && 0 < side.difficulty <= header.difficulty
    ensures hs.header in t.hashToNumber && hs.block in t.hashToNumber && !IsCanonical(t, hash(side))
    ensures TdFor(t, side) <= t.GetTotalDifficultyAt(hs.header, t.hashToNumber[hs.header])
    ensures TdFor(t, side) > Blockchain.BlockTd(t, hs)
  {
  }

  /** A block with no more work than the head header but more than the head block. */
  method PutBesideHead(b: Blockchain, side: Header)
    requires b.Valid() && !b.validateBlocks && b.headBlock in b.tables.hashToNumber
    requires side.number > 0 && !b.Heavier(side) && !IsCanonical(b.tables, b.hash(side))
    requires TdFor(b.tables, side) > Blockchain.BlockTd(b.tables, b.Heads())
    modifies b
    ensures b.Valid() && b.headBlock == b.hash(side) && b.tables.numberToHash == old(b.tables.numberToHash)
    ensures b.hash(side) in b.tables.hashToNumber && b.tables.hashToNumber[b.hash(side)] == side.number
    ensures b.tables.GetHeader(b.hash(side)) == Some(side)
  {
    var r := b.PutBlockOrHeader(side, true, true);
  }
}
