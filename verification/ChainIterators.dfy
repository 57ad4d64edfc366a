/**
 * Iterators over the canonical chain (packages/blockchain/src/blockchain.ts), whose callbacks may change it.
 */
module ChainIterators {
  import opened Bytes
  import opened ChainDb
  import opened ChainReorg

  datatype Outcome = Done | Threw

  /** How an iterator's callback ends; an error may read like that of a block not found. */
  datatype Answer = Good | Bad | NotFound

  /** What a callback has the chain do, and how it ends. */
  datatype Call = Call(during: seq<Request>, answer: Answer)

  datatype Request =
    | PutOne(item: Header, isBlock: bool, valid: bool)
    | ResetTo(canonicalHead: nat)
    | DeleteOne(blockHash: Hash)
    | IterateOver(name: string, maxBlocks: nat, release: bool, calls: seq<Call>)

  /**
   * Nobody deletes the genesis block. While the lock is held a callback can only delete, which takes no lock, and
   * is taken to do so only when it ends with an error.
   */
  ghost predicate Allowed(q: Request, genesisHash: Hash) {
    match q
    case DeleteOne(h) => h != genesisHash
    case IterateOver(_, maxBlocks, release, calls) =>
      |calls| >= maxBlocks && forall call | call in calls :: AllowedCall(call, release, genesisHash)
    case _ => true
  }

  ghost predicate AllowedCall(call: Call, release: bool, genesisHash: Hash) {
    && (forall q | q in call.during :: Allowed(q, genesisHash))
    && (release || ((call.answer.Good? ==> call.during == []) && forall q | q in call.during :: q.DeleteOne?))
  }

  /** Where an iterator is: the number of the block to run next, and the last block it has kept. */
  datatype Walk = Walk(next: nat, last: Option<Header>)

  /** One block run: the tables and the heads at that time, and whether a reorganisation was seen. */
  datatype Step = Step(tables: Tables, heads: map<string, Hash>, last: Option<Header>, block: Header, reorg: bool,
                       kept: bool)

  datatype Progress = Onward | Ended | Failed

  function HeadOf(heads: map<string, Hash>, name: string, genesisHash: Hash): Hash {
    if name in heads then heads[name] else genesisHash
  }

  /**
   * The block is a child of the last one kept, or of the head that the iteration started from, or else, with a
   * reorganisation seen, of the iterator's head.
   */
  ghost predicate FollowsOn(hash: HashOf, genesisHash: Hash, name: string, start: Hash, s: Step) {
    || s.block.parentHash == (if s.last.Some? then hash(s.last.value) else start)
    || (s.reorg && s.block.parentHash == HeadOf(s.heads, name, genesisHash))
  }

  ghost predicate StepOk(hash: HashOf, genesisHash: Hash, name: string, start: Hash, from: nat, s: Step) {
    && s.tables.GetCanonicalHeader(s.block.number) == Some(s.block)
    && (s.block.emptyBody || (s.block.number, hash(s.block)) in s.tables.bodies)
    && (s.reorg ==> s.last.Some?)
    && (FollowsOn(hash, genesisHash, name, start, s)
        <==> s.last.Some? || (from in s.tables.numberToHash && s.tables.numberToHash[from] == start))
  }

  ghost predicate StepsOk(hash: HashOf, genesisHash: Hash, name: string, start: Hash, from: nat, trace: seq<Step>) {
    forall i | 0 <= i < |trace| :: StepOk(hash, genesisHash, name, start, from, trace[i])
  }

  /** Each step tells the last block kept before it. */
  ghost predicate Chained(trace: seq<Step>) {
    forall i {:trigger trace[i].last} | 0 <= i < |trace| :: trace[i].last == LastKept(trace[..i])
  }

  ghost function LastKept(trace: seq<Step>): Option<Header> {
    if trace == [] then None
    else if trace[|trace| - 1].kept then Some(trace[|trace| - 1].block)
    else LastKept(trace[..|trace| - 1])
  }

  lemma {:induction false} ChainedSnoc(trace: seq<Step>, s: Step)
    requires Chained(trace) && s.last == LastKept(trace)
    ensures Chained(trace + [s]) && LastKept(trace + [s]) == if s.kept then Some(s.block) else s.last
  {
    assert (trace + [s])[..|trace|] == trace;
    forall i | 0 <= i < |trace|
      ensures (trace + [s])[i].last == LastKept((trace + [s])[..i])
    {
      assert (trace + [s])[..i] == trace[..i] && trace[i].last == LastKept(trace[..i]);
    }
  }

  /** What is read before a callback: the block, or none with the reason. */
  ghost predicate Fetched(hash: HashOf, genesisHash: Hash, t: Tables, heads: map<string, Hash>, name: string, w: Walk,
                          found: Option<Header>, reorg: bool, next: nat, failed: bool) {
    && (reorg <==> && w.last.Some? && t.Readable(w.next)
                   && hash(w.last.value) != t.GetCanonicalHeader(w.next).value.parentHash)
    && (if reorg then
          HeadOf(heads, name, genesisHash) in t.hashToNumber
            && next == t.hashToNumber[HeadOf(heads, name, genesisHash)] + 1
        else next == w.next)
    && found == (if t.Readable(next) then t.GetCanonicalHeader(next) else None)
    && (failed <==> next in t.numberToHash && !t.Readable(next))
  }

  /** A block found follows on exactly when a block was kept before or the starting head is still canonical. */
  lemma {:induction false} FetchedFollows(hash: HashOf, genesis: Header, t: Tables, hs: HeadSet, name: string, w: Walk,
                                          found: Option<Header>, reorg: bool, next: nat, failed: bool, start: Hash,
                                          from: nat, kept: bool)
    requires ValidState(hash, genesis, t, hs) && (w.last.None? ==> w.next == from + 1)
    requires Fetched(hash, hash(genesis), t, hs.iterators, name, w, found, reorg, next, failed) && found.Some?
    ensures StepOk(hash, hash(genesis), name, start, from, Step(t, hs.iterators, w.last, found.value, reorg, kept))
    ensures found.value.number == next
  {
    var n := t.hashToNumber[hs.header];
    assert t.GetCanonicalHeader(next).Some?;
    if reorg {
      var h := HeadOf(hs.iterators, name, hash(genesis));
      HeadCanonical(hash, genesis, t, hs, name);
      CanonicalIndexed(hash, t, genesis, n, hs.header, h);
      assert found.value.parentHash == t.numberToHash[next - 1];
    } else if w.last.None? {
      assert found.value.parentHash == t.numberToHash[next - 1];
    }
  }

  /** An iterator's head, genesis if it has none, is canonical. */
  lemma {:induction false} HeadCanonical(hash: HashOf, genesis: Header, t: Tables, hs: HeadSet, name: string)
    requires ValidState(hash, genesis, t, hs)
    ensures var h := HeadOf(hs.iterators, name, hash(genesis));
            IsCanonical(t, h) && h in t.hashToNumber && t.hashToNumber[h] in t.numberToHash
  {
    var h := HeadOf(hs.iterators, name, hash(genesis));
    assert t.numberToHash[0] == hash(genesis);
    CanonicalIndexed(hash, t, genesis, t.hashToNumber[hs.header], hs.header, h);
  }

  lemma {:induction false} HeadMayMove(hash: HashOf, genesis: Header, t: Tables, hs: HeadSet, name: string, number: nat)
    requires ValidState(hash, genesis, t, hs) && number in t.numberToHash
    ensures ValidState(hash, genesis, t, hs.(iterators := hs.iterators[name := t.numberToHash[number]]))
  {
  }

  // ----- an iteration that nothing disturbs ----------------------------------------------------

  ghost predicate Undisturbed(calls: seq<Call>) {
    forall call | call in calls :: call.during == []
  }

  /** How one step ends that nothing disturbs. */
  ghost predicate QuietStep(t: Tables, hs: HeadSet, name: string, w: Walk, call: Call, w': Walk, p: Progress,
                            hs': HeadSet) {
    match p
    case Onward =>
      && t.Readable(w.next) && call.answer.Good?
      && w' == Walk(w.next + 1, t.GetCanonicalHeader(w.next))
      && hs' == hs.(iterators := hs.iterators[name := t.numberToHash[w.next]])
    case Ended => hs' == hs && (w.next !in t.numberToHash || (t.Readable(w.next) && call.answer.NotFound?))
    case Failed => hs' == hs && w.next in t.numberToHash && (t.Readable(w.next) ==> call.answer.Bad?)
  }

  /** The canonical block is stored, with its body unless the header says that it is empty. */
  predicate HasBody(t: Tables, number: nat) {
    && number in t.numberToHash
    && var key := (number, t.numberToHash[number]);
       key in t.headers && (t.headers[key].emptyBody || key in t.bodies)
  }

  /** The callback number `i` had its block and ended well. */
  ghost predicate RanWell(t: Tables, calls: seq<Call>, from: nat, i: nat)
    requires i < |calls|
  {
    HasBody(t, from + 1 + i) && calls[i].answer.Good?
  }

  /** Where the iterator is after `ran` blocks. */
  ghost predicate QuietWalk(t: Tables, hs: HeadSet, name: string, from: nat, calls: seq<Call>, ran: nat, w: Walk,
                            t': Tables, hs': HeadSet) {
    && t' == t && ran <= |calls| && w.next == from + ran + 1 && from + ran in t.numberToHash
    && w.last == (if ran == 0 then None else t.GetCanonicalHeader(from + ran))
    && hs' == (if ran == 0 then hs else hs.(iterators := hs.iterators[name := t.numberToHash[from + ran]]))
    && forall i: nat | i < ran :: RanWell(t, calls, from, i)
  }

  lemma {:induction false} QuietOnward(t: Tables, hs: HeadSet, name: string, from: nat, calls: seq<Call>, ran: nat,
                                       w: Walk, t': Tables, hs': HeadSet, w': Walk, hs'': HeadSet)
    requires ran < |calls| && QuietWalk(t, hs, name, from, calls, ran, w, t', hs')
    requires QuietStep(t, hs', name, w, calls[ran], w', Onward, hs'')
    ensures QuietWalk(t, hs, name, from, calls, ran + 1, w', t', hs'')
  {
    assert t.GetCanonicalHeader(w.next).Some?;
    forall i: nat | i < ran + 1
      ensures RanWell(t, calls, from, i)
    {
      assert i == ran ==> from + 1 + i == w.next;
    }
    var m, h := hs.iterators, t.numberToHash[w.next];
    if ran > 0 {
      assert m[name := t.numberToHash[from + ran]][name := h] == m[name := h];
    }
  }

  /** How many blocks have been run, why no more, and where the head is. */
  ghost predicate IteratedFrom(t: Tables, hs: HeadSet, name: string, from: nat, maxBlocks: nat, calls: seq<Call>,
                               ran: nat, r: Outcome, t': Tables, hs': HeadSet)
    requires maxBlocks <= |calls|
  {
    var next := from + ran + 1;
    && t' == t && ran <= maxBlocks && from + ran in t.numberToHash
    && (forall i: nat | i < ran :: RanWell(t, calls, from, i))
    && hs' == (if ran == 0 then hs else hs.(iterators := hs.iterators[name := t.numberToHash[from + ran]]))
    && (r.Done? ==> ran == maxBlocks || next !in t.numberToHash || (HasBody(t, next) && calls[ran].answer.NotFound?))
    && (r.Threw? ==> ran < maxBlocks && next in t.numberToHash && (HasBody(t, next) ==> calls[ran].answer.Bad?))
  }

  lemma {:induction false} QuietEnd(t: Tables, hs: HeadSet, name: string, from: nat, maxBlocks: nat, calls: seq<Call>,
                                    ran: nat, w: Walk, t': Tables, hs': HeadSet, w': Walk, p: Progress, hs'': HeadSet)
    requires ran < maxBlocks <= |calls| && QuietWalk(t, hs, name, from, calls, ran, w, t', hs') && !p.Onward?
    requires QuietStep(t, hs', name, w, calls[ran], w', p, hs'')
    ensures IteratedFrom(t, hs, name, from, maxBlocks, calls, ran, if p.Ended? then Done else Threw, t', hs'')
  {
  }

  lemma {:induction false} QuietAll(t: Tables, hs: HeadSet, name: string, from: nat, maxBlocks: nat, calls: seq<Call>,
                                    w: Walk, t': Tables, hs': HeadSet)
    requires maxBlocks <= |calls| && QuietWalk(t, hs, name, from, calls, maxBlocks, w, t', hs')
    ensures IteratedFrom(t, hs, name, from, maxBlocks, calls, maxBlocks, Done, t', hs')
  {
  }

  /**
   * An iteration that comes to a canonical number without a block, or to a block whose body is missed, fails there:
   * that block is not run and the head is on the one before.
   */
  lemma {:induction false} StopsAtMissingBody(t: Tables, hs: HeadSet, name: string, from: nat, maxBlocks: nat,
                                              calls: seq<Call>, k: nat, ran: nat, r: Outcome, t': Tables, hs': HeadSet)
    requires k < maxBlocks <= |calls| && IteratedFrom(t, hs, name, from, maxBlocks, calls, ran, r, t', hs')
    requires forall i: nat | i < k :: RanWell(t, calls, from, i)
    requires from + 1 + k in t.numberToHash && !HasBody(t, from + 1 + k)
    ensures r == Threw && ran == k
    ensures k == 0 ==> hs' == hs
    ensures k > 0 ==> name in hs'.iterators && hs'.iterators[name] == t.numberToHash[from + k]
  {
    assert ran < k ==> RanWell(t, calls, from, ran);
    assert k < ran ==> RanWell(t, calls, from, k);
  }

  // ----- any iteration --------------------------------------------------------------------------

  /** What one round of the loop does: at most one callback, and without disturbance what `QuietStep` says. */
  ghost predicate Rounded(hash: HashOf, genesisHash: Hash, name: string, start: Hash, from: nat, w: Walk, call: Call,
                          t: Tables, hs: HeadSet, w': Walk, p: Progress, s: Option<Step>, t': Tables, hs': HeadSet) {
    && (w'.last.None? ==> w'.next == from + 1)
    && (s.None? ==> w' == w && !p.Onward? && t' == t && hs' == hs)
    && (s.Some? ==> && StepOk(hash, genesisHash, name, start, from, s.value) && s.value.last == w.last
                    && s.value.tables == t && s.value.heads == hs.iterators && p == Told(call.answer)
                    && w'.last == if s.value.kept then Some(s.value.block) else w.last)
    && (s.Some? ==> KeptOk(hash, name, s.value, p, t', hs'))
    && (call.during == [] && (w.last.Some? ==> w.next > 0 && w.last == t.GetCanonicalHeader(w.next - 1)) ==>
          t' == t && QuietStep(t, hs, name, w, call, w', p, hs'))
  }

  function Told(answer: Answer): Progress {
    match answer case Good => Onward case NotFound => Ended case Bad => Failed
  }

  /** A block is kept when its callback ended well and it is still canonical, and is the iterator's head then. */
  ghost predicate KeptOk(hash: HashOf, name: string, s: Step, p: Progress, t': Tables, hs': HeadSet) {
    && (s.kept <==> p.Onward? && HasBody(t', s.block.number) && t'.GetCanonicalHeader(s.block.number) == Some(s.block))
    && (s.kept ==> name in hs'.iterators && hs'.iterators[name] == hash(s.block))
  }

  /** The iterator's head is the block run last, if that was kept. */
  ghost predicate HeadOnLast(hash: HashOf, name: string, trace: seq<Step>, hs': HeadSet) {
    trace != [] && trace[|trace| - 1].kept ==>
      name in hs'.iterators && hs'.iterators[name] == hash(trace[|trace| - 1].block)
  }

  /** The state of the loop after `ran` rounds. */
  datatype Loop = Loop(ran: nat, w: Walk, trace: seq<Step>, tables: Tables, heads: HeadSet)

  ghost predicate Looping(hash: HashOf, genesisHash: Hash, name: string, start: Hash, from: nat, calls: seq<Call>,
                          t: Tables, hs: HeadSet, l: Loop) {
    && l.ran == |l.trace| && l.ran <= |calls| && (l.w.last.None? ==> l.w.next == from + 1)
    && Chained(l.trace) && LastKept(l.trace) == l.w.last && StepsOk(hash, genesisHash, name, start, from, l.trace)
    && HeadOnLast(hash, name, l.trace, l.heads)
    && (Undisturbed(calls) ==> QuietWalk(t, hs, name, from, calls, l.ran, l.w, l.tables, l.heads))
  }

  /** What an iteration comes to. */
  ghost predicate Iterated(hash: HashOf, genesisHash: Hash, name: string, start: Hash, from: nat, maxBlocks: nat,
                           calls: seq<Call>, t: Tables, hs: HeadSet, ran: nat, r: Outcome, trace: seq<Step>, t': Tables,
                           hs': HeadSet)
    requires maxBlocks <= |calls|
  {
    && ran <= maxBlocks && ran <= |trace| <= ran + 1
    && Chained(trace) && StepsOk(hash, genesisHash, name, start, from, trace) && HeadOnLast(hash, name, trace, hs')
    && (Undisturbed(calls) ==> IteratedFrom(t, hs, name, from, maxBlocks, calls, ran, r, t', hs'))
  }

  lemma {:induction false} LoopBegins(hash: HashOf, genesisHash: Hash, name: string, start: Hash, from: nat,
                                      calls: seq<Call>, t: Tables, hs: HeadSet)
    requires from in t.numberToHash
    ensures Looping(hash, genesisHash, name, start, from, calls, t, hs, Loop(0, Walk(from + 1, None), [], t, hs))
  {
  }

  /** A step is added to those before. */
  lemma {:induction false} StepAdded(hash: HashOf, genesisHash: Hash, name: string, start: Hash, from: nat,
                                     trace: seq<Step>, s: Step)
    requires Chained(trace) && s.last == LastKept(trace) && StepsOk(hash, genesisHash, name, start, from, trace)
    requires StepOk(hash, genesisHash, name, start, from, s)
    ensures Chained(trace + [s]) && LastKept(trace + [s]) == if s.kept then Some(s.block) else s.last
    ensures StepsOk(hash, genesisHash, name, start, from, trace + [s])
  {
    ChainedSnoc(trace, s);
  }

  lemma {:induction false} LoopGoesOn(hash: HashOf, genesisHash: Hash, name: string, start: Hash, from: nat,
                                      calls: seq<Call>, t: Tables, hs: HeadSet, l: Loop, s: Step, l': Loop)
    requires Looping(hash, genesisHash, name, start, from, calls, t, hs, l) && l.ran < |calls|
    requires Rounded(hash, genesisHash, name, start, from, l.w, calls[l.ran], l.tables, l.heads,
                     l'.w, Onward, Some(s), l'.tables, l'.heads)
    requires l'.ran == l.ran + 1 && l'.trace == l.trace + [s]
    ensures Looping(hash, genesisHash, name, start, from, calls, t, hs, l')
  {
    StepAdded(hash, genesisHash, name, start, from, l.trace, s);
    if Undisturbed(calls) {
      assert calls[l.ran] in calls;
      QuietOnward(t, hs, name, from, calls, l.ran, l.w, l.tables, l.heads, l'.w, l'.heads);
    }
  }

  lemma {:induction false} LoopStops(hash: HashOf, genesisHash: Hash, name: string, start: Hash, from: nat,
                                     maxBlocks: nat, calls: seq<Call>, t: Tables, hs: HeadSet, l: Loop, w': Walk,
                                     p: Progress, s: Option<Step>, t': Tables, hs': HeadSet)
    requires Looping(hash, genesisHash, name, start, from, calls, t, hs, l) && l.ran < maxBlocks <= |calls|
    requires Rounded(hash, genesisHash, name, start, from, l.w, calls[l.ran], l.tables, l.heads, w', p, s, t', hs')
    requires !p.Onward?
    ensures Iterated(hash, genesisHash, name, start, from, maxBlocks, calls, t, hs, l.ran,
                     if p.Ended? then Done else Threw, if s.Some? then l.trace + [s.value] else l.trace, t', hs')
  {
    if s.Some? {
      StepAdded(hash, genesisHash, name, start, from, l.trace, s.value);
    }
    if Undisturbed(calls) {
      assert calls[l.ran] in calls;
      QuietEnd(t, hs, name, from, maxBlocks, calls, l.ran, l.w, l.tables, l.heads, w', p, hs');
    }
  }

  lemma {:induction false} LoopIsDone(hash: HashOf, genesisHash: Hash, name: string, start: Hash, from: nat,
                                      calls: seq<Call>, t: Tables, hs: HeadSet, l: Loop)
    requires Looping(hash, genesisHash, name, start, from, calls, t, hs, l)
    ensures Iterated(hash, genesisHash, name, start, from, l.ran, calls, t, hs, l.ran, Done, l.trace, l.tables, l.heads)
  {
    if Undisturbed(calls) {
      QuietAll(t, hs, name, from, l.ran, calls, l.w, l.tables, l.heads);
    }
  }
}
