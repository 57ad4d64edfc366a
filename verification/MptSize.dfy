/**
 * How long the keys and values in a trie can get: no longer than those put in. Short ones fit RLP, and so all
 * that is left to assume of a history is that no two of the encodings that occur in it collide.
 */
module MptSize {
  import opened Bytes
  import opened Rlp
  import opened MptNode
  import opened MptTree
  import opened MptEdit
  import opened MptCanon

  /** No key is longer than `n`, and no value as long as 2^32. */
  ghost predicate Bounded(t: Tree, n: int) {
    match t
    case TLeaf(key, value) => |key| <= n && |value| < SIZE
    case TExt(key, child) => |key| <= n && Bounded(child, n - |key|)
    case TBranch(children, value) =>
      n >= 0 && |value| < SIZE && forall i {:trigger Bounded(children[i].value, n - 1)} | 0 <= i < |children| ::
        children[i].Some? ==> Bounded(children[i].value, n - 1)
  }

  ghost predicate BoundedIn(t: Option<Tree>, n: int) {
    t.Some? ==> Bounded(t.value, n)
  }

  lemma {:induction false} BoundedSmall(t: Tree, n: int)
    requires Bounded(t, n) && n < SIZE
    ensures Small(t)
    decreases t
  {
    if t.TExt? {
      BoundedSmall(t.child, n - |t.key|);
    } else if t.TBranch? {
      forall i | 0 <= i < |t.children| && t.children[i].Some?
        ensures Small(t.children[i].value)
      {
        assert Bounded(t.children[i].value, n - 1);
        BoundedSmall(t.children[i].value, n - 1);
      }
    }
  }

  /** The end of a path may be replaced by anything within the same bound. */
  lemma {:induction false} PlugBounded(frames: seq<Frame>, t: Tree, t': Tree, n: int)
    requires FramesOk(frames) && Bounded(Plug(frames, t), n)
    ensures Bounded(t, n - |PathKey(frames)|)
    ensures Bounded(t', n - |PathKey(frames)|) ==> Bounded(Plug(frames, t'), n)
  {
    if frames != [] {
      var f, a, b := frames[0], Plug(frames[1..], t), Plug(frames[1..], t');
      FrameBounded(f, a, b, n);
      assert n - |PathKey(frames)| == n - |FrameKey(f)| - |PathKey(frames[1..])|;
      PlugBounded(frames[1..], t, t', n - |FrameKey(f)|);
    }
  }

  lemma {:induction false} FrameBounded(f: Frame, a: Tree, b: Tree, n: int)
    requires FrameOk(f) && Bounded(Plug1(f, a), n)
    ensures Bounded(a, n - |FrameKey(f)|)
    ensures Bounded(b, n - |FrameKey(f)|) ==> Bounded(Plug1(f, b), n)
    ensures f.FBranch? ==> |f.value| < SIZE
    ensures f.FBranch? ==> SidesBounded(f, n)
  {
    if f.FBranch? {
      var cs, ds := f.children[f.index := Some(a)], f.children[f.index := Some(b)];
      assert cs[f.index] == Some(a);
      assert forall i | 0 <= i < 16 && i != f.index :: cs[i] == ds[i] == f.children[i];
      assert Bounded(cs[f.index].value, n - 1);
      assert Plug1(f, a) == TBranch(cs, f.value) && Plug1(f, b) == TBranch(ds, f.value);
    } else {
      assert Plug1(f, a) == TExt(f.key, a) && Plug1(f, b) == TExt(f.key, b);
      assert Bounded(TExt(f.key, b), n) <==> |f.key| <= n && Bounded(b, n - |f.key|);
    }
  }

  ghost predicate SidesBounded(f: Frame, n: int)
    requires f.FBranch?
  {
    forall i {:trigger Bounded(f.children[i].value, n - 1)} | 0 <= i < |f.children| && i != f.index ::
      f.children[i].Some? ==> Bounded(f.children[i].value, n - 1)
  }

  // ----- put --------------------------------------------------------------------------------

  lemma {:induction false} BranchForBounded(cur: Tree, m: nat, n: int)
    requires Wf(cur) && !cur.TBranch? && m <= |cur.key| && (cur.TExt? ==> m < |cur.key|) && Bounded(cur, n)
    ensures Bounded(BranchFor(cur, m), n - m)
  {
    var last := cur.key[m..];
    if last != [] {
      assert Bounded(Shrunk(cur, last[1..]), n - m - 1);
    }
  }

  lemma {:induction false} PutInBranchBounded(b: Tree, rest: Nibbles, value: Bytes, n: int)
    requires b.TBranch? && |b.children| == 16 && Bounded(b, n) && |rest| <= n && |value| < SIZE
    ensures Bounded(PutInBranch(b, rest, value), n)
  {
  }

  lemma {:induction false} PutAtBounded(cur: Tree, rest: Nibbles, value: Bytes, n: int)
    requires Wf(cur) && Stuck(cur, rest) && Bounded(cur, n) && |rest| <= n && |value| < SIZE
    ensures Bounded(PutAt(cur, rest, value), n)
  {
    if cur.TBranch? {
      PutInBranchBounded(cur, rest, value, n);
    } else if !(cur.TLeaf? && cur.key == rest) {
      var m := Match(cur.key, rest);
      BranchForBounded(cur, m, n);
      PutInBranchBounded(BranchFor(cur, m), rest[m..], value, n - m);
      ExtendBounded(cur.key[..m], PutInBranch(BranchFor(cur, m), rest[m..], value), n);
    }
  }

  lemma {:induction false} ExtendBounded(k: Nibbles, b: Tree, n: int)
    requires |k| <= n && Bounded(b, n - |k|)
    ensures Bounded(Extend(k, b), n)
  {
  }

  lemma {:induction false} PutBounded(t: Tree, k: Nibbles, value: Bytes, n: int)
    requires Wf(t) && Bounded(t, n) && |k| <= n && |value| < SIZE
    ensures Bounded(PutTree(t, k, value), n)
  {
    DescendPlug(t, k);
    var s := Descend(t, k);
    var m := n - |PathKey(s.frames)|;
    PlugBounded(s.frames, s.cur, PutAt(s.cur, s.rest, value), n);
    PutAtBounded(s.cur, s.rest, value, m);
  }

  // ----- del --------------------------------------------------------------------------------

  lemma {:induction false} PrependBounded(p: Nibbles, t: Tree, n: int)
    requires Bounded(t, n)
    ensures Bounded(Prepend(p, t), |p| + n)
  {
    if t.TExt? {
      assert |p| + n - |p + t.key| == n - |t.key|;
    } else if t.TBranch? {
      assert |p| + n - |p| == n;
    }
  }

  lemma {:induction false} HoistBounded(frames: seq<Frame>, j: Nibble, t: Tree, was: Tree, n: int)
    requires FramesOk(frames) && Bounded(Plug(frames, was), n) && Bounded(t, n - |PathKey(frames)| - 1)
    ensures Bounded(Hoist(frames, j, t), n)
  {
    if frames != [] && frames[|frames| - 1].FExt? {
      LastFrame(frames, was);
      HoistBoundedExt(frames[..|frames| - 1], frames[|frames| - 1], j, t, was, n);
    } else {
      PrependBounded([j], t, n - |PathKey(frames)| - 1);
      PlugBounded(frames, was, Prepend([j], t), n);
    }
  }

  lemma {:induction false} HoistBoundedExt(upper: seq<Frame>, f: Frame, j: Nibble, t: Tree, was: Tree, n: int)
    requires FramesOk(upper) && f.FExt? && Bounded(Plug(upper, Plug1(f, was)), n)
    requires Bounded(t, n - |PathKey(upper)| - |f.key| - 1)
    ensures Bounded(Plug(upper, Prepend(f.key + [j], t)), n)
  {
    PrependBounded(f.key + [j], t, n - |PathKey(upper)| - |f.key| - 1);
    PlugBounded(upper, Plug1(f, was), Prepend(f.key + [j], t), n);
  }

  lemma {:induction false} CollapseBounded(frames: seq<Frame>, children: seq<Option<Tree>>, value: Bytes, was: Tree,
                                           n: int)
    requires FramesOk(frames) && |children| == 16 && Bounded(Plug(frames, was), n)
    requires Bounded(TBranch(children, value), n - |PathKey(frames)|)
    ensures Bounded(Collapse(frames, children, value), n)
  {
    if HasOnlyChild(children) {
      var j: Nibble :| OnlyChild(children, j)
               && Collapse(frames, children, value) == Hoist(frames, j, children[j].value);
      HoistBounded(frames, j, children[j].value, was, n);
    } else {
      PlugBounded(frames, was, TBranch(children, value), n);
    }
  }

  lemma {:induction false} LeafOutBounded(upper: seq<Frame>, f: Frame, leaf: Tree, n: int)
    requires FramesOk(upper) && FrameOk(f) && f.FBranch? && Bounded(Plug(upper, Plug1(f, leaf)), n)
    ensures Bounded(Collapse(upper, f.children[f.index := None], f.value), n)
  {
    var cs := f.children[f.index := None];
    var m := n - |PathKey(upper)|;
    PlugBounded(upper, Plug1(f, leaf), Plug1(f, leaf), n);
    FrameBounded(f, leaf, leaf, m);
    assert Bounded(TBranch(cs, f.value), m);
    CollapseBounded(upper, cs, f.value, Plug1(f, leaf), n);
  }

  lemma {:induction false} DelBounded(t: Tree, k: Nibbles, n: int)
    requires Wf(t) && Bounded(t, n)
    ensures BoundedIn(DelTree(t, k), n)
  {
    DescendPlug(t, k);
    var s := Descend(t, k);
    if Found(s) && s.frames != [] {
      if s.cur.TLeaf? {
        LastFrame(s.frames, s.cur);
        LeafOutBounded(s.frames[..|s.frames| - 1], s.frames[|s.frames| - 1], s.cur, n);
      } else {
        PlugBounded(s.frames, s.cur, s.cur, n);
        CollapseBounded(s.frames, s.cur.children, s.cur.value, s.cur, n);
      }
    }
  }

  // ----- histories ----------------------------------------------------------------------------

  /** Keys of fewer than 2^31 bytes, which makes fewer than 2^32 nibbles, and values of fewer than 2^32. */
  ghost predicate ShortOps(ops: seq<Op>) {
    forall i | 0 <= i < |ops| :: ShortOp(ops[i])
  }

  predicate ShortOp(op: Op) {
    2 * |op.key| < SIZE && (op.Put? ==> |op.value| < SIZE)
  }

  lemma {:induction false} StepBounded(t: Option<Tree>, op: Op)
    requires t.Some? ==> Wf(t.value)
    requires BoundedIn(t, SIZE - 1) && ShortOp(op)
    ensures BoundedIn(Step(t, op), SIZE - 1)
  {
    var k := BytesToNibbles(op.key);
    NibbleCount(op.key);
    if t.Some? {
      if op.Del? || op.value == [] {
        DelBounded(t.value, k, SIZE - 1);
      } else {
        PutBounded(t.value, k, op.value, SIZE - 1);
      }
    }
  }

  /** Whatever the history, long keys and values come only from long ones put in. */
  lemma {:induction false} RunBounded(ops: seq<Op>)
    requires ShortOps(ops)
    ensures BoundedIn(Run(ops), SIZE - 1)
    ensures Run(ops).Some? ==> Small(Run(ops).value)
  {
    if ops != [] {
      RunBounded(ops[..|ops| - 1]);
      StepBounded(Run(ops[..|ops| - 1]), ops[|ops| - 1]);
    }
    if Run(ops).Some? {
      BoundedSmall(Run(ops).value, SIZE - 1);
    }
  }

  // ----- the encodings that occur ---------------------------------------------------------------

  /** `e` is the encoding of a node of the tree. */
  ghost predicate Occurs(hash: Hash, t: Tree, e: Bytes) {
    || e == EncOf(hash, t)
    || match t
       case TLeaf(_, _) => false
       case TExt(_, child) => Occurs(hash, child, e)
       case TBranch(children, _) => exists i {:trigger Occurs(hash, children[i].value, e)} | 0 <= i < |children| ::
         children[i].Some? && Occurs(hash, children[i].value, e)
  }

  /** The encodings in a trie, with that of the empty one. */
  ghost function Encodings(hash: Hash, t: Option<Tree>): iset<Bytes> {
    iset e: Bytes | e == RLP_EMPTY_STRING || (t.Some? && Occurs(hash, t.value, e))
  }

  lemma {:induction false} SmallKnown(hash: Hash, known: iset<Bytes>, t: Tree)
    requires forall x :: |hash(x)| == 32
    requires Wf(t) && Small(t) && forall e | Occurs(hash, t, e) :: e in known
    ensures Known(hash, known, t)
    decreases t
  {
    SmallTreesFit(hash, t);
    assert Occurs(hash, t, EncOf(hash, t));
    match t
    case TLeaf(_, _) =>
    case TExt(_, child) =>
      assert forall e | Occurs(hash, child, e) :: Occurs(hash, t, e);
      SmallKnown(hash, known, child);
    case TBranch(children, _) =>
      forall i | 0 <= i < |children| && children[i].Some?
        ensures Known(hash, known, children[i].value)
      {
        assert forall e | Occurs(hash, children[i].value, e) :: Occurs(hash, t, e);
        SmallKnown(hash, known, children[i].value);
      }
  }

  /** A history of short keys and values leads to a trie of which nothing more need be known. */
  lemma {:induction false} RunKnown(hash: Hash, known: iset<Bytes>, ops: seq<Op>)
    requires forall x :: |hash(x)| == 32
    requires ShortOps(ops) && Encodings(hash, Run(ops)) <= known
    ensures KnownIn(hash, known, Run(ops))
  {
    RunBounded(ops);
    if Run(ops).Some? {
      assert forall e | Occurs(hash, Run(ops).value, e) :: e in Encodings(hash, Run(ops));
      SmallKnown(hash, known, Run(ops).value);
    }
  }

  /** The encodings that occur at some point of a history. */
  ghost function AllEncodings(hash: Hash, ops: seq<Op>): iset<Bytes> {
    iset e: Bytes | OccursIn(hash, ops, e)
  }

  ghost predicate OccursIn(hash: Hash, ops: seq<Op>, e: Bytes) {
    e == RLP_EMPTY_STRING || exists i :: OccursAt(hash, ops, i, e)
  }

  ghost predicate OccursAt(hash: Hash, ops: seq<Op>, i: int, e: Bytes) {
    0 <= i <= |ops| && e in Encodings(hash, Run(ops[..i]))
  }

  lemma {:induction false} HistoryKnown(hash: Hash, ops: seq<Op>, i: nat)
    requires forall x :: |hash(x)| == 32
    requires ShortOps(ops) && i <= |ops|
    ensures KnownIn(hash, AllEncodings(hash, ops), Run(ops[..i]))
  {
    assert forall e | e in Encodings(hash, Run(ops[..i])) :: OccursAt(hash, ops, i, e);
    RunKnown(hash, AllEncodings(hash, ops), ops[..i]);
  }

  // ----- the root and the content ---------------------------------------------------------------

  /**
   * Two histories of puts and deletes over short keys of one non-zero length end in the same root exactly
   * when they end in the same map, if no two of the encodings at their ends collide.
   */
  lemma {:induction false} RootIsContent(hash: Hash, ops: seq<Op>, ops': seq<Op>, n: nat)
    requires n > 0 && KeysOf(ops, n) && KeysOf(ops', n) && ShortOps(ops) && ShortOps(ops')
    requires Sound(hash, Encodings(hash, Run(ops)) + Encodings(hash, Run(ops')))
    ensures RootIn(hash, Run(ops)) == RootIn(hash, Run(ops')) <==> MapRun(ops) == MapRun(ops')
  {
    var known := Encodings(hash, Run(ops)) + Encodings(hash, Run(ops'));
    RunKnown(hash, known, ops);
    RunKnown(hash, known, ops');
    RootOfKnown(hash, known, ops, ops', n);
  }
}
