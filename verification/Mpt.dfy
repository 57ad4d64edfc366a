/**
 * The trie (packages/merkel-trie/src/mpt.ts): `put`, `del` and `get` find a path as a stack of
 * nodes, edit the end of the stack and write it back bottom-up. Proved against the edits on the
 * tree that the root stands for.
 */
module Mpt {
  import opened Bytes
  import opened Rlp
  import opened MptNode
  import opened MptTree
  import opened MptEdit
  import opened MptCanon
  import opened MptStore
  import opened MptSize

  ghost function OwnKey(t: Tree): Nibbles {
    if t.TBranch? then [] else t.key
  }

  /** Formatting a node whose children are stored makes the node itself stored. */
  lemma {:induction false} Formatted(hash: Hash, known: iset<Bytes>, db: Db, ops: seq<DbPut>, t: Tree)
    requires Sound(hash, known) && DbOk(hash, known, db) && OpsOk(hash, known, ops)
    requires Known(hash, known, t) && Below(hash, Apply(db, ops), t)
    ensures var ops' := ops + [DbPut(RootOf(hash, t), EncOf(hash, t))];
            && OpsOk(hash, known, ops') && Grows(Apply(db, ops), Apply(db, ops'))
            && KeptRoot(hash, Apply(db, ops'), t) && Kept(hash, Apply(db, ops'), t)
    ensures |EncOf(hash, t)| < 32 ==> Kept(hash, Apply(db, ops), t)
  {
    RootNotEmpty(hash, known, t);
    ApplyOne(hash, known, db, ops, EncOf(hash, t));
    GrowsBelow(hash, Apply(db, ops), Apply(db, ops + [DbPut(RootOf(hash, t), EncOf(hash, t))]), t);
  }

  /** The walk has reached `cur` with `rest` of the key left, and `stack` holds the nodes above it. */
  ghost predicate At(hash: Hash, known: iset<Bytes>, db: Db, t: Tree, key: Nibbles, cur: Tree, rest: Nibbles, ref: Item,
                     stack: seq<Node>)
  {
    && Wf(cur) && Known(hash, known, cur) && Below(hash, db, cur)
    && ((ref == RefOf(hash, cur) && Kept(hash, db, cur)) || (ref == Str(RootOf(hash, cur)) && Has(hash, db, cur)))
    && stack + Trail(hash, cur, rest) == Trail(hash, t, key)
    && Descend(cur, rest).cur == Descend(t, key).cur
    && Descend(cur, rest).rest == Descend(t, key).rest
  }

  /** Where a descent not stuck at `cur` goes next. */
  ghost function Child(cur: Tree, rest: Nibbles): Tree
    requires Wf(cur) && !Stuck(cur, rest)
  {
    if cur.TExt? then cur.child else cur.children[rest[0]].value
  }

  ghost function Segment(cur: Tree): nat
    requires !cur.TLeaf?
  {
    if cur.TExt? then |cur.key| else 1
  }

  lemma {:induction false} ChildKept(hash: Hash, known: iset<Bytes>, db: Db, cur: Tree, rest: Nibbles)
    requires Wf(cur) && Known(hash, known, cur) && Below(hash, db, cur) && !Stuck(cur, rest)
    ensures var child := Child(cur, rest);
            Wf(child) && Known(hash, known, child) && Kept(hash, db, child) && Below(hash, db, child)
  {
  }

  lemma {:induction false} ChildTrail(hash: Hash, cur: Tree, rest: Nibbles)
    requires Wf(cur) && !Stuck(cur, rest)
    ensures 0 < Segment(cur) <= |rest|
    ensures var child, rest' := Child(cur, rest), rest[Segment(cur)..];
            && Trail(hash, cur, rest) == [NodeOf(hash, cur)] + Trail(hash, child, rest')
            && Descend(cur, rest).cur == Descend(child, rest').cur
                 && Descend(cur, rest).rest == Descend(child, rest').rest
  {
  }

  lemma {:induction false} StepDown(hash: Hash, known: iset<Bytes>, db: Db, t: Tree, key: Nibbles, cur: Tree,
                                    rest: Nibbles, ref: Item, stack: seq<Node>)
    requires At(hash, known, db, t, key, cur, rest, ref, stack) && !Stuck(cur, rest)
    ensures 0 < Segment(cur) <= |rest|
    ensures At(hash, known, db, t, key, Child(cur, rest), rest[Segment(cur)..],
               RefOf(hash, Child(cur, rest)), stack + [NodeOf(hash, cur)])
  {
    ChildKept(hash, known, db, cur, rest);
    ChildTrail(hash, cur, rest);
    var node, tail := NodeOf(hash, cur), Trail(hash, Child(cur, rest), rest[Segment(cur)..]);
    assert stack + [node] + tail == stack + ([node] + tail);
  }

  lemma {:induction false} StopHere(hash: Hash, known: iset<Bytes>, db: Db, t: Tree, key: Nibbles, cur: Tree,
                                    rest: Nibbles, ref: Item, stack: seq<Node>)
    requires At(hash, known, db, t, key, cur, rest, ref, stack) && Stuck(cur, rest)
    ensures stack + [NodeOf(hash, cur)] == Trail(hash, t, key)
    ensures Descend(t, key).cur == cur && Descend(t, key).rest == rest
  {
  }

  /** What `lookupNode` finds where the walk is: the node of the tree there. */
  lemma {:induction false} Present(hash: Hash, known: iset<Bytes>, db: Db, t: Tree, key: Nibbles, cur: Tree,
                                   rest: Nibbles, ref: Item, stack: seq<Node>, found: Option<Node>)
    requires At(hash, known, db, t, key, cur, rest, ref, stack)
    requires found.Some? ==> Denotes(db, ref, found.value)
    requires found.None? ==> forall m :: !Denotes(db, ref, m)
    ensures found == Some(NodeOf(hash, cur))
  {
    KeptDenotes(hash, known, db, ref, cur, NodeOf(hash, cur));
    if found.Some? {
      KeptDenotes(hash, known, db, ref, cur, found.value);
    }
  }

  /** What the walk does on a node: end, with or without a result, or go on to a child. */
  datatype Visit = Halt(found: bool, remaining: Nibbles) | Next(ref: Item, progress: nat)

  function OnFound(n: Node, targetKey: Nibbles, progress: nat): Visit
    requires progress <= |targetKey|
    requires n.Branch? ==> |n.children| == 16
  {
    var rest := targetKey[progress..];
    match n
    case Branch(children, _) =>
      if progress == |targetKey| then Halt(true, [])
      else if children[targetKey[progress]] == NULL then Halt(false, rest)
      else Next(children[targetKey[progress]], progress + 1)
    case Leaf(key, _) =>
      if key == rest then Halt(true, []) else Halt(false, rest)
    case Extension(key, child) =>
      if key <= rest then Next(child, progress + |key|) else Halt(false, rest)
  }

  /** On a node, the walk does what the descent does on the tree the node is of. */
  lemma {:induction false} OnFoundDescends(hash: Hash, cur: Tree, key: Nibbles, progress: nat)
    requires forall x :: |hash(x)| == 32
    requires Wf(cur) && progress <= |key|
    ensures var rest := key[progress..]; var found := Found(Spot([], cur, rest));
            OnFound(NodeOf(hash, cur), key, progress)
            == if Stuck(cur, rest) then Halt(found, if found then [] else rest)
               else Next(RefOf(hash, Child(cur, rest)), progress + Segment(cur))
  {
    var rest := key[progress..];
    if cur.TBranch? && rest != [] {
      assert NodeOf(hash, cur).children[rest[0]] == SlotOf(hash, cur.children[rest[0]]);
    }
  }

  /** Where a walk is after one node: at the end of the descent, or at the child that the descent goes to. */
  ghost predicate Advanced(hash: Hash, known: iset<Bytes>, db: Db, t: Tree, key: Nibbles, cur: Tree, progress: nat,
                           stack: seq<Node>, visit: Visit)
    requires progress <= |key| && Wf(cur)
  {
    match visit
    case Halt(found, remaining) =>
      && stack == Trail(hash, t, key) && Descend(t, key).cur == cur && found == Found(Descend(t, key))
      && remaining == if found then [] else Descend(t, key).rest
    case Next(childRef, next) =>
      && progress < next <= |key| && !Stuck(cur, key[progress..])
      && At(hash, known, db, t, key, Child(cur, key[progress..]), key[next..], childRef, stack)
  }

  lemma {:induction false} AdvanceHalt(hash: Hash, known: iset<Bytes>, db: Db, t: Tree, key: Nibbles, cur: Tree,
                                       progress: nat, ref: Item, stack: seq<Node>)
    requires forall x :: |hash(x)| == 32
    requires progress <= |key| && At(hash, known, db, t, key, cur, key[progress..], ref, stack)
    requires Stuck(cur, key[progress..])
    ensures Advanced(hash, known, db, t, key, cur, progress, stack + [NodeOf(hash, cur)],
                     OnFound(NodeOf(hash, cur), key, progress))
  {
    OnFoundDescends(hash, cur, key, progress);
    StopHere(hash, known, db, t, key, cur, key[progress..], ref, stack);
  }

  lemma {:induction false} NextNode(hash: Hash, known: iset<Bytes>, db: Db, t: Tree, key: Nibbles, cur: Tree,
                                    progress: nat, ref: Item, stack: seq<Node>)
    requires forall x :: |hash(x)| == 32
    requires progress <= |key| && At(hash, known, db, t, key, cur, key[progress..], ref, stack)
    requires !Stuck(cur, key[progress..])
    ensures var child, next := Child(cur, key[progress..]), progress + Segment(cur);
            && OnFound(NodeOf(hash, cur), key, progress) == Next(RefOf(hash, child), next)
            && progress < next <= |key|
            && At(hash, known, db, t, key, child, key[next..], RefOf(hash, child), stack + [NodeOf(hash, cur)])
  {
    OnFoundDescends(hash, cur, key, progress);
    StepDown(hash, known, db, t, key, cur, key[progress..], ref, stack);
    assert key[progress..][Segment(cur)..] == key[progress + Segment(cur)..];
  }

  lemma {:induction false} AdvanceNext(hash: Hash, known: iset<Bytes>, db: Db, t: Tree, key: Nibbles, cur: Tree,
                                       progress: nat, ref: Item, stack: seq<Node>)
    requires forall x :: |hash(x)| == 32
    requires progress <= |key| && At(hash, known, db, t, key, cur, key[progress..], ref, stack)
    requires !Stuck(cur, key[progress..])
    ensures Advanced(hash, known, db, t, key, cur, progress, stack + [NodeOf(hash, cur)],
                     OnFound(NodeOf(hash, cur), key, progress))
  {
    NextNode(hash, known, db, t, key, cur, progress, ref, stack);
  }

  /** One node of the walk. */
  lemma {:induction false} Advance(hash: Hash, known: iset<Bytes>, db: Db, t: Tree, key: Nibbles, cur: Tree,
                                   progress: nat, ref: Item, stack: seq<Node>)
    requires forall x :: |hash(x)| == 32
    requires progress <= |key| && At(hash, known, db, t, key, cur, key[progress..], ref, stack)
    ensures Advanced(hash, known, db, t, key, cur, progress, stack + [NodeOf(hash, cur)],
                     OnFound(NodeOf(hash, cur), key, progress))
  {
    if Stuck(cur, key[progress..]) {
      AdvanceHalt(hash, known, db, t, key, cur, progress, ref, stack);
    } else {
      AdvanceNext(hash, known, db, t, key, cur, progress, ref, stack);
    }
  }

  /** `lastRoot` is the reference of the rebuilt subtree from the n-th stack entry down, which is stored. */
  ghost predicate Saved(hash: Hash, db: Db, frames: seq<Frame>, bottom: Tree, n: nat, lastRoot: Item)
    requires n <= |frames|
  {
    var sub := Plug(frames[n..], bottom);
    if n == 0 then lastRoot == Str(RootOf(hash, sub)) && KeptRoot(hash, db, sub)
    else lastRoot == RefOf(hash, sub) && Kept(hash, db, sub)
  }

  /** The rebuilt subtree may be formatted next: this is its node, and its children are stored. */
  ghost predicate Ready(hash: Hash, known: iset<Bytes>, db: Db, frames: seq<Frame>, bottom: Tree, n: nat, node: Node)
    requires n <= |frames|
  {
    var sub := Plug(frames[n..], bottom);
    Known(hash, known, sub) && Below(hash, db, sub) && node == NodeOf(hash, sub)
  }

  lemma {:induction false} FormattedSaved(hash: Hash, known: iset<Bytes>, db: Db, ops: seq<DbPut>, frames: seq<Frame>,
                                          bottom: Tree, n: nat, node: Node, ref: Item, ops': seq<DbPut>)
    requires Sound(hash, known) && DbOk(hash, known, db) && OpsOk(hash, known, ops)
    requires FramesOk(frames) && n <= |frames| && Ready(hash, known, Apply(db, ops), frames, bottom, n, node)
    requires var e := Serialize(node);
             if |e| >= 32 || n == 0 then ref == Str(hash(e)) && ops' == ops + [DbPut(hash(e), e)]
             else ref == Raw(node) && ops' == ops
    ensures Saved(hash, Apply(db, ops'), frames, bottom, n, ref)
    ensures OpsOk(hash, known, ops') && Grows(Apply(db, ops), Apply(db, ops'))
  {
    Formatted(hash, known, db, ops, Plug(frames[n..], bottom));
  }

  /** The node with the reference of the one after it put in its place. */
  function Relinked(node: Node, key: Nibbles, ref: Item): Node {
    match node
    case Leaf(_, _) => node
    case Extension(_, _) => node.(child := ref)
    case Branch(children, _) =>
      if key == [] || key[|key| - 1] >= |children| then node
      else node.(children := children[key[|key| - 1] := ref])
  }

  lemma {:induction false} SubKnown(hash: Hash, known: iset<Bytes>, frames: seq<Frame>, bottom: Tree, n: nat)
    requires FramesOk(frames) && Known(hash, known, Plug(frames, bottom)) && n <= |frames|
    ensures Known(hash, known, Plug(frames[n..], bottom))
  {
    PlugSplit(frames, n, bottom);
    PlugKnown(hash, known, frames[..n], Plug(frames[n..], bottom));
  }

  /** Giving a node the reference of the one after it makes it the node of the rebuilt subtree. */
  lemma {:induction false} Rebuilt(hash: Hash, known: iset<Bytes>, db: Db, frames: seq<Frame>, bottom: Tree, n: nat,
                                   node: Node, ref: Item)
    requires FramesOk(frames) && Known(hash, known, Plug(frames, bottom)) && n < |frames|
    requires FrameNode(hash, frames[n], node) && SidesKept(hash, db, frames)
    requires Saved(hash, db, frames, bottom, n + 1, ref)
    ensures Ready(hash, known, db, frames, bottom, n, Relinked(node, PathKey(frames[..n + 1]), ref))
    ensures PathKey(frames[..n + 1]) == PathKey(frames[..n]) + FrameKey(frames[n])
  {
    var f := frames[n];
    assert frames[..n + 1] == frames[..n] + [f];
    PathKeySnoc(frames[..n], f);
    SubKnown(hash, known, frames, bottom, n);
    assert f.FBranch? ==> SideKept(hash, db, f);
    assert frames[n..] == [f] + frames[n + 1..];
    RebuiltNode(hash, db, f, frames[n + 1..], bottom, node, PathKey(frames[..n]), ref);
  }

  lemma {:induction false} RebuiltNode(hash: Hash, db: Db, f: Frame, rest: seq<Frame>, bottom: Tree, node: Node,
                                       above: Nibbles, ref: Item)
    requires FrameOk(f) && FrameNode(hash, f, node) && (f.FBranch? ==> SideKept(hash, db, f))
    requires var sub := Plug(rest, bottom); ref == RefOf(hash, sub) && Kept(hash, db, sub)
    ensures var t := Plug([f] + rest, bottom);
            Below(hash, db, t) && Relinked(node, above + FrameKey(f), ref) == NodeOf(hash, t)
  {
    assert ([f] + rest)[1..] == rest;
    FillFrame(hash, db, f, node, Plug(rest, bottom));
  }

  lemma {:induction false} PlugSplit(frames: seq<Frame>, n: nat, t: Tree)
    requires n <= |frames|
    ensures Plug(frames, t) == Plug(frames[..n], Plug(frames[n..], t))
  {
    if n > 0 {
      PlugSplit(frames[1..], n - 1, t);
      assert frames[..n][1..] == frames[1..][..n - 1] && frames[1..][n - 1..] == frames[n..];
    } else {
      assert frames[0..] == frames;
    }
  }

  /** What `findPath` found, as the rewriting needs it. */
  lemma {:induction false} OnPath(hash: Hash, db: Db, t: Tree, key: Nibbles)
    requires Wf(t) && Below(hash, db, t)
    ensures var s, stack := Descend(t, key), Trail(hash, t, key);
            && SpotOk(t, key, s) && |stack| == |s.frames| + 1 && stack[|s.frames|] == NodeOf(hash, s.cur)
            && PathOk(hash, db, s.frames, stack[..|s.frames|]) && Below(hash, db, s.cur)
            && key[|PathKey(s.frames)|..] == s.rest
  {
    DescendPlug(t, key);
    TrailFrames(hash, t, key);
    PlugKept(hash, db, Descend(t, key).frames, Descend(t, key).cur);
  }

  lemma {:induction false} PushFrame(hash: Hash, db: Db, frames: seq<Frame>, f: Frame, stack: seq<Node>, node: Node,
                                     t: Tree)
    requires PathOk(hash, db, frames, stack) && FrameOk(f) && FrameNode(hash, f, node)
    requires frames != [] && frames[|frames| - 1].FExt? ==> f.FBranch?
    requires f.FBranch? ==> SideKept(hash, db, f)
    ensures PathOk(hash, db, frames + [f], stack + [node])
    ensures PathKey(frames + [f]) == PathKey(frames) + FrameKey(f)
    ensures Plug(frames + [f], t) == Plug(frames, Plug1(f, t))
  {
    PathKeySnoc(frames, f);
    PlugSnoc(frames, f, t);
  }

  lemma {:induction false} ForkKnown(hash: Hash, known: iset<Bytes>, cur: Tree, rest: Nibbles, value: Bytes)
    requires Wf(cur) && Stuck(cur, rest) && !cur.TBranch? && !(cur.TLeaf? && cur.key == rest)
    requires Known(hash, known, PutAt(cur, rest, value))
    ensures var m := Match(cur.key, rest); var last := cur.key[m..];
            && (cur.TExt? ==> m < |cur.key|)
            && (last != [] ==> Known(hash, known, Shrunk(cur, last[1..])))
  {
    var m := Match(cur.key, rest);
    var last, b := cur.key[m..], BranchFor(cur, m);
    var put := PutInBranch(b, rest[m..], value);
    assert Known(hash, known, put);
    if last != [] {
      assert put.children[last[0]] == Some(Shrunk(cur, last[1..]));
    }
  }

  /** The node of the new branch, and what has to be stored for it. */
  lemma {:induction false} BranchForNode(hash: Hash, db: Db, cur: Tree, m: nat)
    requires !cur.TBranch? && m <= |cur.key| && (cur.TExt? ==> m < |cur.key|)
    ensures var last, nulls := cur.key[m..], seq(16, i => NULL);
            NodeOf(hash, BranchFor(cur, m))
            == if last == [] then Branch(nulls, cur.value)
               else Branch(nulls[last[0] := RefOf(hash, Shrunk(cur, last[1..]))], [])
    ensures var last := cur.key[m..];
            (last != [] ==> Kept(hash, db, Shrunk(cur, last[1..]))) ==> Below(hash, db, BranchFor(cur, m))
  {
    var last, nulls := cur.key[m..], seq(16, i => NULL);
    var cs := NodeOf(hash, BranchFor(cur, m)).children;
    assert cs == if last == [] then nulls else nulls[last[0] := RefOf(hash, Shrunk(cur, last[1..]))];
  }

  ghost function ForkFrames(frames: seq<Frame>, p: Nibbles): seq<Frame> {
    if p == [] then frames else frames + [FExt(p)]
  }

  /** The path down to the new branch, with an extension for the key part in front of it. */
  lemma {:induction false} ForkPath(hash: Hash, db: Db, frames: seq<Frame>, stack: seq<Node>, ext: Node, key: Nibbles,
                                    cur: Tree, rest: Nibbles, value: Bytes)
    requires PathOk(hash, db, frames, stack) && (frames != [] ==> frames[|frames| - 1].FBranch?)
    requires Wf(cur) && !cur.TBranch? && Stuck(cur, rest) && !(cur.TLeaf? && cur.key == rest)
    requires key == PathKey(frames) + rest
    requires ext.Extension? && ext.key == cur.key[..Match(cur.key, rest)]
    ensures var m := Match(cur.key, rest); var frames' := ForkFrames(frames, ext.key);
            && PathOk(hash, db, frames', if m != 0 then stack + [ext] else stack)
            && key == PathKey(frames') + rest[m..]
            && (cur.TExt? ==> m < |cur.key|)
            && Plug(frames', PutInBranch(BranchFor(cur, m), rest[m..], value)) == Plug(frames, PutAt(cur, rest, value))
  {
    var p, m := ext.key, Match(cur.key, rest);
    assert rest == p + rest[m..];
    assert cur.TExt? ==> m < |cur.key|;
    if p != [] {
      PushFrame(hash, db, frames, FExt(p), stack, ext, PutInBranch(BranchFor(cur, m), rest[m..], value));
      Assoc(PathKey(frames), p, rest[m..]);
    }
  }

  /** A new leaf at the end of the path. */
  lemma {:induction false} NewLeafPath(hash: Hash, db: Db, frames: seq<Frame>, f: Frame, stack: seq<Node>, node: Node,
                                       leaf: Node, key: Nibbles, rest: Nibbles, t: Tree)
    requires PathOk(hash, db, frames, stack) && FrameOk(f) && FrameNode(hash, f, node)
    requires f.FBranch? && SideKept(hash, db, f)
    requires rest != [] && f.index == rest[0] && key == PathKey(frames) + rest
    ensures (stack + [node, leaf])[..|frames| + 1] == stack + [node]
    ensures PathOk(hash, db, frames + [f], stack + [node])
    ensures key == PathKey(frames + [f]) + rest[1..]
    ensures Plug(frames + [f], t) == Plug(frames, Plug1(f, t))
  {
    PushFrame(hash, db, frames, f, stack, node, t);
    assert rest == [rest[0]] + rest[1..];
    Assoc(PathKey(frames), [rest[0]], rest[1..]);
  }

  /** An extension at the end of the path gives way to one with the child's nibble at the end of its key. */
  lemma {:induction false} HoistPath(hash: Hash, db: Db, frames: seq<Frame>, stack: seq<Node>, j: Nibble, t: Tree)
    requires PathOk(hash, db, frames, stack) && stack != [] && stack[|stack| - 1].Extension?
    ensures var n := |frames| - 1; var p := stack[n].key + [j];
            && frames[n] == FExt(stack[n].key)
            && PathOk(hash, db, frames[..n], stack[..n])
            && (n > 0 ==> frames[n - 1].FBranch?)
            && PathKey(frames) + [j] == PathKey(frames[..n]) + p
            && Hoist(frames, j, t) == Plug(frames[..n], Prepend(p, t))
  {
    var n := |frames| - 1;
    assert FrameNode(hash, frames[n], stack[n]);
    LastFrame(frames, t);
  }

  lemma {:induction false} GrowsOn(a: Db, b: Db, c: Db)
    requires Grows(a, b) && Grows(b, c)
    ensures Grows(a, c)
  {
  }

  class MerklePatriciaTrie {
    const hash: Hash
    var root: Bytes
    var db: Db
    /** The strings that occur as encodings in this trie's life. */
    ghost const known: iset<Bytes>
    /** The tree the root stands for, and all trees it has stood for. */
    ghost var tree: Option<Tree>
    ghost var past: set<Tree>

    ghost predicate Valid()
      reads this
    {
      && Sound(hash, known)
      && DbOk(hash, known, db)
      && root == RootIn(hash, tree)
      && (tree.Some? ==> tree.value in past)
      && forall t | t in past :: Wf(t) && Known(hash, known, t) && KeptRoot(hash, db, t)
    }

    constructor (hash: Hash, ghost known: iset<Bytes>)
      requires Sound(hash, known)
      ensures Valid() && tree == None && db == map[] && past == {}
      ensures this.hash == hash && this.known == known
    {
      this.hash := hash;
      this.known := known;
      root := hash(RLP_EMPTY_STRING);
      db := map[];
      tree := None;
      past := {};
    }

    /**
     * Sets the root to that of any tree whose nodes are stored, one the trie has had among them, or without a
     * value to that of the empty trie; fails for a value that has not the length of a root.
     */
    method SetRoot(value: Option<Bytes>, ghost t: Option<Tree>) returns (done: bool)
      requires Valid() && (t.Some? ==> Wf(t.value) && Known(hash, known, t.value) && KeptRoot(hash, db, t.value))
      requires if value.None? then t.None? else |value.value| == 32 ==> value.value == RootIn(hash, t)
      modifies this`root, this`tree, this`past
      ensures Valid() && old(past) <= past && (t.Some? && done ==> t.value in past)
      ensures done <==> value.None? || |value.value| == 32
      ensures if done then tree == t else tree == old(tree) && root == old(root)
    {
      var newRoot := if value.Some? then value.value else hash(RLP_EMPTY_STRING);
      if |newRoot| != 32 {
        return false;
      }
      root := newRoot;
      tree := t;
      if t.Some? {
        past := past + {t.value};
      }
      done := true;
    }

    // ----- reading ----------------------------------------------------------------------------

    /** The node a reference denotes; none when it is missing or malformed. */
    method LookupNode(ref: Item) returns (n: Option<Node>)
      ensures n.Some? ==> Denotes(db, ref, n.value)
      ensures n.None? ==> forall m :: !Denotes(db, ref, m)
    {
      match ref
      case List(_) =>
        n := DecodeRaw(ref);
      case Str(h) =>
        if h !in db {
          return None;
        }
        var item := Decode(db[h]);
        if item.Err? {
          return None;
        }
        n := DecodeRaw(item.value);
        if db[h] == [] {
          assert forall x | Fits(x) :: Enc(x) != [] by { forall x | Fits(x) ensures Enc(x) != [] { EncNonEmpty(x); } }
        } else {
          assert n.Some? ==> Stands(db[h], item.value, n.value);
          forall x, m | Stands(db[h], x, m)
            ensures x == item.value
          {
            PrefixFree(x, item.value, [], []);
          }
        }
    }

    /** The nodes along the key, whether the key's node was found, and the nibbles it was short of. */
    method FindPath(key: Nibbles) returns (node: Option<Node>, remaining: Nibbles, stack: seq<Node>)
      requires Valid()
      ensures tree.None? ==> node == None && remaining == [] && stack == []
      ensures tree.Some? ==>
                var s := Descend(tree.value, key);
                && stack == Trail(hash, tree.value, key)
                && node == (if Found(s) then Some(NodeOf(hash, s.cur)) else None)
                && remaining == (if Found(s) then [] else s.rest)
    {
      var ref := Str(root);
      var progress: nat := 0;
      stack := [];
      ghost var cur := if tree.Some? then tree.value else TLeaf([], []);
      assert key[0..] == key;
      while true
        invariant progress <= |key|
        invariant tree.None? ==> ref == Str(root) && stack == []
        invariant tree.Some? ==> At(hash, known, db, tree.value, key, cur, key[progress..], ref, stack)
        decreases |key| - progress
      {
        var found := LookupNode(ref);
        if tree.Some? {
          Present(hash, known, db, tree.value, key, cur, key[progress..], ref, stack, found);
        }
        if found.None? {
          return None, [], stack;
        }
        Advance(hash, known, db, tree.value, key, cur, progress, ref, stack);
        stack := stack + [found.value];
        match OnFound(found.value, key, progress)
        case Halt(ok, rest) =>
          return if ok then found else None, rest, stack;
        case Next(childRef, next) =>
          cur := Child(cur, key[progress..]);
          ref, progress := childRef, next;
      }
    }

    /** The value under the key, empty when there is none. */
    method Get(key: Bytes) returns (value: Bytes)
      requires Valid()
      ensures value == LookupIn(tree, BytesToNibbles(key))
    {
      var node, remaining, stack := FindPath(BytesToNibbles(key));
      value := [];
      if node.Some? && remaining == [] {
        AbsentWhenNotFound(tree.value, BytesToNibbles(key));
        match node.value
        case Leaf(_, v) => value := v;
        case Branch(_, v) => value := v;
        case Extension(_, _) => assert false;
      } else if tree.Some? {
        AbsentWhenNotFound(tree.value, BytesToNibbles(key));
      }
    }

    // ----- writing ----------------------------------------------------------------------------

    /** Queues the node for storing if it is too long to inline or at the top, and gives its reference. */
    method FormatNode(node: Node, topLevel: bool, opStack: seq<DbPut>) returns (ref: Item, ops: seq<DbPut>)
      ensures var e := Serialize(node);
              if |e| >= 32 || topLevel then ref == Str(hash(e)) && ops == opStack + [DbPut(hash(e), e)]
              else ref == Raw(node) && ops == opStack
    {
      var encoded := Encode(Raw(node));
      if |encoded| >= 32 || topLevel {
        ref := Str(hash(encoded));
        ops := opStack + [DbPut(hash(encoded), encoded)];
      } else {
        ref := Raw(node);
        ops := opStack;
      }
    }

    /** The body of the loop below up to `_formatNode`: takes the node's part off the key, and the new reference in. */
    method Relink(node: Node, key: Nibbles, lastRoot: Option<Item>) returns (node': Node, key': Nibbles)
      requires !node.Branch? ==> |node.key| <= |key|
      requires node.Branch? && lastRoot.Some? ==> key != [] && |node.children| == 16
      ensures node' == if lastRoot.Some? then Relinked(node, key, lastRoot.value) else node
      ensures key' == key[..|key| - if !node.Branch? then |node.key| else if lastRoot.Some? then 1 else 0]
    {
      node', key' := node, key;
      if !node.Branch? {
        key' := key'[..|key'| - |node.key|];
      }
      if node.Extension? && lastRoot.Some? {
        node' := node.(child := lastRoot.value);
      }
      if node.Branch? && lastRoot.Some? {
        var branchKey := key'[|key'| - 1];
        key' := key'[..|key'| - 1];
        node' := node.(children := node.children[branchKey := lastRoot.value]);
      }
    }

    /** One turn of the loop below: the node next to the end takes its reference in and is formatted. */
    method SaveTop(node: Node, key: Nibbles, lastRoot: Item, opStack: seq<DbPut>, ghost frames: seq<Frame>,
                   ghost bottom: Tree, n: nat)
        returns (ref: Item, key': Nibbles, ops: seq<DbPut>)
      requires Sound(hash, known) && DbOk(hash, known, db) && OpsOk(hash, known, opStack)
      requires FramesOk(frames) && Known(hash, known, Plug(frames, bottom)) && n < |frames|
      requires FrameNode(hash, frames[n], node) && key == PathKey(frames[..n + 1])
      requires SidesKept(hash, Apply(db, opStack), frames)
      requires Saved(hash, Apply(db, opStack), frames, bottom, n + 1, lastRoot)
      ensures Saved(hash, Apply(db, ops), frames, bottom, n, ref) && key' == PathKey(frames[..n])
      ensures OpsOk(hash, known, ops) && Grows(Apply(db, opStack), Apply(db, ops))
    {
      Rebuilt(hash, known, Apply(db, opStack), frames, bottom, n, node, lastRoot);
      var node';
      node', key' := Relink(node, key, Some(lastRoot));
      ref, ops := FormatNode(node', n == 0, opStack);
      FormattedSaved(hash, known, db, opStack, frames, bottom, n, node', ref, ops);
    }

    /** The stack belongs to the path and everything off it is stored, so that the path can be rewritten. */
    ghost predicate Writable(key: Nibbles, stack: seq<Node>, opStack: seq<DbPut>, frames: seq<Frame>, bottom: Tree)
      reads this
    {
      && OpsOk(hash, known, opStack)
      && |stack| == |frames| + 1 && stack[|frames|] == NodeOf(hash, bottom)
      && PathOk(hash, Apply(db, opStack), frames, stack[..|frames|])
      && Known(hash, known, Plug(frames, bottom)) && Below(hash, Apply(db, opStack), bottom)
      && key == PathKey(frames) + OwnKey(bottom)
    }

    /** The first turn of the loop below: the node at the end has no reference to take in. */
    method SaveBottom(key: Nibbles, stack: seq<Node>, opStack: seq<DbPut>, ghost frames: seq<Frame>, ghost bottom: Tree)
        returns (ref: Item, key': Nibbles, ops: seq<DbPut>)
      requires Sound(hash, known) && DbOk(hash, known, db)
      requires Writable(key, stack, opStack, frames, bottom)
      ensures OpsOk(hash, known, ops) && Grows(Apply(db, opStack), Apply(db, ops))
      ensures key' == PathKey(frames) && Saved(hash, Apply(db, ops), frames, bottom, |frames|, ref)
    {
      var n := |stack| - 1;
      var node', k := Relink(stack[n], key, None);
      assert frames[|frames|..] == [];
      PlugKnown(hash, known, frames, bottom);
      ref, ops := FormatNode(node', n == 0, opStack);
      FormattedSaved(hash, known, db, opStack, frames, bottom, |frames|, node', ref, ops);
      key' := k;
    }

    /** Every other turn, on the writes queued since `opStack`. */
    method SaveNext(node: Node, key: Nibbles, lastRoot: Item, ghost opStack: seq<DbPut>, ops: seq<DbPut>,
                    ghost frames: seq<Frame>, ghost bottom: Tree, n: nat)
        returns (ref: Item, key': Nibbles, ops': seq<DbPut>)
      requires Sound(hash, known) && DbOk(hash, known, db) && OpsOk(hash, known, ops)
      requires Grows(Apply(db, opStack), Apply(db, ops))
      requires FramesOk(frames) && Known(hash, known, Plug(frames, bottom)) && n < |frames|
      requires FrameNode(hash, frames[n], node) && key == PathKey(frames[..n + 1])
      requires SidesKept(hash, Apply(db, opStack), frames)
      requires Saved(hash, Apply(db, ops), frames, bottom, n + 1, lastRoot)
      ensures Saved(hash, Apply(db, ops'), frames, bottom, n, ref) && key' == PathKey(frames[..n])
      ensures OpsOk(hash, known, ops') && Grows(Apply(db, opStack), Apply(db, ops'))
    {
      SidesGrow(hash, Apply(db, opStack), Apply(db, ops), frames);
      ref, key', ops' := SaveTop(node, key, lastRoot, ops, frames, bottom, n);
      GrowsOn(Apply(db, opStack), Apply(db, ops), Apply(db, ops'));
    }

    /** Formats the stack from its end, giving each node the reference of the one after it. */
    method FormatStack(key: Nibbles, stack: seq<Node>, opStack: seq<DbPut>, ghost frames: seq<Frame>,
                       ghost bottom: Tree)
        returns (lastRoot: Item, ops: seq<DbPut>)
      requires Sound(hash, known) && DbOk(hash, known, db)
      requires Writable(key, stack, opStack, frames, bottom)
      ensures OpsOk(hash, known, ops) && Grows(Apply(db, opStack), Apply(db, ops))
      ensures Saved(hash, Apply(db, ops), frames, bottom, 0, lastRoot)
    {
      var k;
      lastRoot, k, ops := SaveBottom(key, stack, opStack, frames, bottom);
      var n := |stack| - 1;
      assert frames[..n] == frames;
      while n != 0
        invariant 0 <= n <= |frames|
        invariant OpsOk(hash, known, ops) && Grows(Apply(db, opStack), Apply(db, ops))
        invariant k == PathKey(frames[..n]) && Saved(hash, Apply(db, ops), frames, bottom, n, lastRoot)
        decreases n
      {
        n := n - 1;
        assert stack[n] == stack[..|frames|][n];
        lastRoot, k, ops := SaveNext(stack[n], k, lastRoot, opStack, ops, frames, bottom, n);
      }
    }

    /** Writes the path back: the root is then that of the tree with `bottom` at the path's end. */
    method SaveStack(key: Nibbles, stack: seq<Node>, opStack: seq<DbPut>, ghost frames: seq<Frame>, ghost bottom: Tree)
      requires Valid() && Writable(key, stack, opStack, frames, bottom) && Wf(Plug(frames, bottom))
      modifies this
      ensures Valid() && tree == Some(Plug(frames, bottom))
      ensures Grows(old(db), db) && past == old(past) + {Plug(frames, bottom)}
    {
      var lastRoot, ops := FormatStack(key, stack, opStack, frames, bottom);
      assert frames[0..] == frames;
      Store(lastRoot, ops, Plug(frames, bottom));
    }

    /** Makes the queued writes and moves to the new root. */
    method Store(lastRoot: Item, opStack: seq<DbPut>, ghost t: Tree)
      requires Valid() && OpsOk(hash, known, opStack)
      requires Wf(t) && Known(hash, known, t) && KeptRoot(hash, Apply(db, opStack), t)
      requires lastRoot == Str(RootOf(hash, t))
      modifies this
      ensures Valid() && tree == Some(t)
      ensures Grows(old(db), db) && past == old(past) + {t}
    {
      ApplyGrows(hash, known, db, opStack);
      forall t | t in past
        ensures KeptRoot(hash, Apply(db, opStack), t)
      {
        GrowsKept(hash, db, Apply(db, opStack), t);
      }
      root := lastRoot.bytes;
      db := Apply(db, opStack);
      tree := Some(t);
      past := past + {t};
    }

    /** The first node of an empty trie. */
    method CreateInitialNode(key: Nibbles, value: Bytes)
      requires Valid() && value != [] && Known(hash, known, TLeaf(key, value))
      modifies this
      ensures Valid() && tree == Some(TLeaf(key, value))
      ensures Grows(old(db), db) && past == old(past) + {TLeaf(key, value)}
    {
      var newNode := Leaf(key, value);
      var lastRoot, ops := FormatNode(newNode, true, []);
      Formatted(hash, known, db, [], TLeaf(key, value));
      Store(lastRoot, ops, TLeaf(key, value));
    }

    /** Both ways of putting into a branch end so: a new leaf on the stack, or the value in the branch. */
    method FillBranch(key: Nibbles, branch: Node, keyRemainder: Nibbles, value: Bytes, stack: seq<Node>,
                      toSave: seq<DbPut>, ghost frames: seq<Frame>, ghost b: Tree)
      requires Valid() && OpsOk(hash, known, toSave)
      requires b.TBranch? && Wf(b) && Stuck(b, keyRemainder) && branch == NodeOf(hash, b)
      requires PathOk(hash, Apply(db, toSave), frames, stack) && key == PathKey(frames) + keyRemainder
      requires Below(hash, Apply(db, toSave), b)
      requires var t := Plug(frames, PutInBranch(b, keyRemainder, value)); Wf(t) && Known(hash, known, t)
      modifies this
      ensures Valid() && tree == Some(Plug(frames, PutInBranch(b, keyRemainder, value)))
      ensures Grows(old(db), db) && past == old(past) + {tree.value}
    {
      if keyRemainder != [] {
        var newLeaf := Leaf(keyRemainder[1..], value);
        ghost var f := FBranch(b.children, keyRemainder[0], b.value);
        NewLeafPath(hash, Apply(db, toSave), frames, f, stack, branch, newLeaf, key, keyRemainder,
                    TLeaf(keyRemainder[1..], value));
        SaveStack(key, stack + [branch, newLeaf], toSave, frames + [f], TLeaf(keyRemainder[1..], value));
      } else {
        var filled := Branch(branch.children, value);
        assert (stack + [filled])[..|frames|] == stack;
        SaveStack(key, stack + [filled], toSave, frames, TBranch(b.children, value));
      }
    }

    /** The new branch with what is left of the old leaf or extension hanging in it. */
    method BranchOff(lastNode: Node, lastKey: Nibbles, ghost cur: Tree, ghost m: nat)
        returns (branch: Node, toSave: seq<DbPut>)
      requires Sound(hash, known) && DbOk(hash, known, db)
      requires !cur.TBranch? && Wf(cur) && m <= |cur.key| && (cur.TExt? ==> m < |cur.key|)
      requires lastNode == NodeOf(hash, cur) && lastKey == cur.key[m..] && Below(hash, db, cur)
      requires lastKey != [] ==> Known(hash, known, Shrunk(cur, lastKey[1..]))
      ensures OpsOk(hash, known, toSave) && Grows(db, Apply(db, toSave))
      ensures branch == NodeOf(hash, BranchFor(cur, m)) && Below(hash, Apply(db, toSave), BranchFor(cur, m))
    {
      branch, toSave := Branch(seq(16, i => NULL), []), [];
      if lastKey != [] {
        var branchKey, rest := lastKey[0], lastKey[1..];
        var ref;
        if rest != [] || lastNode.Leaf? {
          ref, toSave := FormatNode(lastNode.(key := rest), false, []);
          Formatted(hash, known, db, [], Shrunk(cur, rest));
        } else {
          ref := lastNode.child;
        }
        branch := Branch(branch.children[branchKey := ref], []);
      } else {
        branch := Branch(branch.children, lastNode.value);
      }
      BranchForNode(hash, Apply(db, toSave), cur, m);
    }

    /** Puts the value where the path ends: into the leaf, into the branch, or into a new branch. */
    method UpdateNode(key: Nibbles, value: Bytes, keyRemainder: Nibbles, stack: seq<Node>)
      requires Valid() && tree.Some? && value != [] && stack == Trail(hash, tree.value, key)
      requires var s := Descend(tree.value, key); keyRemainder == if Found(s) then [] else s.rest
      requires Wf(tree.value) && Known(hash, known, PutTree(tree.value, key, value))
      modifies this
      ensures Valid() && tree == Some(PutTree(old(tree.value), key, value))
      ensures Grows(old(db), db) && past == old(past) + {tree.value}
    {
      ghost var s := Descend(tree.value, key);
      OnPath(hash, db, tree.value, key);
      PutWf(tree.value, key, value);
      PlugKnown(hash, known, s.frames, PutAt(s.cur, s.rest, value));
      var lastNode, above := stack[|stack| - 1], stack[..|stack| - 1];
      var l := PathLength(above, s.frames);
      assert key[l..] == s.rest;
      if lastNode.Leaf? && keyRemainder == [] && Match(lastNode.key, key[l..]) == |lastNode.key| {
        assert lastNode.key == s.rest;
        var updated := Leaf(lastNode.key, value);
        assert (above + [updated])[..|s.frames|] == above;
        SaveStack(key, above + [updated], [], s.frames, TLeaf(s.rest, value));
      } else if lastNode.Branch? {
        FillBranch(key, lastNode, keyRemainder, value, above, [], s.frames, s.cur);
      } else {
        Fork(key, lastNode, value, keyRemainder, above, s.frames, s.cur);
      }
    }

    /** Puts a branch where the leaf or extension at the path's end and the key part. */
    method Fork(key: Nibbles, lastNode: Node, value: Bytes, keyRemainder: Nibbles, stack: seq<Node>,
                ghost frames: seq<Frame>, ghost cur: Tree)
      requires Valid() && Wf(cur) && lastNode == NodeOf(hash, cur) && Below(hash, db, cur)
      requires !cur.TBranch? && Stuck(cur, keyRemainder) && !(cur.TLeaf? && cur.key == keyRemainder)
      requires PathOk(hash, db, frames, stack)
      requires key == PathKey(frames) + keyRemainder && (frames != [] ==> frames[|frames| - 1].FBranch?)
      requires var t := Plug(frames, PutAt(cur, keyRemainder, value)); Wf(t) && Known(hash, known, t)
      modifies this
      ensures Valid() && tree == Some(Plug(frames, PutAt(cur, keyRemainder, value)))
      ensures Grows(old(db), db) && past == old(past) + {tree.value}
    {
      var m := Match(lastNode.key, keyRemainder);
      var branch, toSave := ForkOff(lastNode, value, keyRemainder, frames, cur);
      var newExt := Extension(lastNode.key[..m], Str(value));
      ForkPath(hash, Apply(db, toSave), frames, stack, newExt, key, cur, keyRemainder, value);
      FillBranch(key, branch, keyRemainder[m..], value, if m != 0 then stack + [newExt] else stack, toSave,
                 ForkFrames(frames, lastNode.key[..m]), BranchFor(cur, m));
    }

    method ForkOff(lastNode: Node, value: Bytes, keyRemainder: Nibbles, ghost frames: seq<Frame>, ghost cur: Tree)
        returns (branch: Node, toSave: seq<DbPut>)
      requires Sound(hash, known) && DbOk(hash, known, db)
      requires Wf(cur) && lastNode == NodeOf(hash, cur) && Below(hash, db, cur)
      requires !cur.TBranch? && Stuck(cur, keyRemainder) && !(cur.TLeaf? && cur.key == keyRemainder)
      requires FramesOk(frames) && SidesKept(hash, db, frames)
      requires Known(hash, known, Plug(frames, PutAt(cur, keyRemainder, value)))
      ensures var m := Match(cur.key, keyRemainder);
              && (cur.TExt? ==> m < |cur.key|)
              && branch == NodeOf(hash, BranchFor(cur, m)) && Below(hash, Apply(db, toSave), BranchFor(cur, m))
              && Wf(BranchFor(cur, m)) && Stuck(BranchFor(cur, m), keyRemainder[m..])
      ensures OpsOk(hash, known, toSave) && SidesKept(hash, Apply(db, toSave), frames)
    {
      var m := Match(lastNode.key, keyRemainder);
      PlugKnown(hash, known, frames, PutAt(cur, keyRemainder, value));
      ForkKnown(hash, known, cur, keyRemainder, value);
      BranchForWf(cur, m);
      branch, toSave := BranchOff(lastNode, lastNode.key[m..], cur, m);
      SidesGrow(hash, db, Apply(db, toSave), frames);
    }

    /** How many nibbles the nodes above the last one stand for. */
    method PathLength(stack: seq<Node>, ghost frames: seq<Frame>) returns (l: nat)
      requires FrameNodes(hash, frames, stack)
      ensures l == |PathKey(frames)|
    {
      l := 0;
      assert frames[..|frames|] == frames;
      for i := 0 to |stack|
        invariant l == |PathKey(frames[..i])|
      {
        assert FrameNode(hash, frames[i], stack[i]);
        assert frames[..i + 1] == frames[..i] + [frames[i]];
        PathKeySnoc(frames[..i], frames[i]);
        l := l + if stack[i].Branch? then 1 else |stack[i].key|;
      }
    }

    /** Indices and references of the children a branch has. */
    method GetChildren(branch: Node) returns (children: seq<(nat, Item)>)
      requires branch.Branch? && |branch.children| == 16
      ensures children == ChildrenUpTo(branch.children, 16)
    {
      children := [];
      for i := 0 to 16
        invariant children == ChildrenUpTo(branch.children, i)
      {
        if branch.children[i] != NULL {
          children := children + [(i, branch.children[i])];
        }
      }
    }

    /** Writes back a branch whose entries changed, or what takes its place when one child is left. */
    method CollapseBranch(key: Nibbles, branch: Node, stack: seq<Node>, ghost frames: seq<Frame>, ghost b: Tree)
      requires Valid() && b.TBranch? && Wf(b) && branch == NodeOf(hash, b) && Below(hash, db, b)
      requires PathOk(hash, db, frames, stack) && key == PathKey(frames)
      requires Known(hash, known, Collapse(frames, b.children, b.value))
      requires forall i | 0 <= i < 16 && b.children[i].Some? :: Known(hash, known, b.children[i].value)
      modifies this
      ensures Valid() && tree == Some(Collapse(frames, b.children, b.value))
      ensures Grows(old(db), db) && past == old(past) + {tree.value}
    {
      CollapseWf(frames, b.children, b.value);
      var branchNodes := GetChildren(branch);
      OneChildLeft(hash, b);
      if |branchNodes| == 1 {
        var index, ref := branchNodes[0].0, branchNodes[0].1;
        ghost var child := b.children[index].value;
        assert Kept(hash, db, child);
        var foundNode := LookupNode(ref);
        KeptDenotes(hash, known, db, ref, child, NodeOf(hash, child));
        KeptDenotes(hash, known, db, ref, child, foundNode.value);
        forall j: Nibble | OnlyChild(b.children, j)
          ensures j == index
        {
          OnlyChildUnique(b.children, index, j);
        }
        HoistChild(key, index, foundNode.value, stack, frames, child);
      } else {
        assert (stack + [branch])[..|frames|] == stack;
        SaveStack(key, stack + [branch], [], frames, b);
      }
    }

    /** Puts the only child, found at `branchKey`, where its branch was, merging the keys around it. */
    method HoistChild(key: Nibbles, branchKey: Nibble, branchNode: Node, stack: seq<Node>, ghost frames: seq<Frame>,
                      ghost t: Tree)
      requires Valid() && Wf(t) && branchNode == NodeOf(hash, t) && Below(hash, db, t)
      requires PathOk(hash, db, frames, stack) && key == PathKey(frames)
      requires Known(hash, known, Hoist(frames, branchKey, t)) && Wf(Hoist(frames, branchKey, t))
      modifies this
      ensures Valid() && tree == Some(Hoist(frames, branchKey, t))
      ensures Grows(old(db), db) && past == old(past) + {tree.value}
    {
      assert stack != [] ==> FrameNode(hash, frames[|frames| - 1], stack[|stack| - 1]);
      if stack == [] || stack[|stack| - 1].Branch? {
        HoistTo(key, [branchKey], [branchKey], Str([]), branchNode, stack, frames, t);
      } else {
        var parent := stack[|stack| - 1];
        HoistPath(hash, db, frames, stack, branchKey, t);
        HoistTo(key, [branchKey], parent.key + [branchKey], parent.child, branchNode, stack[..|stack| - 1],
                frames[..|frames| - 1], t);
      }
    }

    /** An extension with the key `p` over a branch; a leaf or extension takes `p` in front of its own key. */
    method HoistTo(key: Nibbles, branchKey: Nibbles, p: Nibbles, childRef: Item, branchNode: Node, stack: seq<Node>,
                   ghost frames: seq<Frame>, ghost t: Tree)
      requires Valid() && Wf(t) && branchNode == NodeOf(hash, t) && Below(hash, db, t)
      requires PathOk(hash, db, frames, stack)
      requires frames != [] ==> frames[|frames| - 1].FBranch?
      requires p != [] && key + branchKey == PathKey(frames) + p
      requires Known(hash, known, Plug(frames, Prepend(p, t))) && Wf(Plug(frames, Prepend(p, t)))
      modifies this
      ensures Valid() && tree == Some(Plug(frames, Prepend(p, t)))
      ensures Grows(old(db), db) && past == old(past) + {tree.value}
    {
      if branchNode.Branch? {
        var extension := Extension(p, childRef);
        PushFrame(hash, db, frames, FExt(p), stack, extension, t);
        assert (stack + [extension, branchNode])[..|frames| + 1] == stack + [extension];
        SaveStack(key + branchKey, stack + [extension, branchNode], [], frames + [FExt(p)], t);
      } else {
        MergeKey(key + branchKey, p, branchNode, stack, frames, t);
      }
    }

    method MergeKey(key: Nibbles, p: Nibbles, branchNode: Node, stack: seq<Node>, ghost frames: seq<Frame>,
                    ghost t: Tree)
      requires Valid() && !t.TBranch? && branchNode == NodeOf(hash, t) && Below(hash, db, t)
      requires PathOk(hash, db, frames, stack)
      requires key == PathKey(frames) + p
      requires Known(hash, known, Plug(frames, Prepend(p, t))) && Wf(Plug(frames, Prepend(p, t)))
      modifies this
      ensures Valid() && tree == Some(Plug(frames, Prepend(p, t)))
      ensures Grows(old(db), db) && past == old(past) + {tree.value}
    {
      var merged := branchNode.(key := p + branchNode.key);
      assert (stack + [merged])[..|frames|] == stack;
      Assoc(PathKey(frames), p, branchNode.key);
      SaveStack(key + branchNode.key, stack + [merged], [], frames, Prepend(p, t));
    }

    /** Removes the value at the path's end; `Branch.value(null)` leaves a branch's value as it is. */
    method DeleteNode(k: Nibbles, stack: seq<Node>)
      requires Valid() && tree.Some? && stack == Trail(hash, tree.value, k) && Found(Descend(tree.value, k))
      requires Wf(tree.value) && KnownIn(hash, known, DelTree(tree.value, k))
      modifies this
      ensures Valid() && tree == DelTree(old(tree.value), k)
      ensures Grows(old(db), db) && old(past) <= past
    {
      ghost var s := Descend(tree.value, k);
      OnPath(hash, db, tree.value, k);
      PlugKnown(hash, known, s.frames, s.cur);
      var lastNode, above := stack[|stack| - 1], stack[..|stack| - 1];
      if above == [] {
        root := hash(RLP_EMPTY_STRING);
        tree := None;
      } else if lastNode.Branch? {
        assert k == PathKey(s.frames);
        CollapseBranch(k, lastNode, above, s.frames, s.cur);
      } else {
        LastFrame(s.frames, s.cur);
        DeleteLeaf(k, lastNode, above, s.frames[..|s.frames| - 1], s.frames[|s.frames| - 1], s.cur);
      }
    }

    /** Takes the leaf out of the branch above it. */
    method DeleteLeaf(k: Nibbles, lastNode: Node, above: seq<Node>, ghost upper: seq<Frame>, ghost f: Frame,
                      ghost leaf: Tree)
      requires Valid() && FramesOk(upper) && FrameOk(f) && f.FBranch?
      requires leaf.TLeaf? && lastNode == NodeOf(hash, leaf) && FrameNodes(hash, upper + [f], above)
      requires k == PathKey(upper) + [f.index] + leaf.key
      requires Known(hash, known, Plug(upper, Plug1(f, leaf))) && Below(hash, db, Plug(upper, Plug1(f, leaf)))
      requires SideKept(hash, db, f)
      requires Known(hash, known, Collapse(upper, f.children[f.index := None], f.value))
      modifies this
      ensures Valid() && tree == Some(Collapse(upper, f.children[f.index := None], f.value))
      ensures Grows(old(db), db) && past == old(past) + {tree.value}
    {
      PlugKnown(hash, known, upper, Plug1(f, leaf));
      PlugKept(hash, db, upper, Plug1(f, leaf));
      var parentNode := above[|above| - 1];
      assert FrameNode(hash, (upper + [f])[|upper|], parentNode);
      assert FrameNodes(hash, upper, above[..|upper|]) by {
        assert forall i | 0 <= i < |upper| :: FrameNode(hash, (upper + [f])[i], above[i]);
      }
      var key := k[..|k| - |lastNode.key|];
      assert key == PathKey(upper) + [f.index];
      var branchKey := key[|key| - 1];
      var branch := parentNode.(children := parentNode.children[branchKey := NULL]);
      LeafOut(hash, known, db, f, leaf, parentNode);
      CollapseBranch(key[..|key| - 1], branch, above[..|above| - 1], upper,
                     TBranch(f.children[f.index := None], f.value));
    }

    // ----- the interface ------------------------------------------------------------------------

    /** Stores the value; an empty value deletes. The trie becomes what `Step` says. */
    method Put(key: Bytes, value: Bytes)
      requires Valid() && KnownIn(hash, known, Step(tree, Op.Put(key, value)))
      modifies this
      ensures Valid() && tree == Step(old(tree), Op.Put(key, value))
      ensures Grows(old(db), db) && old(past) <= past
    {
      if value == [] {
        Del(key);
        return;
      }
      var k := BytesToNibbles(key);
      if tree.Some? {
        RootNotEmpty(hash, known, tree.value);
      }
      if root == hash(RLP_EMPTY_STRING) {
        CreateInitialNode(k, value);
      } else {
        var node, remaining, stack := FindPath(k);
        UpdateNode(k, value, remaining, stack);
      }
    }

    /** Deletes what is stored under the key. The trie becomes what `Step` says. */
    method Del(key: Bytes)
      requires Valid() && KnownIn(hash, known, Step(tree, Op.Del(key)))
      modifies this
      ensures Valid() && tree == Step(old(tree), Op.Del(key))
      ensures Grows(old(db), db) && old(past) <= past
    {
      var k := BytesToNibbles(key);
      var node, remaining, stack := FindPath(k);
      if node.Some? {
        DeleteNode(k, stack);
      }
    }
  }

  // ----- deletion, node by node ---------------------------------------------------------------

  function ChildrenUpTo(slots: seq<Item>, n: nat): seq<(nat, Item)>
    requires n <= |slots|
  {
    if n == 0 then []
    else ChildrenUpTo(slots, n - 1) + if slots[n - 1] != NULL then [(n - 1, slots[n - 1])] else []
  }

  lemma {:induction false} ChildrenCount(slots: seq<Item>, n: nat)
    requires n <= |slots|
    ensures ChildrenUpTo(slots, n) == [] <==> AllNull(slots, n)
    ensures |ChildrenUpTo(slots, n)| == 1 ==>
              var (j, ref) := ChildrenUpTo(slots, n)[0]; j < n && ref == slots[j] && OnlySlot(slots, n, j)
    ensures forall j: nat | j < n && OnlySlot(slots, n, j) :: |ChildrenUpTo(slots, n)| == 1
  {
    if n > 0 {
      ChildrenCount(slots, n - 1);
      assert AllNull(slots, n) <==> AllNull(slots, n - 1) && slots[n - 1] == NULL;
      forall j: nat | j < n
        ensures OnlySlot(slots, n, j)
                <==> if j == n - 1 then slots[j] != NULL && AllNull(slots, j)
                     else OnlySlot(slots, n - 1, j) && slots[n - 1] == NULL
      {
      }
    }
  }

  predicate AllNull(slots: seq<Item>, n: nat)
    requires n <= |slots|
  {
    forall i | 0 <= i < n :: slots[i] == NULL
  }

  predicate OnlySlot(slots: seq<Item>, n: nat, j: nat)
    requires j < n <= |slots|
  {
    slots[j] != NULL && forall i | 0 <= i < n && i != j :: slots[i] == NULL
  }

  lemma {:induction false} SlotNull(hash: Hash, b: Tree, i: nat)
    requires forall x :: |hash(x)| == 32
    requires b.TBranch? && |b.children| == 16 && i < 16
    ensures NodeOf(hash, b).children[i] == SlotOf(hash, b.children[i])
    ensures NodeOf(hash, b).children[i] == NULL <==> b.children[i].None?
  {
  }

  /** A branch node has one child slot filled exactly when its tree has an only child. */
  lemma {:induction false} OneChildLeft(hash: Hash, b: Tree)
    requires forall x :: |hash(x)| == 32
    requires b.TBranch? && |b.children| == 16
    ensures var children := ChildrenUpTo(NodeOf(hash, b).children, 16);
            && (|children| == 1 <==> HasOnlyChild(b.children))
            && (|children| == 1 ==>
                  && children[0].0 < 16 && OnlyChild(b.children, children[0].0)
                  && children[0].1 == RefOf(hash, b.children[children[0].0].value))
  {
    var slots := NodeOf(hash, b).children;
    forall i: nat | i < 16
      ensures slots[i] == NULL <==> b.children[i].None?
    {
      SlotNull(hash, b, i);
    }
    ChildrenCount(slots, 16);
    var children := ChildrenUpTo(slots, 16);
    if |children| == 1 {
      SlotNull(hash, b, children[0].0);
      assert OnlyChild(b.children, children[0].0);
    }
    if HasOnlyChild(b.children) {
      var j: Nibble :| OnlyChild(b.children, j);
      assert OnlySlot(slots, 16, j);
    }
  }

  lemma {:induction false} OnlyChildUnique(children: seq<Option<Tree>>, i: Nibble, j: Nibble)
    requires OnlyChild(children, i) && OnlyChild(children, j)
    ensures i == j
  {
  }

  /** The branch node without the leaf is the node of the branch without the leaf. */
  lemma {:induction false} LeafOut(hash: Hash, known: iset<Bytes>, db: Db, f: Frame, leaf: Tree, n: Node)
    requires FrameOk(f) && f.FBranch? && FrameNode(hash, f, n) && SideKept(hash, db, f)
    requires Known(hash, known, Plug1(f, leaf))
    ensures var b := TBranch(f.children[f.index := None], f.value);
            && n.(children := n.children[f.index := NULL]) == NodeOf(hash, b)
            && Below(hash, db, b) && Wf(b)
            && forall i | 0 <= i < 16 && b.children[i].Some? :: Known(hash, known, b.children[i].value)
  {
    var b, was := TBranch(f.children[f.index := None], f.value), Plug1(f, leaf);
    assert n.children[f.index := NULL] == NodeOf(hash, b).children;
    assert forall i | 0 <= i < 16 && i != f.index :: was.children[i] == b.children[i];
  }
}
