/**
 * What a trie stands for: the tree its root resolves to, that tree's content, and the edits
 * `put` and `del` make to it.
 */
module MptTree {
  import opened Bytes
  import opened Rlp
  import opened MptNode

  datatype Tree =
    | TLeaf(key: Nibbles, value: Bytes)
    | TExt(key: Nibbles, child: Tree)
    | TBranch(children: seq<Option<Tree>>, value: Bytes)

  /** The value stored under `k`; the empty string when there is none. */
  ghost function Lookup(t: Tree, k: Nibbles): Bytes {
    match t
    case TLeaf(key, value) => if k == key then value else []
    case TExt(key, child) => if key <= k then Lookup(child, k[|key|..]) else []
    case TBranch(children, value) =>
      if k == [] then value
      else if k[0] < |children| && children[k[0]].Some? then Lookup(children[k[0]].value, k[1..])
      else []
  }

  /** The shape every operation keeps, whatever the keys. */
  ghost predicate Wf(t: Tree) {
    match t
    case TLeaf(_, value) => value != []
    case TExt(key, child) => key != [] && child.TBranch? && Wf(child)
    case TBranch(children, _) =>
      |children| == 16 && forall i {:trigger Wf(children[i].value)} | 0 <= i < 16 :: children[i].Some? ==>
        Wf(children[i].value)
  }

  // ----- references -----------------------------------------------------------------------

  type Hash = Bytes -> Bytes

  ghost function NodeOf(hash: Hash, t: Tree): Node
    decreases t, 0
  {
    match t
    case TLeaf(key, value) => Leaf(key, value)
    case TExt(key, child) => Extension(key, RefOf(hash, child))
    case TBranch(children, value) =>
      Branch(seq(|children|, i requires 0 <= i < |children| =>
        if children[i].Some? then RefOf(hash, children[i].value) else NULL), value)
  }

  ghost function EncOf(hash: Hash, t: Tree): Bytes
    decreases t, 1
  {
    Serialize(NodeOf(hash, t))
  }

  ghost function RefOf(hash: Hash, t: Tree): Item
    decreases t, 2
  {
    if |EncOf(hash, t)| >= 32 then Str(hash(EncOf(hash, t))) else Raw(NodeOf(hash, t))
  }

  ghost function SlotOf(hash: Hash, o: Option<Tree>): Item {
    if o.Some? then RefOf(hash, o.value) else NULL
  }

  ghost function RootOf(hash: Hash, t: Tree): Bytes {
    hash(EncOf(hash, t))
  }

  const RLP_EMPTY_STRING: Bytes := [0x80]

  /**
   * The hash gives 32 bytes and has no collision among the strings of `known`, the encodings
   * that occur. (No hash is free of collisions on all strings.)
   */
  ghost predicate Sound(hash: Hash, known: iset<Bytes>) {
    && (forall x :: |hash(x)| == 32)
    && (forall x, y | x in known && y in known :: hash(x) == hash(y) ==> x == y)
    && RLP_EMPTY_STRING in known
  }

  /** All nodes of the tree fit RLP and have their encodings among the `known` strings. */
  ghost predicate Known(hash: Hash, known: iset<Bytes>, t: Tree) {
    && Fits(Raw(NodeOf(hash, t)))
    && EncOf(hash, t) in known
    && match t
       case TLeaf(_, _) => true
       case TExt(_, child) => Known(hash, known, child)
       case TBranch(children, _) => forall i {:trigger Known(hash, known, children[i].value)} | 0 <= i < |children| ::
         children[i].Some? ==> Known(hash, known, children[i].value)
  }

  /** Keys and values shorter than 2^32. */
  ghost predicate Small(t: Tree) {
    match t
    case TLeaf(key, value) => |key| < SIZE && |value| < SIZE
    case TExt(key, child) => |key| < SIZE && Small(child)
    case TBranch(children, value) =>
      |value| < SIZE && forall i | 0 <= i < |children| :: children[i].Some? ==> Small(children[i].value)
  }

  /** Such keys and values are more than small enough for every node to fit RLP. */
  lemma {:induction false} SmallTreesFit(hash: Hash, t: Tree)
    requires forall x :: |hash(x)| == 32
    requires Wf(t) && Small(t)
    ensures Fits(Raw(NodeOf(hash, t))) && SlotOk(RefOf(hash, t))
  {
    match t {
      case TLeaf(_, _) =>
      case TExt(_, child) => SmallTreesFit(hash, child);
      case TBranch(children, _) =>
        StringBound([]);
        forall i | 0 <= i < 16 && children[i].Some?
          ensures SlotOk(RefOf(hash, children[i].value))
        {
          SmallTreesFit(hash, children[i].value);
        }
    }
    NodeFits(NodeOf(hash, t));
    var e := EncOf(hash, t);
    StringBound(hash(e));
    assert |Enc(Str(hash(e)))| == 33;
  }

  /** The hash of a node is never the root of the empty trie. */
  lemma {:induction false} RootNotEmpty(hash: Hash, known: iset<Bytes>, t: Tree)
    requires Sound(hash, known) && Known(hash, known, t)
    ensures RootOf(hash, t) != hash(RLP_EMPTY_STRING) && EncOf(hash, t) != RLP_EMPTY_STRING
  {
    if EncOf(hash, t) == RLP_EMPTY_STRING {
      assert Enc(Str([])) == RLP_EMPTY_STRING;
      StringBound([]);
      PrefixFree(Raw(NodeOf(hash, t)), Str([]), [], []);
    }
  }

  /** Equal nodes, equal trees: with no collisions a reference stands for one tree only. */
  lemma {:induction false} NodeInjective(hash: Hash, known: iset<Bytes>, a: Tree, b: Tree)
    requires Sound(hash, known) && Wf(a) && Wf(b) && Known(hash, known, a) && Known(hash, known, b)
    requires NodeOf(hash, a) == NodeOf(hash, b)
    ensures a == b
    decreases a, 0
  {
    match a {
      case TLeaf(_, _) =>
      case TExt(_, child) => RefInjective(hash, known, child, b.child);
      case TBranch(children, _) =>
        forall i | 0 <= i < 16
          ensures children[i] == b.children[i]
        {
          assert NodeOf(hash, a).children[i] == NodeOf(hash, b).children[i];
          SlotInjective(hash, known, children[i], b.children[i]);
        }
    }
  }

  lemma {:induction false} SlotInjective(hash: Hash, known: iset<Bytes>, a: Option<Tree>, b: Option<Tree>)
    requires Sound(hash, known)
    requires a.Some? ==> Wf(a.value) && Known(hash, known, a.value)
    requires b.Some? ==> Wf(b.value) && Known(hash, known, b.value)
    requires SlotOf(hash, a) == SlotOf(hash, b)
    ensures a == b
    decreases a, 2
  {
    if a.Some? && b.Some? {
      RefInjective(hash, known, a.value, b.value);
    }
  }

  lemma {:induction false} RefInjective(hash: Hash, known: iset<Bytes>, a: Tree, b: Tree)
    requires Sound(hash, known) && Wf(a) && Wf(b) && Known(hash, known, a) && Known(hash, known, b)
    requires RefOf(hash, a) == RefOf(hash, b) || RootOf(hash, a) == RootOf(hash, b)
    ensures a == b
    decreases a, 1
  {
    DecodeRawNode(NodeOf(hash, a));
    DecodeRawNode(NodeOf(hash, b));
    if RefOf(hash, a) != RefOf(hash, b) || RefOf(hash, a).Str? {
      assert EncOf(hash, a) == EncOf(hash, b);
      SerializeInjective(NodeOf(hash, a), NodeOf(hash, b));
    }
    NodeInjective(hash, known, a, b);
  }

  // ----- paths ----------------------------------------------------------------------------

  /** A node on the way down, with the place where the next one hangs. */
  datatype Frame =
    | FExt(key: Nibbles)
    | FBranch(children: seq<Option<Tree>>, index: Nibble, value: Bytes)

  ghost function FrameKey(f: Frame): Nibbles {
    match f
    case FExt(key) => key
    case FBranch(_, index, _) => [index]
  }

  ghost function PathKey(frames: seq<Frame>): Nibbles {
    if frames == [] then [] else FrameKey(frames[0]) + PathKey(frames[1..])
  }

  ghost predicate FrameOk(f: Frame) {
    match f
    case FExt(key) => key != []
    case FBranch(children, _, _) =>
      |children| == 16 && forall i {:trigger Wf(children[i].value)} | 0 <= i < 16 :: children[i].Some? ==>
        Wf(children[i].value)
  }

  ghost predicate FramesOk(frames: seq<Frame>) {
    && (forall i | 0 <= i < |frames| :: FrameOk(frames[i]))
    && (forall i | 0 <= i < |frames| - 1 :: frames[i].FExt? ==> frames[i + 1].FBranch?)
  }

  ghost function Plug1(f: Frame, t: Tree): Tree {
    match f
    case FExt(key) => TExt(key, t)
    case FBranch(children, index, value) =>
      TBranch(if index < |children| then children[index := Some(t)] else children, value)
  }

  /** The tree with `t` at the end of the path. */
  ghost function Plug(frames: seq<Frame>, t: Tree): Tree {
    if frames == [] then t else Plug1(frames[0], Plug(frames[1..], t))
  }

  /** Where the descent along a key ends. */
  datatype Spot = Spot(frames: seq<Frame>, cur: Tree, rest: Nibbles)

  ghost function Descend(t: Tree, k: Nibbles): Spot {
    match t
    case TLeaf(_, _) => Spot([], t, k)
    case TExt(key, child) =>
      if key <= k then
        var s := Descend(child, k[|key|..]);
        s.(frames := [FExt(key)] + s.frames)
      else Spot([], t, k)
    case TBranch(children, value) =>
      if k == [] || k[0] >= |children| || children[k[0]].None? then Spot([], t, k)
      else
        var s := Descend(children[k[0]].value, k[1..]);
        s.(frames := [FBranch(children, k[0], value)] + s.frames)
  }

  ghost predicate SpotOk(t: Tree, k: Nibbles, s: Spot) {
    && FramesOk(s.frames) && Wf(s.cur)
    && Plug(s.frames, s.cur) == t
    && PathKey(s.frames) + s.rest == k
    && (s.frames != [] && s.frames[|s.frames| - 1].FExt? ==> s.cur.TBranch?)
    && (t.TBranch? && s.frames != [] ==> s.frames[0].FBranch?)
    && Stuck(s.cur, s.rest)
  }

  /** No child of `cur` follows `rest`. */
  ghost predicate Stuck(cur: Tree, rest: Nibbles) {
    match cur
    case TLeaf(_, _) => true
    case TExt(key, _) => !(key <= rest)
    case TBranch(children, _) => rest == [] || rest[0] >= |children| || children[rest[0]].None?
  }

  /** The descent takes the tree apart without losing anything, and stops where no child follows the key. */
  lemma {:induction false} DescendPlug(t: Tree, k: Nibbles)
    requires Wf(t)
    ensures SpotOk(t, k, Descend(t, k))
    decreases |k|
  {
    if t.TExt? && t.key <= k {
      DescendPlug(t.child, k[|t.key|..]);
      DescendExt(t, k);
    } else if t.TBranch? && k != [] && t.children[k[0]].Some? {
      DescendPlug(t.children[k[0]].value, k[1..]);
      DescendBranch(t, k);
    }
  }

  lemma {:induction false} DescendExt(t: Tree, k: Nibbles)
    requires t.TExt? && t.key != [] && t.child.TBranch? && t.key <= k
    requires SpotOk(t.child, k[|t.key|..], Descend(t.child, k[|t.key|..]))
    ensures SpotOk(t, k, Descend(t, k))
  {
    DescendStep(FExt(t.key), t.child, k[|t.key|..], Descend(t.child, k[|t.key|..]));
    assert t.key + k[|t.key|..] == k;
  }

  lemma {:induction false} DescendBranch(t: Tree, k: Nibbles)
    requires t.TBranch? && Wf(t) && k != [] && t.children[k[0]].Some?
    requires SpotOk(t.children[k[0]].value, k[1..], Descend(t.children[k[0]].value, k[1..]))
    ensures SpotOk(t, k, Descend(t, k))
  {
    var c := t.children[k[0]].value;
    DescendStep(FBranch(t.children, k[0], t.value), c, k[1..], Descend(c, k[1..]));
    assert t.children[k[0] := Some(c)] == t.children && [k[0]] + k[1..] == k;
  }

  lemma {:induction false} DescendStep(f: Frame, child: Tree, k: Nibbles, s: Spot)
    requires FrameOk(f) && (f.FExt? ==> child.TBranch?)
    requires SpotOk(child, k, s)
    ensures SpotOk(Plug1(f, child), FrameKey(f) + k, s.(frames := [f] + s.frames))
  {
    PrependFrame(f, s.frames, s.cur);
    assert FrameKey(f) + PathKey(s.frames) + s.rest == FrameKey(f) + (PathKey(s.frames) + s.rest);
    assert s.frames != [] ==> ([f] + s.frames)[|s.frames|] == s.frames[|s.frames| - 1];
  }

  lemma {:induction false} PrependFrame(f: Frame, frames: seq<Frame>, cur: Tree)
    requires FrameOk(f) && FramesOk(frames)
    requires f.FExt? && frames != [] ==> frames[0].FBranch?
    ensures FramesOk([f] + frames)
    ensures Plug([f] + frames, cur) == Plug1(f, Plug(frames, cur))
    ensures PathKey([f] + frames) == FrameKey(f) + PathKey(frames)
  {
    assert ([f] + frames)[1..] == frames;
  }

  lemma {:induction false} PathKeySnoc(frames: seq<Frame>, f: Frame)
    ensures PathKey(frames + [f]) == PathKey(frames) + FrameKey(f)
  {
    if frames == [] {
      assert [f][1..] == [];
      assert PathKey([f]) == FrameKey(f) + PathKey([]);
    } else {
      PathKeySnoc(frames[1..], f);
      assert (frames + [f])[1..] == frames[1..] + [f];
    }
  }

  lemma {:induction false} PlugSnoc(frames: seq<Frame>, f: Frame, t: Tree)
    ensures Plug(frames + [f], t) == Plug(frames, Plug1(f, t))
  {
    if frames == [] {
      assert [f][1..] == [];
    } else {
      PlugSnoc(frames[1..], f, t);
      assert (frames + [f])[1..] == frames[1..] + [f];
    }
  }

  lemma {:induction false} PlugWf(frames: seq<Frame>, t: Tree)
    requires FramesOk(frames) && Wf(t)
    requires frames != [] && frames[|frames| - 1].FExt? ==> t.TBranch?
    ensures Wf(Plug(frames, t))
    ensures frames != [] && frames[0].FBranch? ==> Plug(frames, t).TBranch?
  {
    if frames != [] {
      PlugWf(frames[1..], t);
    }
  }

  lemma {:induction false} Assoc(a: Nibbles, b: Nibbles, c: Nibbles)
    ensures a + b + c == a + (b + c)
  {
  }

  lemma {:induction false} PrefixSplit(a: Nibbles, b: Nibbles, k: Nibbles)
    ensures a + b <= k <==> a <= k && b <= k[|a|..]
    ensures a + b <= k ==> k[|a|..][|b|..] == k[|a + b|..]
  {
    if a <= k && b <= k[|a|..] {
      assert k == a + k[|a|..];
    }
    if a + b <= k {
      assert k[..|a + b|] == a + b;
      assert a == k[..|a|] && b == k[|a|..|a + b|];
    }
  }

  /** Replacing the end of a path changes what is stored below that path and nothing else. */
  lemma {:induction false} PlugLookup(frames: seq<Frame>, t: Tree, t': Tree, k: Nibbles)
    requires FramesOk(frames)
    ensures PathKey(frames) <= k ==> Lookup(Plug(frames, t), k) == Lookup(t, k[|PathKey(frames)|..])
    ensures !(PathKey(frames) <= k) ==> Lookup(Plug(frames, t), k) == Lookup(Plug(frames, t'), k)
  {
    if frames != [] {
      var f, tail := frames[0], PathKey(frames[1..]);
      PrefixSplit(FrameKey(f), tail, k);
      if FrameKey(f) <= k {
        PlugLookup(frames[1..], t, t', k[|FrameKey(f)|..]);
        FrameLookup(f, Plug(frames[1..], t), k);
        FrameLookup(f, Plug(frames[1..], t'), k);
      } else {
        FrameLookupOff(f, Plug(frames[1..], t), Plug(frames[1..], t'), k);
      }
    }
  }

  lemma {:induction false} FrameLookup(f: Frame, t: Tree, k: Nibbles)
    requires FrameOk(f) && FrameKey(f) <= k
    ensures Lookup(Plug1(f, t), k) == Lookup(t, k[|FrameKey(f)|..])
  {
  }

  lemma {:induction false} FrameLookupOff(f: Frame, t: Tree, t': Tree, k: Nibbles)
    requires FrameOk(f) && !(FrameKey(f) <= k)
    ensures Lookup(Plug1(f, t), k) == Lookup(Plug1(f, t'), k)
  {
    if f.FBranch? && k != [] {
      assert [k[0]] <= k;
    }
  }
}
