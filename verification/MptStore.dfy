/**
 * What the node database holds: which trees it resolves, and that writing to it loses nothing.
 */
module MptStore {
  import opened Bytes
  import opened Rlp
  import opened MptNode
  import opened MptTree

  type Db = map<Bytes, Bytes>

  /** A queued write: key and encoded node. (Without pruning nothing is ever deleted.) */
  datatype DbPut = DbPut(key: Bytes, value: Bytes)

  function Apply(db: Db, ops: seq<DbPut>): Db {
    if ops == [] then db
    else
      var op := ops[|ops| - 1];
      Apply(db, ops[..|ops| - 1])[op.key := op.value]
  }

  /** `n` is the node the reference stands for. */
  ghost predicate Denotes(db: Db, ref: Item, n: Node) {
    match ref
    case List(_) => DecodeRaw(ref) == Some(n)
    case Str(h) => h in db && exists item :: Stands(db[h], item, n)
  }

  ghost predicate Stands(bytes: Bytes, item: Item, n: Node) {
    Fits(item) && Enc(item) == bytes && DecodeRaw(item) == Some(n)
  }

  ghost predicate Has(hash: Hash, db: Db, t: Tree) {
    var e := EncOf(hash, t);
    hash(e) in db && db[hash(e)] == e
  }

  /** Every node below `t` is inlined or stored. */
  ghost predicate Below(hash: Hash, db: Db, t: Tree)
    decreases t, 0
  {
    match t
    case TLeaf(_, _) => true
    case TExt(_, child) => Kept(hash, db, child)
    case TBranch(children, _) => forall i {:trigger Kept(hash, db, children[i].value)} | 0 <= i < |children| ::
      children[i].Some? ==> Kept(hash, db, children[i].value)
  }

  ghost predicate Kept(hash: Hash, db: Db, t: Tree)
    decreases t, 1
  {
    (|EncOf(hash, t)| >= 32 ==> Has(hash, db, t)) && Below(hash, db, t)
  }

  /** A root is stored whatever its size. */
  ghost predicate KeptRoot(hash: Hash, db: Db, t: Tree) {
    Has(hash, db, t) && Below(hash, db, t)
  }

  ghost predicate Grows(db: Db, db': Db) {
    forall k | k in db :: k in db' && db'[k] == db[k]
  }

  /** Every entry is a node's encoding under its own hash. */
  ghost predicate DbOk(hash: Hash, known: iset<Bytes>, db: Db) {
    forall k | k in db :: db[k] in known && k == hash(db[k]) && db[k] != RLP_EMPTY_STRING
  }

  ghost predicate OpsOk(hash: Hash, known: iset<Bytes>, ops: seq<DbPut>) {
    forall op | op in ops :: op.value in known && op.key == hash(op.value) && op.value != RLP_EMPTY_STRING
  }

  /** Writing nodes under their hashes overwrites nothing with something else. */
  lemma {:induction false} ApplyGrows(hash: Hash, known: iset<Bytes>, db: Db, ops: seq<DbPut>)
    requires Sound(hash, known) && DbOk(hash, known, db) && OpsOk(hash, known, ops)
    ensures DbOk(hash, known, Apply(db, ops)) && Grows(db, Apply(db, ops))
  {
    if ops != [] {
      ApplyGrows(hash, known, db, ops[..|ops| - 1]);
      assert ops[|ops| - 1] in ops;
    }
  }

  lemma {:induction false} ApplyOne(hash: Hash, known: iset<Bytes>, db: Db, ops: seq<DbPut>, e: Bytes)
    requires Sound(hash, known) && DbOk(hash, known, db) && OpsOk(hash, known, ops)
    requires e in known && e != RLP_EMPTY_STRING
    ensures var ops' := ops + [DbPut(hash(e), e)];
            OpsOk(hash, known, ops') && Grows(Apply(db, ops), Apply(db, ops'))
              && Apply(db, ops') == Apply(db, ops)[hash(e) := e]
  {
    ApplyGrows(hash, known, db, ops);
    var ops' := ops + [DbPut(hash(e), e)];
    assert ops'[..|ops|] == ops;
  }

  lemma {:induction false} GrowsBelow(hash: Hash, db: Db, db': Db, t: Tree)
    requires Grows(db, db') && Below(hash, db, t)
    ensures Below(hash, db', t)
    decreases t
  {
    match t
    case TLeaf(_, _) =>
    case TExt(_, child) => GrowsBelow(hash, db, db', child);
    case TBranch(children, _) =>
      forall i | 0 <= i < |children| && children[i].Some?
        ensures Kept(hash, db', children[i].value)
      {
        assert Kept(hash, db, children[i].value);
        GrowsBelow(hash, db, db', children[i].value);
      }
  }

  /** A tree once stored stays stored. */
  lemma {:induction false} GrowsKept(hash: Hash, db: Db, db': Db, t: Tree)
    requires Grows(db, db')
    ensures Kept(hash, db, t) ==> Kept(hash, db', t)
    ensures KeptRoot(hash, db, t) ==> KeptRoot(hash, db', t)
  {
    if Below(hash, db, t) {
      GrowsBelow(hash, db, db', t);
    }
  }

  /** A stored tree's references denote its nodes, and denote nothing else. */
  lemma {:induction false} KeptDenotes(hash: Hash, known: iset<Bytes>, db: Db, ref: Item, t: Tree, n: Node)
    requires Wf(t) && Known(hash, known, t)
    requires (ref == RefOf(hash, t) && Kept(hash, db, t)) || (ref == Str(RootOf(hash, t)) && Has(hash, db, t))
    ensures Denotes(db, ref, n) <==> n == NodeOf(hash, t)
  {
    DecodeRawNode(NodeOf(hash, t));
    var raw := Raw(NodeOf(hash, t));
    if ref.Str? {
      assert Stands(db[ref.bytes], raw, NodeOf(hash, t));
      if Denotes(db, ref, n) {
        var item :| Stands(db[ref.bytes], item, n);
        PrefixFree(item, raw, [], []);
      }
    }
  }

  // ----- stacks of nodes ------------------------------------------------------------------------

  /** The nodes met on the way down along `k`. */
  ghost function Trail(hash: Hash, t: Tree, k: Nibbles): seq<Node> {
    [NodeOf(hash, t)] +
    match t
    case TLeaf(_, _) => []
    case TExt(key, child) => if key <= k then Trail(hash, child, k[|key|..]) else []
    case TBranch(children, _) =>
      if k == [] || k[0] >= |children| || children[k[0]].None? then []
      else Trail(hash, children[k[0]].value, k[1..])
  }

  /** The node has the frame's key or children, whatever it holds in the frame's place. */
  ghost predicate FrameNode(hash: Hash, f: Frame, n: Node) {
    match f
    case FExt(key) => n.Extension? && n.key == key
    case FBranch(children, index, value) =>
      && n.Branch? && n.value == value && |n.children| == |children| == 16
      && forall i | 0 <= i < 16 && i != index :: n.children[i] == SlotOf(hash, children[i])
  }

  ghost predicate FrameNodes(hash: Hash, frames: seq<Frame>, nodes: seq<Node>) {
    |nodes| == |frames| && forall i | 0 <= i < |frames| :: FrameNode(hash, frames[i], nodes[i])
  }

  lemma {:induction false} TrailFrames(hash: Hash, t: Tree, k: Nibbles)
    requires Wf(t)
    ensures var s, nodes := Descend(t, k), Trail(hash, t, k);
            && |nodes| == |s.frames| + 1 && nodes[|s.frames|] == NodeOf(hash, s.cur)
            && FrameNodes(hash, s.frames, nodes[..|s.frames|])
  {
    if t.TExt? && t.key <= k {
      TrailFrames(hash, t.child, k[|t.key|..]);
    } else if t.TBranch? && k != [] && t.children[k[0]].Some? {
      TrailFrames(hash, t.children[k[0]].value, k[1..]);
    }
  }

  /** What hangs off the path is stored. */
  ghost predicate SidesKept(hash: Hash, db: Db, frames: seq<Frame>) {
    forall i | 0 <= i < |frames| && frames[i].FBranch? :: SideKept(hash, db, frames[i])
  }

  ghost predicate SideKept(hash: Hash, db: Db, f: Frame)
    requires f.FBranch?
  {
    forall j | 0 <= j < |f.children| && j != f.index :: f.children[j].Some? ==> Kept(hash, db, f.children[j].value)
  }

  /** The stack is that of a path, and all that hangs off the path is stored. */
  ghost predicate PathOk(hash: Hash, db: Db, frames: seq<Frame>, nodes: seq<Node>) {
    FramesOk(frames) && FrameNodes(hash, frames, nodes) && SidesKept(hash, db, frames)
  }

  lemma {:induction false} PlugKept(hash: Hash, db: Db, frames: seq<Frame>, t: Tree)
    requires FramesOk(frames) && Below(hash, db, Plug(frames, t))
    ensures SidesKept(hash, db, frames) && Below(hash, db, t)
    ensures frames != [] ==> Kept(hash, db, t)
  {
    if frames != [] {
      var f, below := frames[0], Plug(frames[1..], t);
      if f.FBranch? {
        var cs := f.children[f.index := Some(below)];
        assert cs[f.index] == Some(below);
        assert forall j | 0 <= j < 16 && j != f.index :: cs[j] == f.children[j];
        assert SideKept(hash, db, f);
      }
      assert Kept(hash, db, below);
      PlugKept(hash, db, frames[1..], t);
      assert frames[1..] == [] ==> below == t;
    }
  }

  lemma {:induction false} PlugKnown(hash: Hash, known: iset<Bytes>, frames: seq<Frame>, t: Tree)
    requires FramesOk(frames) && Known(hash, known, Plug(frames, t))
    ensures Known(hash, known, t)
  {
    if frames != [] {
      var f, below := frames[0], Plug(frames[1..], t);
      if f.FBranch? {
        assert f.children[f.index := Some(below)][f.index] == Some(below);
      }
      PlugKnown(hash, known, frames[1..], t);
    }
  }

  lemma {:induction false} SidesGrow(hash: Hash, db: Db, db': Db, frames: seq<Frame>)
    requires Grows(db, db') && SidesKept(hash, db, frames)
    ensures SidesKept(hash, db', frames)
  {
    forall i, j | 0 <= i < |frames| && frames[i].FBranch? && 0 <= j < |frames[i].children| && j != frames[i].index
      ensures frames[i].children[j].Some? ==> Kept(hash, db', frames[i].children[j].value)
    {
      assert SideKept(hash, db, frames[i]);
      if frames[i].children[j].Some? {
        GrowsKept(hash, db, db', frames[i].children[j].value);
      }
    }
  }

  /** Filling a frame's place with a reference to `t` gives the node of the tree with `t` there. */
  lemma {:induction false} FillFrame(hash: Hash, db: Db, f: Frame, n: Node, t: Tree)
    requires FrameOk(f) && FrameNode(hash, f, n)
    ensures f.FExt? ==> n.(child := RefOf(hash, t)) == NodeOf(hash, Plug1(f, t))
    ensures f.FBranch? ==> n.(children := n.children[f.index := RefOf(hash, t)]) == NodeOf(hash, Plug1(f, t))
    ensures Kept(hash, db, t) && (f.FBranch? ==> SideKept(hash, db, f)) ==> Below(hash, db, Plug1(f, t))
  {
    if f.FBranch? {
      var cs := f.children[f.index := Some(t)];
      assert cs[f.index] == Some(t);
      assert forall j | 0 <= j < 16 && j != f.index :: cs[j] == f.children[j];
    }
  }
}
