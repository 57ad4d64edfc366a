/**
 * The edits `_updateNode` and `_deleteNode` make, as functions on the tree the trie stands for:
 * what they do to its content, and that they keep it in the one canonical form.
 */
module MptEdit {
  import opened Bytes
  import opened MptNode
  import opened MptTree

  function Match(a: Nibbles, b: Nibbles): (m: nat)
    ensures m <= |a| && m <= |b| && a[..m] == b[..m]
    ensures m < |a| && m < |b| ==> a[m] != b[m]
  {
    if a != [] && b != [] && a[0] == b[0] then 1 + Match(a[1..], b[1..]) else 0
  }

  // ----- put --------------------------------------------------------------------------------

  ghost function NoChildren(): (cs: seq<Option<Tree>>)
    ensures |cs| == 16 && forall i | 0 <= i < 16 :: cs[i].None?
  {
    seq(16, i => None)
  }

  /** A leaf or extension left with the key `k`; an extension left without one is its child. */
  ghost function Shrunk(cur: Tree, k: Nibbles): Tree
    requires !cur.TBranch?
  {
    if cur.TLeaf? then TLeaf(k, cur.value) else if k != [] then TExt(k, cur.child) else cur.child
  }

  /** The branch that takes the place of `cur` after the first `m` nibbles of its key. */
  ghost function BranchFor(cur: Tree, m: nat): (b: Tree)
    requires !cur.TBranch? && m <= |cur.key| && (cur.TExt? ==> m < |cur.key|)
    ensures b.TBranch? && |b.children| == 16
  {
    var last := cur.key[m..];
    if last == [] then TBranch(NoChildren(), cur.value)
    else TBranch(NoChildren()[last[0] := Some(Shrunk(cur, last[1..]))], [])
  }

  ghost function Extend(k: Nibbles, b: Tree): Tree {
    if k == [] then b else TExt(k, b)
  }

  ghost function PutInBranch(b: Tree, rest: Nibbles, value: Bytes): Tree
    requires b.TBranch? && |b.children| == 16
  {
    if rest == [] then b.(value := value)
    else b.(children := b.children[rest[0] := Some(TLeaf(rest[1..], value))])
  }

  /** The node that takes the place of `cur` when `value` is put `rest` below it. */
  ghost function PutAt(cur: Tree, rest: Nibbles, value: Bytes): Tree
    requires Wf(cur) && Stuck(cur, rest)
  {
    if cur.TBranch? then PutInBranch(cur, rest, value)
    else if cur.TLeaf? && cur.key == rest then TLeaf(rest, value)
    else
      var m := Match(cur.key, rest);
      Extend(cur.key[..m], PutInBranch(BranchFor(cur, m), rest[m..], value))
  }

  ghost function PutTree(t: Tree, k: Nibbles, value: Bytes): Tree
    requires Wf(t)
  {
    DescendPlug(t, k);
    var s := Descend(t, k);
    Plug(s.frames, PutAt(s.cur, s.rest, value))
  }

  lemma {:induction false} ExtendLookup(p: Nibbles, b: Tree, k: Nibbles)
    ensures Lookup(Extend(p, b), k) == if p <= k then Lookup(b, k[|p|..]) else []
  {
  }

  lemma {:induction false} BranchForLookup(cur: Tree, m: nat, k: Nibbles)
    requires !cur.TBranch? && m <= |cur.key| && (cur.TExt? ==> m < |cur.key|)
    ensures Lookup(BranchFor(cur, m), k) == Lookup(cur, cur.key[..m] + k)
  {
    var p, last := cur.key[..m], cur.key[m..];
    assert cur.key == p + last;
    PrefixSplit(p, last, p + k);
    assert (p + k)[m..] == k;
    if last == [] {
      assert p + k == p <==> k == [];
    } else if k != [] {
      assert last == [last[0]] + last[1..] && k == [k[0]] + k[1..];
      PrefixSplit([last[0]], last[1..], k);
    }
  }

  lemma {:induction false} BranchForWf(cur: Tree, m: nat)
    requires !cur.TBranch? && m <= |cur.key| && (cur.TExt? ==> m < |cur.key|)
    requires Wf(cur)
    ensures Wf(BranchFor(cur, m))
  {
  }

  lemma {:induction false} PutInBranchLookup(b: Tree, rest: Nibbles, value: Bytes, k: Nibbles)
    requires b.TBranch? && |b.children| == 16 && Stuck(b, rest)
    ensures Lookup(PutInBranch(b, rest, value), k) == if k == rest then value else Lookup(b, k)
  {
    if k != [] && rest != [] {
      assert k == [k[0]] + k[1..] && rest == [rest[0]] + rest[1..];
    }
  }

  lemma {:induction false} PutAtLookup(cur: Tree, rest: Nibbles, value: Bytes, k: Nibbles)
    requires Wf(cur) && Stuck(cur, rest)
    ensures Lookup(PutAt(cur, rest, value), k) == if k == rest then value else Lookup(cur, k)
  {
    if cur.TBranch? {
      PutInBranchLookup(cur, rest, value, k);
    } else if !(cur.TLeaf? && cur.key == rest) {
      var m := Match(cur.key, rest);
      var p, b := cur.key[..m], BranchFor(cur, m);
      assert rest == p + rest[m..];
      ExtendLookup(p, PutInBranch(b, rest[m..], value), k);
      if p <= k {
        assert k == p + k[m..];
        BranchForLookup(cur, m, k[m..]);
        PutInBranchLookup(b, rest[m..], value, k[m..]);
      } else {
        assert !(cur.key <= k);
      }
    }
  }

  /** `put` is the map update: the new value under its key, every other key as before. */
  lemma {:induction false} PutLookup(t: Tree, k: Nibbles, value: Bytes, k': Nibbles)
    requires Wf(t)
    ensures Lookup(PutTree(t, k, value), k') == if k' == k then value else Lookup(t, k')
  {
    DescendPlug(t, k);
    var s := Descend(t, k);
    var p := PathKey(s.frames);
    PlugLookup(s.frames, s.cur, PutAt(s.cur, s.rest, value), k');
    PlugLookup(s.frames, PutAt(s.cur, s.rest, value), s.cur, k');
    if p <= k' {
      PutAtLookup(s.cur, s.rest, value, k'[|p|..]);
      assert k' == p + k'[|p|..];
    }
  }

  lemma {:induction false} PutAtWf(cur: Tree, rest: Nibbles, value: Bytes)
    requires Wf(cur) && Stuck(cur, rest) && value != []
    ensures Wf(PutAt(cur, rest, value))
    ensures cur.TBranch? ==> PutAt(cur, rest, value).TBranch?
  {
    if !cur.TBranch? && !(cur.TLeaf? && cur.key == rest) {
      var m := Match(cur.key, rest);
      BranchForWf(cur, m);
    }
  }

  lemma {:induction false} PutWf(t: Tree, k: Nibbles, value: Bytes)
    requires Wf(t) && value != []
    ensures Wf(PutTree(t, k, value))
  {
    DescendPlug(t, k);
    var s := Descend(t, k);
    PutAtWf(s.cur, s.rest, value);
    PlugWf(s.frames, PutAt(s.cur, s.rest, value));
  }

  // ----- canonical form -----------------------------------------------------------------------

  ghost predicate TwoEntries(children: seq<Option<Tree>>, value: Bytes) {
    || (value != [] && exists i | 0 <= i < |children| :: children[i].Some?)
    || exists i, j | 0 <= i < j < |children| :: children[i].Some? && children[j].Some?
  }

  /** No branch could be replaced by a leaf or an extension. */
  ghost predicate Canon(t: Tree) {
    match t
    case TLeaf(_, _) => true
    case TExt(_, child) => Canon(child)
    case TBranch(children, value) =>
      && TwoEntries(children, value)
      && forall i {:trigger Canon(children[i].value)} | 0 <= i < |children| :: children[i].Some? ==>
           Canon(children[i].value)
  }

  ghost predicate ValueOrTwo(children: seq<Option<Tree>>, value: Bytes) {
    value != [] || exists i, j | 0 <= i < j < |children| :: children[i].Some? && children[j].Some?
  }

  /** What is left of the canonical form when keys have any lengths: no branch is without a value and a second child. */
  ghost predicate Alive(t: Tree) {
    match t
    case TLeaf(_, _) => true
    case TExt(_, child) => Alive(child)
    case TBranch(children, value) =>
      && ValueOrTwo(children, value)
      && forall i {:trigger Alive(children[i].value)} | 0 <= i < |children| :: children[i].Some? ==>
           Alive(children[i].value)
  }

  lemma {:induction false} CanonAlive(t: Tree)
    requires Canon(t)
    ensures Alive(t)
    decreases t
  {
    if t.TExt? {
      CanonAlive(t.child);
    } else if t.TBranch? {
      forall i | 0 <= i < |t.children| && t.children[i].Some?
        ensures Alive(t.children[i].value)
      {
        assert Canon(t.children[i].value);
        CanonAlive(t.children[i].value);
      }
    }
  }

  /** Every key has length `n`; then no key ends at a branch. */
  ghost predicate Uniform(t: Tree, n: int) {
    match t
    case TLeaf(key, _) => |key| == n
    case TExt(key, child) => |key| < n && Uniform(child, n - |key|)
    case TBranch(children, value) =>
      n > 0 && value == [] && forall i {:trigger Uniform(children[i].value, n - 1)} | 0 <= i < |children| ::
        children[i].Some? ==> Uniform(children[i].value, n - 1)
  }

  lemma {:induction false} PlugCanon(frames: seq<Frame>, t: Tree, t': Tree)
    requires FramesOk(frames) && Canon(Plug(frames, t))
    ensures Canon(t)
    ensures Canon(t') ==> Canon(Plug(frames, t'))
  {
    if frames != [] {
      var f, a, b := frames[0], Plug(frames[1..], t), Plug(frames[1..], t');
      if f.FBranch? {
        var cs, ds := f.children[f.index := Some(a)], f.children[f.index := Some(b)];
        assert cs[f.index] == Some(a);
        assert forall i | 0 <= i < 16 :: cs[i].Some? <==> ds[i].Some?;
        assert forall i | 0 <= i < 16 && i != f.index :: cs[i] == ds[i];
      }
      PlugCanon(frames[1..], t, t');
    }
  }

  lemma {:induction false} PlugUniform(frames: seq<Frame>, t: Tree, t': Tree, n: int)
    requires FramesOk(frames) && Uniform(Plug(frames, t), n)
    ensures Uniform(t, n - |PathKey(frames)|)
    ensures Uniform(t', n - |PathKey(frames)|) ==> Uniform(Plug(frames, t'), n)
    ensures |PathKey(frames)| <= n
  {
    if frames != [] {
      var f, a, b := frames[0], Plug(frames[1..], t), Plug(frames[1..], t');
      FrameUniform(f, a, b, n);
      assert n - |PathKey(frames)| == n - |FrameKey(f)| - |PathKey(frames[1..])|;
      PlugUniform(frames[1..], t, t', n - |FrameKey(f)|);
    } else {
      UniformLength(t, n);
    }
  }

  lemma {:induction false} PlugNoValues(frames: seq<Frame>, t: Tree, n: int)
    requires FramesOk(frames) && Uniform(Plug(frames, t), n)
    ensures forall i | 0 <= i < |frames| :: frames[i].FBranch? ==> frames[i].value == []
  {
    if frames != [] {
      var below := Plug(frames[1..], t);
      FrameUniform(frames[0], below, below, n);
      PlugNoValues(frames[1..], t, n - |FrameKey(frames[0])|);
      assert forall i | 0 < i < |frames| :: frames[i] == frames[1..][i - 1];
    }
  }

  lemma {:induction false} UniformLength(t: Tree, n: int)
    requires Uniform(t, n)
    ensures n >= 0
  {
  }

  lemma {:induction false} FrameUniform(f: Frame, a: Tree, b: Tree, n: int)
    requires FrameOk(f) && Uniform(Plug1(f, a), n)
    ensures Uniform(a, n - |FrameKey(f)|) && n > |FrameKey(f)| - 1
    ensures Uniform(b, n - |FrameKey(f)|) ==> Uniform(Plug1(f, b), n)
    ensures f.FBranch? ==> f.value == []
  {
    if f.FBranch? {
      var cs, ds := f.children[f.index := Some(a)], f.children[f.index := Some(b)];
      assert cs[f.index] == Some(a);
      assert Uniform(cs[f.index].value, n - 1);
      assert forall i | 0 <= i < 16 && i != f.index :: cs[i] == ds[i];
    } else {
      assert Plug1(f, a) == TExt(f.key, a) && Plug1(f, b) == TExt(f.key, b);
      assert Uniform(TExt(f.key, b), n) <==> |f.key| < n && Uniform(b, n - |f.key|);
    }
  }

  lemma {:induction false} PutAtCanon(cur: Tree, rest: Nibbles, value: Bytes)
    requires Wf(cur) && Stuck(cur, rest) && value != [] && Canon(cur)
    ensures Canon(PutAt(cur, rest, value))
  {
    if cur.TBranch? {
      PutInBranchCanon(cur, rest, value);
    } else if !(cur.TLeaf? && cur.key == rest) {
      var m := Match(cur.key, rest);
      var b := BranchFor(cur, m);
      if cur.key[m..] != [] {
        assert b.children[cur.key[m]].Some?;
      }
      PutInBranchCanon(b, rest[m..], value);
    }
  }

  /** One entry is enough for a branch about to get another. */
  lemma {:induction false} PutInBranchCanon(b: Tree, rest: Nibbles, value: Bytes)
    requires b.TBranch? && |b.children| == 16 && Stuck(b, rest) && value != []
    requires (b.value != [] && rest != []) || exists i | 0 <= i < 16 :: b.children[i].Some?
    requires forall i | 0 <= i < 16 :: b.children[i].Some? ==> Canon(b.children[i].value)
    ensures Canon(PutInBranch(b, rest, value))
  {
    var c := PutInBranch(b, rest, value);
    if rest != [] {
      assert c.children[rest[0]].Some?;
      if exists i | 0 <= i < 16 :: b.children[i].Some? {
        var i :| 0 <= i < 16 && b.children[i].Some?;
        assert i != rest[0] && c.children[i].Some?;
      }
    }
  }

  /** `put` keeps the canonical form. */
  lemma {:induction false} PutCanon(t: Tree, k: Nibbles, value: Bytes)
    requires Wf(t) && Canon(t) && value != []
    ensures Canon(PutTree(t, k, value))
  {
    DescendPlug(t, k);
    var s := Descend(t, k);
    PlugCanon(s.frames, s.cur, PutAt(s.cur, s.rest, value));
    PutAtCanon(s.cur, s.rest, value);
  }

  lemma {:induction false} BranchForUniform(cur: Tree, m: nat, n: int)
    requires !cur.TBranch? && m < |cur.key| && Uniform(cur, n)
    ensures Uniform(BranchFor(cur, m), n - m)
  {
    assert Uniform(Shrunk(cur, cur.key[m..][1..]), n - m - 1);
  }

  lemma {:induction false} PutInBranchUniform(b: Tree, rest: Nibbles, value: Bytes)
    requires b.TBranch? && |b.children| == 16 && Uniform(b, |rest|)
    ensures Uniform(PutInBranch(b, rest, value), |rest|)
  {
  }

  lemma {:induction false} PutAtUniform(cur: Tree, rest: Nibbles, value: Bytes)
    requires Wf(cur) && Stuck(cur, rest) && Uniform(cur, |rest|)
    ensures Uniform(PutAt(cur, rest, value), |rest|)
  {
    if cur.TBranch? {
      PutInBranchUniform(cur, rest, value);
    } else if !(cur.TLeaf? && cur.key == rest) {
      var m := Match(cur.key, rest);
      assert m < |cur.key|;
      BranchForUniform(cur, m, |rest|);
      PutInBranchUniform(BranchFor(cur, m), rest[m..], value);
    }
  }

  /** `put` keeps all keys of one length. */
  lemma {:induction false} PutUniform(t: Tree, k: Nibbles, value: Bytes)
    requires Wf(t) && Uniform(t, |k|)
    ensures Uniform(PutTree(t, k, value), |k|)
  {
    DescendPlug(t, k);
    var s := Descend(t, k);
    PlugUniform(s.frames, s.cur, PutAt(s.cur, s.rest, value), |k|);
    PutAtUniform(s.cur, s.rest, value);
  }

  // ----- del --------------------------------------------------------------------------------

  /** A value is stored where the descent ended. */
  ghost predicate Found(s: Spot) {
    || (s.cur.TLeaf? && s.cur.key == s.rest)
    || (s.cur.TBranch? && s.rest == [])
  }

  ghost predicate OnlyChild(children: seq<Option<Tree>>, j: Nibble) {
    |children| == 16 && children[j].Some? && forall i | 0 <= i < 16 && i != j :: children[i].None?
  }

  ghost predicate HasOnlyChild(children: seq<Option<Tree>>) {
    exists j: Nibble :: OnlyChild(children, j)
  }

  /** `t` with `k` in front of all its keys. */
  ghost function Prepend(k: Nibbles, t: Tree): Tree {
    match t
    case TLeaf(key, value) => TLeaf(k + key, value)
    case TExt(key, child) => TExt(k + key, child)
    case TBranch(_, _) => TExt(k, t)
  }

  /** The branch at the end of `frames` makes way for its child `t` at index `j`. */
  ghost function Hoist(frames: seq<Frame>, j: Nibble, t: Tree): Tree {
    if frames != [] && frames[|frames| - 1].FExt? then
      Plug(frames[..|frames| - 1], Prepend(frames[|frames| - 1].key + [j], t))
    else Plug(frames, Prepend([j], t))
  }

  /** A branch whose entries changed: the count is of children only, so a value goes with the branch. */
  ghost function Collapse(frames: seq<Frame>, children: seq<Option<Tree>>, value: Bytes): Tree {
    if HasOnlyChild(children) then
      var j: Nibble :| OnlyChild(children, j);
      Hoist(frames, j, children[j].value)
    else Plug(frames, TBranch(children, value))
  }

  ghost function RemoveAt(s: Spot): Option<Tree>
    requires FramesOk(s.frames) && Found(s)
    requires s.frames != [] && s.frames[|s.frames| - 1].FExt? ==> s.cur.TBranch?
  {
    if s.frames == [] then None
    else if s.cur.TLeaf? then
      var upper, f := s.frames[..|s.frames| - 1], s.frames[|s.frames| - 1];
      Some(Collapse(upper, f.children[f.index := None], f.value))
    else Some(Collapse(s.frames, s.cur.children, s.cur.value))
  }

  ghost function DelTree(t: Tree, k: Nibbles): Option<Tree>
    requires Wf(t)
  {
    DescendPlug(t, k);
    var s := Descend(t, k);
    if Found(s) then RemoveAt(s) else Some(t)
  }

  ghost function LookupIn(t: Option<Tree>, k: Nibbles): Bytes {
    if t.Some? then Lookup(t.value, k) else []
  }

  lemma {:induction false} PrependLookup(p: Nibbles, t: Tree, k: Nibbles)
    ensures Lookup(Prepend(p, t), k) == if p <= k then Lookup(t, k[|p|..]) else []
  {
    if !t.TBranch? {
      PrefixSplit(p, t.key, k);
      if p <= k {
        assert k == p + k[|p|..];
      }
    }
  }

  /** Hoisting the only child is a change of shape: the keys below stay what they were. */
  lemma {:induction false} HoistLookup(frames: seq<Frame>, j: Nibble, t: Tree, k: Nibbles)
    requires FramesOk(frames)
    ensures Lookup(Hoist(frames, j, t), k) == Lookup(Plug(frames, Prepend([j], t)), k)
  {
    if frames != [] && frames[|frames| - 1].FExt? {
      var upper, f := frames[..|frames| - 1], frames[|frames| - 1];
      assert frames == upper + [f];
      var p, a, b := PathKey(upper), Prepend(f.key + [j], t), Plug1(f, Prepend([j], t));
      PlugSnoc(upper, f, Prepend([j], t));
      PlugLookup(upper, a, b, k);
      PlugLookup(upper, b, a, k);
      if p <= k {
        var r := k[|p|..];
        PrependLookup(f.key + [j], t, r);
        PrefixSplit(f.key, [j], r);
        if f.key <= r {
          PrependLookup([j], t, r[|f.key|..]);
        }
      }
    }
  }

  /** The only child, in front of its index, holds what the branch without its value held. */
  lemma {:induction false} OnlyChildLookup(children: seq<Option<Tree>>, j: Nibble, k: Nibbles)
    requires OnlyChild(children, j)
    ensures Lookup(Prepend([j], children[j].value), k) == Lookup(TBranch(children, []), k)
  {
    PrependLookup([j], children[j].value, k);
    if k != [] {
      assert [j] <= k <==> k[0] == j;
    }
  }

  /** Collapsing keeps the branch's content when there is no value to lose. */
  lemma {:induction false} CollapseLookup(frames: seq<Frame>, children: seq<Option<Tree>>, value: Bytes, k: Nibbles)
    requires FramesOk(frames) && |children| == 16
    ensures var kept := if HasOnlyChild(children) then [] else value;
            Lookup(Collapse(frames, children, value), k) == Lookup(Plug(frames, TBranch(children, kept)), k)
  {
    if HasOnlyChild(children) {
      var j: Nibble :| OnlyChild(children, j)
               && Collapse(frames, children, value) == Hoist(frames, j, children[j].value);
      var a, b := Prepend([j], children[j].value), TBranch(children, []);
      HoistLookup(frames, j, children[j].value, k);
      PlugLookup(frames, a, b, k);
      PlugLookup(frames, b, a, k);
      if PathKey(frames) <= k {
        OnlyChildLookup(children, j, k[|PathKey(frames)|..]);
      }
    }
  }

  ghost predicate Childless(children: seq<Option<Tree>>) {
    forall i | 0 <= i < |children| :: children[i].None?
  }

  /**
   * The guards under which removing what was found is right: at the root it may have nothing below it (the
   * whole trie is dropped), a value may not share its branch with an only remaining child, and a
   * value at a branch is cleared only by the branch collapsing.
   */
  ghost predicate DelWorks(s: Spot)
    requires FramesOk(s.frames)
    requires s.frames != [] && s.frames[|s.frames| - 1].FExt? ==> s.cur.TBranch?
  {
    if s.frames == [] then s.cur.TLeaf? || (s.cur.TBranch? && Childless(s.cur.children))
    else if s.cur.TLeaf? then
      var f := s.frames[|s.frames| - 1];
      HasOnlyChild(f.children[f.index := None]) ==> f.value == []
    else s.cur.TBranch? ==> s.cur.value == [] || HasOnlyChild(s.cur.children)
  }

  lemma {:induction false} LastFrame(frames: seq<Frame>, cur: Tree)
    requires frames != [] && FramesOk(frames)
    ensures var upper, f := frames[..|frames| - 1], frames[|frames| - 1];
            && frames == upper + [f] && FramesOk(upper)
            && Plug(frames, cur) == Plug(upper, Plug1(f, cur))
            && PathKey(frames) == PathKey(upper) + FrameKey(f)
  {
    var upper, f := frames[..|frames| - 1], frames[|frames| - 1];
    assert frames == upper + [f];
    PlugSnoc(upper, f, cur);
    PathKeySnoc(upper, f);
  }

  lemma {:induction false} BranchWithout(f: Frame, leaf: Tree, r: Nibbles)
    requires FrameOk(f) && f.FBranch? && leaf.TLeaf?
    ensures Lookup(TBranch(f.children[f.index := None], f.value), r)
            == if r == [f.index] + leaf.key then [] else Lookup(Plug1(f, leaf), r)
  {
    if r != [] {
      assert r == [r[0]] + r[1..];
    }
  }

  /** Taking the leaf out of its branch, on the tree as a whole. */
  lemma {:induction false} LeafOutLookup(upper: seq<Frame>, f: Frame, leaf: Tree, k': Nibbles)
    requires FramesOk(upper) && FrameOk(f) && f.FBranch? && leaf.TLeaf?
    ensures Lookup(Plug(upper, TBranch(f.children[f.index := None], f.value)), k')
            == if k' == PathKey(upper) + [f.index] + leaf.key then [] else Lookup(Plug(upper, Plug1(f, leaf)), k')
  {
    var a, b := Plug1(f, leaf), TBranch(f.children[f.index := None], f.value);
    var p := PathKey(upper);
    PlugLookup(upper, a, b, k');
    PlugLookup(upper, b, a, k');
    assert p + [f.index] + leaf.key == p + ([f.index] + leaf.key);
    if p <= k' {
      assert k' == p + k'[|p|..];
      BranchWithout(f, leaf, k'[|p|..]);
    }
  }

  lemma {:induction false} AbsentWhenNotFound(t: Tree, k: Nibbles)
    requires Wf(t)
    ensures SpotOk(t, k, Descend(t, k))
    ensures Lookup(t, k) == if Found(Descend(t, k)) then Descend(t, k).cur.value else []
  {
    DescendPlug(t, k);
    var s := Descend(t, k);
    PlugLookup(s.frames, s.cur, s.cur, k);
    assert k[|PathKey(s.frames)|..] == s.rest;
  }

  /** Under its guards `del` is the map's removal: its key is gone, every other key as before. */
  lemma {:induction false} DelLookup(t: Tree, k: Nibbles, k': Nibbles)
    requires Wf(t)
    requires SpotOk(t, k, Descend(t, k)) && (Found(Descend(t, k)) ==> DelWorks(Descend(t, k)))
    ensures LookupIn(DelTree(t, k), k') == if k' == k then [] else Lookup(t, k')
  {
    AbsentWhenNotFound(t, k);
    var s := Descend(t, k);
    if Found(s) && s.frames != [] {
      if s.cur.TLeaf? {
        var upper, f := s.frames[..|s.frames| - 1], s.frames[|s.frames| - 1];
        LastFrame(s.frames, s.cur);
        LeafOutLookup(upper, f, s.cur, k');
        CollapseLookup(upper, f.children[f.index := None], f.value, k');
      } else {
        CollapseLookup(s.frames, s.cur.children, s.cur.value, k');
        var b := TBranch(s.cur.children, []);
        PlugLookup(s.frames, s.cur, b, k');
        PlugLookup(s.frames, b, s.cur, k');
        assert k == PathKey(s.frames);
        if k <= k' {
          assert k' == k <==> k'[|k|..] == [];
        }
      }
    }
  }

  /** A tree without dead branches is not empty. */
  lemma {:induction false} SomeKey(t: Tree) returns (k: Nibbles)
    requires Wf(t) && Alive(t)
    ensures Lookup(t, k) != []
  {
    match t
    case TLeaf(key, _) => k := key;
    case TExt(key, child) =>
      k := SomeKey(child);
      assert (key + k)[|key|..] == k;
      k := key + k;
    case TBranch(children, value) =>
      if value != [] {
        k := [];
      } else {
        var i, j :| 0 <= i < j < 16 && children[i].Some? && children[j].Some?;
        k := SomeKey(children[i].value);
        assert ([i] + k)[1..] == k;
        k := [i] + k;
      }
  }

  // ----- what del keeps -----------------------------------------------------------------------

  lemma {:induction false} PrependWf(p: Nibbles, t: Tree)
    requires Wf(t) && p != []
    ensures Wf(Prepend(p, t))
  {
  }

  lemma {:induction false} HoistWf(frames: seq<Frame>, j: Nibble, t: Tree)
    requires FramesOk(frames) && Wf(t)
    ensures Wf(Hoist(frames, j, t))
  {
    if frames != [] && frames[|frames| - 1].FExt? {
      LastFrame(frames, t);
      HoistWfExt(frames[..|frames| - 1], frames[|frames| - 1].key + [j], t);
    } else {
      PrependWf([j], t);
      PlugWf(frames, Prepend([j], t));
    }
  }

  lemma {:induction false} HoistWfExt(upper: seq<Frame>, p: Nibbles, t: Tree)
    requires FramesOk(upper) && (upper != [] ==> upper[|upper| - 1].FBranch?) && Wf(t) && p != []
    ensures Wf(Plug(upper, Prepend(p, t)))
  {
    PrependWf(p, t);
    PlugWf(upper, Prepend(p, t));
  }

  lemma {:induction false} CollapseWf(frames: seq<Frame>, children: seq<Option<Tree>>, value: Bytes)
    requires FramesOk(frames) && Wf(TBranch(children, value))
    ensures Wf(Collapse(frames, children, value))
  {
    if HasOnlyChild(children) {
      var j: Nibble :| OnlyChild(children, j)
               && Collapse(frames, children, value) == Hoist(frames, j, children[j].value);
      HoistWf(frames, j, children[j].value);
    } else {
      PlugWf(frames, TBranch(children, value));
    }
  }

  lemma {:induction false} DelWf(t: Tree, k: Nibbles)
    requires Wf(t)
    ensures DelTree(t, k).Some? ==> Wf(DelTree(t, k).value)
  {
    DescendPlug(t, k);
    var s := Descend(t, k);
    if Found(s) && s.frames != [] {
      if s.cur.TLeaf? {
        var upper, f := s.frames[..|s.frames| - 1], s.frames[|s.frames| - 1];
        LastFrame(s.frames, s.cur);
        CollapseWf(upper, f.children[f.index := None], f.value);
      } else {
        CollapseWf(s.frames, s.cur.children, s.cur.value);
      }
    }
  }

  lemma {:induction false} HoistCanon(frames: seq<Frame>, j: Nibble, t: Tree, was: Tree)
    requires FramesOk(frames) && Canon(t) && Canon(Plug(frames, was))
    ensures Canon(Hoist(frames, j, t))
  {
    if frames != [] && frames[|frames| - 1].FExt? {
      var upper, f := frames[..|frames| - 1], frames[|frames| - 1];
      LastFrame(frames, was);
      PlugCanon(upper, Plug1(f, was), Prepend(f.key + [j], t));
    } else {
      PlugCanon(frames, was, Prepend([j], t));
    }
  }

  lemma {:induction false} PrependUniform(p: Nibbles, t: Tree, n: int)
    requires p != [] && Wf(t) && Uniform(t, n) && n >= 0
    ensures Uniform(Prepend(p, t), |p| + n)
  {
    if t.TExt? {
      assert |p| + n - |p + t.key| == n - |t.key|;
    }
  }

  lemma {:induction false} HoistUniform(frames: seq<Frame>, j: Nibble, t: Tree, was: Tree, n: int)
    requires FramesOk(frames) && Wf(t) && Uniform(Plug(frames, was), n)
    requires var m := n - |PathKey(frames)|; m >= 1 && Uniform(t, m - 1)
    ensures Uniform(Hoist(frames, j, t), n)
  {
    if frames != [] && frames[|frames| - 1].FExt? {
      var upper, f := frames[..|frames| - 1], frames[|frames| - 1];
      LastFrame(frames, was);
      assert |PathKey(frames)| == |PathKey(upper)| + |f.key|;
      HoistUniformExt(upper, f, j, t, was, n);
    } else {
      HoistUniformHere(frames, j, t, was, n);
    }
  }

  lemma {:induction false} HoistUniformHere(frames: seq<Frame>, j: Nibble, t: Tree, was: Tree, n: int)
    requires FramesOk(frames) && Wf(t) && Uniform(Plug(frames, was), n)
    requires var m := n - |PathKey(frames)|; m >= 1 && Uniform(t, m - 1)
    ensures Uniform(Plug(frames, Prepend([j], t)), n)
  {
    PrependUniform([j], t, n - |PathKey(frames)| - 1);
    PlugUniform(frames, was, Prepend([j], t), n);
  }

  lemma {:induction false} HoistUniformExt(upper: seq<Frame>, f: Frame, j: Nibble, t: Tree, was: Tree, n: int)
    requires FramesOk(upper) && FrameOk(f) && f.FExt? && Wf(t) && Uniform(Plug(upper, Plug1(f, was)), n)
    requires var m := n - |PathKey(upper) + f.key|; m >= 1 && Uniform(t, m - 1)
    ensures Uniform(Plug(upper, Prepend(f.key + [j], t)), n)
  {
    PrependUniform(f.key + [j], t, n - |PathKey(upper) + f.key| - 1);
    PlugUniform(upper, Plug1(f, was), Prepend(f.key + [j], t), n);
  }

  /** With keys of one length, a canonical branch that loses a child still has one, and no value. */
  lemma {:induction false} ChildLeft(children: seq<Option<Tree>>, index: Nibble)
    requires |children| == 16 && TwoEntries(children, [])
    ensures var cs := children[index := None];
            HasOnlyChild(cs) || TwoEntries(cs, [])
  {
    var cs := children[index := None];
    var i, j :| 0 <= i < j < 16 && children[i].Some? && children[j].Some?;
    var a := if i == index then j else i;
    assert cs[a].Some?;
    if !OnlyChild(cs, a) {
      var b :| 0 <= b < 16 && b != a && cs[b].Some?;
      assert a < b || b < a;
    }
  }

  /** With keys of one length, what is found is a leaf, and its branch holds no value. */
  lemma {:induction false} FoundUniform(t: Tree, k: Nibbles)
    requires Wf(t) && Uniform(t, |k|) && k != []
    ensures SpotOk(t, k, Descend(t, k))
    ensures var s := Descend(t, k); Found(s) ==>
              && s.cur.TLeaf? && DelWorks(s)
              && (s.frames != [] ==> s.frames[|s.frames| - 1].FBranch? && s.frames[|s.frames| - 1].value == [])
  {
    DescendPlug(t, k);
    var s := Descend(t, k);
    PlugUniform(s.frames, s.cur, s.cur, |k|);
    PlugNoValues(s.frames, s.cur, |k|);
  }

  lemma {:induction false} CollapseUniform(upper: seq<Frame>, f: Frame, leaf: Tree, n: int)
    requires FramesOk(upper) && FrameOk(f) && f.FBranch? && f.value == []
    requires Canon(Plug(upper, Plug1(f, leaf))) && Uniform(Plug(upper, Plug1(f, leaf)), n)
    ensures var c := Collapse(upper, f.children[f.index := None], []); Canon(c) && Uniform(c, n)
  {
    var was, cs := Plug1(f, leaf), f.children[f.index := None];
    PlugUniform(upper, was, TBranch(cs, []), n);
    PlugCanon(upper, was, TBranch(cs, []));
    assert cs == was.children[f.index := None];
    assert forall i | 0 <= i < 16 && i != f.index :: cs[i] == was.children[i];
    ChildLeft(was.children, f.index);
    if HasOnlyChild(cs) {
      var j: Nibble :| OnlyChild(cs, j) && Collapse(upper, cs, []) == Hoist(upper, j, cs[j].value);
      HoistCanon(upper, j, cs[j].value, was);
      HoistUniform(upper, j, cs[j].value, was, n);
    }
  }

  /** With keys of one length, `del` keeps that length and the canonical form. */
  lemma {:induction false} DelUniform(t: Tree, k: Nibbles)
    requires Wf(t) && Canon(t) && Uniform(t, |k|) && k != []
    ensures DelTree(t, k).Some? ==> Canon(DelTree(t, k).value) && Uniform(DelTree(t, k).value, |k|)
  {
    FoundUniform(t, k);
    var s := Descend(t, k);
    if Found(s) && s.frames != [] {
      LastFrame(s.frames, s.cur);
      CollapseUniform(s.frames[..|s.frames| - 1], s.frames[|s.frames| - 1], s.cur, |k|);
    }
  }
}
