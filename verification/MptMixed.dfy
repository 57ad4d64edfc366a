/**
 * Tries whose keys have any lengths, so that a key may continue another: what every edit then keeps, and exactly
 * when a delete is right.
 */
module MptMixed {
  import opened Bytes
  import opened MptNode
  import opened MptTree
  import opened MptEdit
  import opened MptCanon

  // ----- what every edit keeps ----------------------------------------------------------------

  lemma {:induction false} PlugAlive(frames: seq<Frame>, t: Tree, t': Tree)
    requires FramesOk(frames) && Alive(Plug(frames, t))
    ensures Alive(t)
    ensures Alive(t') ==> Alive(Plug(frames, t'))
  {
    if frames != [] {
      FrameAlive(frames[0], Plug(frames[1..], t), Plug(frames[1..], t'));
      PlugAlive(frames[1..], t, t');
    }
  }

  lemma {:induction false} FrameAlive(f: Frame, a: Tree, b: Tree)
    requires FrameOk(f) && Alive(Plug1(f, a))
    ensures Alive(a)
    ensures Alive(b) ==> Alive(Plug1(f, b))
    ensures f.FBranch? ==> SidesAlive(f)
  {
    if f.FBranch? {
      var cs, ds := f.children[f.index := Some(a)], f.children[f.index := Some(b)];
      assert cs[f.index] == Some(a);
      assert Alive(cs[f.index].value);
      assert forall i | 0 <= i < 16 :: cs[i].Some? <==> ds[i].Some?;
      assert forall i | 0 <= i < 16 && i != f.index :: cs[i] == ds[i] == f.children[i];
      assert Plug1(f, a) == TBranch(cs, f.value) && Plug1(f, b) == TBranch(ds, f.value);
    }
  }

  ghost predicate SidesAlive(f: Frame)
    requires f.FBranch?
  {
    forall i {:trigger Alive(f.children[i].value)} | 0 <= i < |f.children| && i != f.index ::
      f.children[i].Some? ==> Alive(f.children[i].value)
  }

  lemma {:induction false} PutInBranchAlive(b: Tree, rest: Nibbles, value: Bytes)
    requires b.TBranch? && |b.children| == 16 && Stuck(b, rest) && value != []
    requires b.value != [] || exists i | 0 <= i < 16 :: b.children[i].Some?
    requires forall i | 0 <= i < 16 :: b.children[i].Some? ==> Alive(b.children[i].value)
    ensures Alive(PutInBranch(b, rest, value))
  {
    var c := PutInBranch(b, rest, value);
    if rest != [] && b.value == [] {
      var i :| 0 <= i < 16 && b.children[i].Some?;
      assert i != rest[0] && c.children[i].Some? && c.children[rest[0]].Some?;
    }
  }

  lemma {:induction false} PutAtAlive(cur: Tree, rest: Nibbles, value: Bytes)
    requires Wf(cur) && Stuck(cur, rest) && value != [] && Alive(cur)
    ensures Alive(PutAt(cur, rest, value))
  {
    if cur.TBranch? {
      PutInBranchAlive(cur, rest, value);
    } else if !(cur.TLeaf? && cur.key == rest) {
      var m := Match(cur.key, rest);
      var b := BranchFor(cur, m);
      if cur.key[m..] != [] {
        assert b.children[cur.key[m]].Some?;
      }
      PutInBranchAlive(b, rest[m..], value);
    }
  }

  lemma {:induction false} PutAlive(t: Tree, k: Nibbles, value: Bytes)
    requires Wf(t) && Alive(t) && value != []
    ensures Alive(PutTree(t, k, value))
  {
    DescendPlug(t, k);
    var s := Descend(t, k);
    PlugAlive(s.frames, s.cur, PutAt(s.cur, s.rest, value));
    PutAtAlive(s.cur, s.rest, value);
  }

  lemma {:induction false} HoistAlive(frames: seq<Frame>, j: Nibble, t: Tree, was: Tree)
    requires FramesOk(frames) && Alive(t) && Alive(Plug(frames, was))
    ensures Alive(Hoist(frames, j, t))
  {
    if frames != [] && frames[|frames| - 1].FExt? {
      var upper, f := frames[..|frames| - 1], frames[|frames| - 1];
      LastFrame(frames, was);
      PlugAlive(upper, Plug1(f, was), Prepend(f.key + [j], t));
    } else {
      PlugAlive(frames, was, Prepend([j], t));
    }
  }

  lemma {:induction false} CollapseAlive(frames: seq<Frame>, children: seq<Option<Tree>>, value: Bytes, was: Tree)
    requires FramesOk(frames) && |children| == 16 && Alive(Plug(frames, was))
    requires HasOnlyChild(children) || ValueOrTwo(children, value)
    requires forall i | 0 <= i < 16 :: children[i].Some? ==> Alive(children[i].value)
    ensures Alive(Collapse(frames, children, value))
  {
    if HasOnlyChild(children) {
      var j: Nibble :| OnlyChild(children, j)
                       && Collapse(frames, children, value) == Hoist(frames, j, children[j].value);
      HoistAlive(frames, j, children[j].value, was);
    } else {
      PlugAlive(frames, was, TBranch(children, value));
    }
  }

  /** A branch that loses a child keeps its value, or another child. */
  lemma {:induction false} OneChildLess(children: seq<Option<Tree>>, index: Nibble, value: Bytes)
    requires |children| == 16 && ValueOrTwo(children, value)
    ensures var cs := children[index := None]; HasOnlyChild(cs) || ValueOrTwo(cs, value)
  {
    if value == [] {
      ChildLeft(children, index);
    }
  }

  lemma {:induction false} LeafOutAlive(upper: seq<Frame>, f: Frame, leaf: Tree)
    requires FramesOk(upper) && FrameOk(f) && f.FBranch? && Alive(Plug(upper, Plug1(f, leaf)))
    ensures Alive(Collapse(upper, f.children[f.index := None], f.value))
  {
    var was, cs := Plug1(f, leaf), f.children[f.index := None];
    PlugAlive(upper, was, was);
    FrameAlive(f, leaf, leaf);
    OneChildLess(was.children, f.index, f.value);
    assert cs == was.children[f.index := None];
    CollapseAlive(upper, cs, f.value, was);
  }

  lemma {:induction false} DelAlive(t: Tree, k: Nibbles)
    requires Wf(t) && Alive(t)
    ensures DelTree(t, k).Some? ==> Alive(DelTree(t, k).value)
  {
    DescendPlug(t, k);
    var s := Descend(t, k);
    if Found(s) && s.frames != [] {
      if s.cur.TLeaf? {
        LastFrame(s.frames, s.cur);
        LeafOutAlive(s.frames[..|s.frames| - 1], s.frames[|s.frames| - 1], s.cur);
      } else {
        PlugAlive(s.frames, s.cur, s.cur);
        CollapseAlive(s.frames, s.cur.children, s.cur.value, s.cur);
      }
    }
  }

  /** No history leads to a branch without a value and a second child. */
  lemma {:induction false} RunAlive(ops: seq<Op>)
    ensures Run(ops).Some? ==> Alive(Run(ops).value)
  {
    if ops != [] {
      var t, op := Run(ops[..|ops| - 1]), ops[|ops| - 1];
      RunAlive(ops[..|ops| - 1]);
      if t.Some? {
        if op.Del? || op.value == [] {
          DelAlive(t.value, BytesToNibbles(op.key));
        } else {
          PutAlive(t.value, BytesToNibbles(op.key), op.value);
        }
      }
    }
  }

  // ----- when a delete is right ---------------------------------------------------------------

  /** Outside its guards `del` gets some key wrong: it loses one that should stay, or keeps its own. */
  lemma {:induction false} DelFails(t: Tree, k: Nibbles) returns (k': Nibbles)
    requires Wf(t) && Alive(t)
    requires SpotOk(t, k, Descend(t, k)) && Found(Descend(t, k)) && !DelWorks(Descend(t, k))
    ensures LookupIn(DelTree(t, k), k') != if k' == k then [] else Lookup(t, k')
  {
    var s := Descend(t, k);
    PlugAlive(s.frames, s.cur, s.cur);
    if s.frames == [] {
      var i :| 0 <= i < 16 && s.cur.children[i].Some?;
      k' := SomeKey(s.cur.children[i].value);
      assert ([i] + k')[1..] == k';
      k' := [i] + k';
    } else if s.cur.TLeaf? {
      var upper, f := s.frames[..|s.frames| - 1], s.frames[|s.frames| - 1];
      var cs := f.children[f.index := None];
      k' := PathKey(upper);
      LastFrame(s.frames, s.cur);
      CollapseLookup(upper, cs, f.value, k');
      PlugLookup(upper, TBranch(cs, []), s.cur, k');
      PlugLookup(upper, Plug1(f, s.cur), s.cur, k');
      assert k'[|k'|..] == [];
      assert k' != k by {
        assert |k| >= |k'| + 1;
      }
    } else {
      k' := k;
      CollapseLookup(s.frames, s.cur.children, s.cur.value, k);
      PlugLookup(s.frames, s.cur, s.cur, k);
      assert k == PathKey(s.frames) && k[|k|..] == [];
    }
  }

  /** `del` does what a map does exactly when its guards hold. */
  lemma {:induction false} DelExact(t: Tree, k: Nibbles)
    requires Wf(t) && Alive(t)
    ensures SpotOk(t, k, Descend(t, k))
    ensures (forall k' :: LookupIn(DelTree(t, k), k') == if k' == k then [] else Lookup(t, k'))
            <==> (Found(Descend(t, k)) ==> DelWorks(Descend(t, k)))
  {
    DescendPlug(t, k);
    if Found(Descend(t, k)) && !DelWorks(Descend(t, k)) {
      var k' := DelFails(t, k);
    } else {
      forall k'
        ensures LookupIn(DelTree(t, k), k') == if k' == k then [] else Lookup(t, k')
      {
        DelLookup(t, k, k');
      }
    }
  }

  /** Deleting the empty key, under which nothing is stored, empties a trie whose root is a branch. */
  lemma {:induction false} EmptyKeyEmptiesTrie()
    ensures var t := TBranch(NoChildren()[1 := Some(TLeaf([0], [7]))][2 := Some(TLeaf([0], [8]))], []);
            Wf(t) && Canon(t) && Lookup(t, []) == [] && Lookup(t, [1, 0]) == [7] && DelTree(t, []) == None
  {
    var t := TBranch(NoChildren()[1 := Some(TLeaf([0], [7]))][2 := Some(TLeaf([0], [8]))], []);
    assert t.children[1].Some? && t.children[2].Some?;
    assert [1, 0][1..] == [0];
  }

  /** Deleting a key that two longer keys continue leaves its value in place. */
  lemma {:induction false} ValueAtBranchStays()
    ensures var b := TBranch(NoChildren()[1 := Some(TLeaf([0], [7]))][2 := Some(TLeaf([0], [8]))], [9]);
            var t := TExt([5, 5], b);
            Wf(t) && Canon(t) && Lookup(t, [5, 5]) == [9] && DelTree(t, [5, 5]) == Some(t)
  {
    var b := TBranch(NoChildren()[1 := Some(TLeaf([0], [7]))][2 := Some(TLeaf([0], [8]))], [9]);
    var t := TExt([5, 5], b);
    assert b.children[1].Some? && b.children[2].Some?;
    assert !HasOnlyChild(b.children);
    assert TwoEntries(b.children, b.value);
    assert Lookup(t, [5, 5]) == Lookup(b, []) by {
      assert [5, 5][2..] == [];
    }
    var s := Descend(t, [5, 5]);
    assert s == Spot([FExt([5, 5])], b, []) by {
      assert [5, 5][2..] == [];
      assert Descend(b, []) == Spot([], b, []);
    }
    assert s.frames[1..] == [];
    assert RemoveAt(s) == Some(Plug(s.frames, b));
  }

  /** Deleting the one of two keys below a key's branch takes that key's value along. */
  lemma {:induction false} ValueLost()
    ensures var b := TBranch(NoChildren()[1 := Some(TLeaf([0], [7]))][2 := Some(TLeaf([0], [8]))], [9]);
            var t := TExt([5, 5], b);
            && Wf(t) && Canon(t) && Lookup(t, [5, 5]) == [9]
            && DelTree(t, [5, 5, 2, 0]).Some? && Lookup(DelTree(t, [5, 5, 2, 0]).value, [5, 5]) == []
  {
    var cs := NoChildren()[1 := Some(TLeaf([0], [7]))][2 := Some(TLeaf([0], [8]))];
    var b := TBranch(cs, [9]);
    var t, k: Nibbles := TExt([5, 5], b), [5, 5, 2, 0];
    assert cs[1].Some? && cs[2].Some?;
    assert TwoEntries(b.children, b.value);
    assert [5, 5][2..] == [] && k[2..] == [2, 0] && [2, 0][1..] == [0];
    assert Lookup(t, [5, 5]) == Lookup(b, []);
    var leaf, upper, f := TLeaf([0], [8]), [FExt([5, 5])], FBranch(cs, 2, [9]);
    assert Descend(leaf, [0]) == Spot([], leaf, [0]);
    assert Descend(b, [2, 0]) == Spot([f] + [], leaf, [0]);
    assert Descend(t, k) == Spot([FExt([5, 5])] + ([f] + []), leaf, [0]);
    var s := Descend(t, k);
    assert s.frames == upper + [f] && s.frames[..1] == upper;
    DescendPlug(t, k);
    assert OnlyChild(cs[2 := None], 1);
    LostWith(upper, f, [5, 5]);
  }

  lemma {:induction false} LostWith(upper: seq<Frame>, f: Frame, k: Nibbles)
    requires FramesOk(upper) && FrameOk(f) && f.FBranch? && k == PathKey(upper)
    requires HasOnlyChild(f.children[f.index := None])
    ensures Lookup(Collapse(upper, f.children[f.index := None], f.value), k) == []
  {
    var cs := f.children[f.index := None];
    CollapseLookup(upper, cs, f.value, k);
    PlugLookup(upper, TBranch(cs, []), TBranch(cs, []), k);
    assert k[|k|..] == [];
  }

  /** The delete changes no lookup but that of its own key, which finds nothing any more. */
  ghost predicate Removes(t: Option<Tree>, t': Option<Tree>, k: Nibbles) {
    forall k' :: LookupIn(t', k') == if k' == k then [] else LookupIn(t, k')
  }

  /** What a caller can see on the path of the key before the delete. */
  ghost predicate SafeToDelete(t: Option<Tree>, k: Nibbles)
    requires t.Some? ==> Wf(t.value)
  {
    t.Some? ==>
      var s := Descend(t.value, k);
      SpotOk(t.value, k, s) && (Found(s) ==> DelWorks(s))
  }

  /** After any history, over keys of any lengths, a delete is a map's removal exactly when it is safe. */
  lemma {:induction false} RunDelExact(ops: seq<Op>, key: Bytes)
    ensures var t, k := Run(ops), BytesToNibbles(key);
            Removes(t, Step(t, Del(key)), k) <==> SafeToDelete(t, k)
  {
    RunAlive(ops);
    var t, k := Run(ops), BytesToNibbles(key);
    if t.Some? {
      DelExact(t.value, k);
    }
  }

  ghost function ValueAndLeaf(): Tree {
    TBranch(NoChildren()[1 := Some(TLeaf([2], [8]))], [9])
  }

  lemma {:induction false} PutBelowValue()
    ensures var t := TLeaf([], [9]); Wf(t) && PutTree(t, [1, 2], [8]) == ValueAndLeaf()
  {
    var t, k: Nibbles := TLeaf([], [9]), [1, 2];
    assert Descend(t, k) == Spot([], t, k);
    assert Match(t.key, k) == 0 && t.key[0..] == [] && t.key[..0] == [] && k[0..] == k && k[1..] == [2];
    assert BranchFor(t, 0) == TBranch(NoChildren(), [9]);
  }

  lemma {:induction false} DelBelowValue()
    ensures Wf(ValueAndLeaf()) && DelTree(ValueAndLeaf(), [1, 2]) == Some(TBranch(NoChildren(), [9]))
  {
    var t, k: Nibbles := ValueAndLeaf(), [1, 2];
    var leaf, f := TLeaf([2], [8]), FBranch(t.children, 1, [9]);
    assert k[1..] == [2];
    assert Descend(leaf, [2]) == Spot([], leaf, [2]);
    assert Descend(t, k) == Spot([f] + [], leaf, [2]);
    assert [f][..0] == [] && t.children[1 := None] == NoChildren();
    assert !HasOnlyChild(NoChildren());
  }

  lemma {:induction false} ValueAloneRun()
    ensures Run([Put([], [9]), Put([0x12], [8]), Del([0x12])]) == Some(TBranch(NoChildren(), [9]))
  {
    var p, q, d := Put([], [9]), Put([0x12], [8]), Del([0x12]);
    assert [p][..0] == [] && [p, q][..1] == [p] && [p, q, d][..2] == [p, q];
    assert BytesToNibbles([0x12]) == [1, 2] by {
      assert [0x12][1..] == [];
    }
    assert Run([p]) == Some(TLeaf([], [9]));
    PutBelowValue();
    assert Run([p, q]) == Some(ValueAndLeaf());
    DelBelowValue();
  }

  /** A value alone in a root branch, as a history can leave it, is deleted as it should be. */
  lemma {:induction false} ValueAlone()
    ensures var t := Run([Put([], [9]), Put([0x12], [8]), Del([0x12])]);
            t.Some? && t.value.TBranch? && !Canon(t.value) && SafeToDelete(t, [])
  {
    ValueAloneRun();
    var t := TBranch(NoChildren(), [9]);
    assert Descend(t, []) == Spot([], t, []);
    DescendPlug(t, []);
  }
}
