/**
 * The root depends on the content alone: canonical trees with the same content are the same tree,
 * so any two histories that end in the same map end in the same root.
 */
module MptCanon {
  import opened Bytes
  import opened MptNode
  import opened MptTree
  import opened MptEdit

  ghost predicate SameContent(a: Tree, b: Tree) {
    forall k :: Lookup(a, k) == Lookup(b, k)
  }

  /** A canonical branch holds two keys that differ in their first nibble. */
  lemma {:induction false} BranchKeys(t: Tree) returns (k1: Nibbles, k2: Nibbles)
    requires t.TBranch? && Wf(t) && Canon(t)
    ensures Lookup(t, k1) != [] && Lookup(t, k2) != []
    ensures k2 != [] && (k1 == [] || k1[0] != k2[0])
  {
    if t.value != [] {
      var i :| 0 <= i < 16 && t.children[i].Some?;
      k1 := [];
      k2 := KeyBelow(t, i);
    } else {
      var i, j :| 0 <= i < j < 16 && t.children[i].Some? && t.children[j].Some?;
      k1 := KeyBelow(t, i);
      k2 := KeyBelow(t, j);
    }
  }

  lemma {:induction false} KeyBelow(t: Tree, i: nat) returns (k: Nibbles)
    requires t.TBranch? && Wf(t) && Canon(t) && i < 16 && t.children[i].Some?
    ensures k != [] && k[0] == i && Lookup(t, k) != []
  {
    CanonAlive(t.children[i].value);
    k := SomeKey(t.children[i].value);
    assert ([i] + k)[1..] == k;
    k := [i] + k;
  }

  lemma {:induction false} UnderExt(t: Tree, k: Nibbles)
    requires t.TExt?
    ensures Lookup(t, t.key + k) == Lookup(t.child, k)
  {
    assert (t.key + k)[|t.key|..] == k;
  }

  lemma {:induction false} LeafIsNotMore(a: Tree, b: Tree)
    requires a.TLeaf? && !b.TLeaf? && Wf(b) && Canon(b)
    ensures !SameContent(a, b)
  {
    var k1, k2 := BranchKeys(if b.TExt? then b.child else b);
    if b.TExt? {
      UnderExt(b, k1);
      UnderExt(b, k2);
      assert (b.key + k1)[|b.key|..] == k1 && (b.key + k2)[|b.key|..] == k2;
      assert Lookup(a, b.key + k1) != Lookup(b, b.key + k1) || Lookup(a, b.key + k2) != Lookup(b, b.key + k2);
    } else {
      assert Lookup(a, k1) != Lookup(b, k1) || Lookup(a, k2) != Lookup(b, k2);
    }
  }

  lemma {:induction false} ExtIsNotBranch(a: Tree, b: Tree)
    requires a.TExt? && b.TBranch? && Wf(a) && Wf(b) && Canon(b)
    ensures !SameContent(a, b)
  {
    var k1, k2 := BranchKeys(b);
    assert Lookup(a, k1) != Lookup(b, k1) || Lookup(a, k2) != Lookup(b, k2);
  }

  /** What two continuations that part at once have in common. */
  lemma {:induction false} CommonPrefix(p: Nibbles, k1: Nibbles, k2: Nibbles, q: Nibbles)
    requires k2 != [] && (k1 == [] || k1[0] != k2[0])
    requires q <= p + k1 && q <= p + k2
    ensures |q| <= |p| && q == p[..|q|]
  {
    assert forall i | 0 <= i < |q| :: q[i] == (p + k1)[i] && q[i] == (p + k2)[i];
    assert k1 != [] ==> (p + k1)[|p|] == k1[0];
    assert (p + k2)[|p|] == k2[0];
  }

  lemma {:induction false} ExtKeyNotLonger(a: Tree, b: Tree)
    requires a.TExt? && b.TExt? && Wf(a) && Wf(b) && Canon(a) && SameContent(a, b)
    ensures |b.key| <= |a.key| && b.key == a.key[..|b.key|]
  {
    var k1, k2 := BranchKeys(a.child);
    UnderExt(a, k1);
    UnderExt(a, k2);
    assert Lookup(b, a.key + k1) != [] && Lookup(b, a.key + k2) != [];
    CommonPrefix(a.key, k1, k2, b.key);
  }

  /** The content decides a canonical tree. */
  lemma {:induction false} Unique(a: Tree, b: Tree)
    requires Wf(a) && Wf(b) && Canon(a) && Canon(b) && SameContent(a, b)
    ensures a == b
    decreases a
  {
    if a.TLeaf? || b.TLeaf? {
      if !b.TLeaf? {
        LeafIsNotMore(a, b);
      } else if !a.TLeaf? {
        LeafIsNotMore(b, a);
      } else {
        assert Lookup(b, a.key) == a.value;
      }
    } else if a.TExt? && b.TExt? {
      ExtKeyNotLonger(a, b);
      ExtKeyNotLonger(b, a);
      assert a.key == b.key;
      forall k
        ensures Lookup(a.child, k) == Lookup(b.child, k)
      {
        UnderExt(a, k);
        UnderExt(b, k);
      }
      Unique(a.child, b.child);
    } else if a.TExt? {
      ExtIsNotBranch(a, b);
    } else if b.TExt? {
      ExtIsNotBranch(b, a);
    } else {
      UniqueBranch(a, b);
    }
  }

  lemma {:induction false} UniqueBranch(a: Tree, b: Tree)
    requires a.TBranch? && b.TBranch?
    requires Wf(a) && Wf(b) && Canon(a) && Canon(b) && SameContent(a, b)
    ensures a == b
    decreases a, 0
  {
    assert Lookup(a, []) == Lookup(b, []);
    forall i | 0 <= i < 16
      ensures a.children[i] == b.children[i]
    {
      if a.children[i].Some? {
        var k := KeyBelow(a, i);
        assert Lookup(b, k) != [];
      }
      if b.children[i].Some? {
        var k := KeyBelow(b, i);
        assert Lookup(a, k) != [];
      }
      if a.children[i].Some? {
        forall k
          ensures Lookup(a.children[i].value, k) == Lookup(b.children[i].value, k)
        {
          assert ([i] + k)[1..] == k;
          assert Lookup(a, [i] + k) == Lookup(b, [i] + k);
        }
        Unique(a.children[i].value, b.children[i].value);
      }
    }
  }

  // ----- tries that may be empty ------------------------------------------------------------

  ghost function RootIn(hash: Hash, t: Option<Tree>): Bytes {
    if t.Some? then RootOf(hash, t.value) else hash(RLP_EMPTY_STRING)
  }

  ghost predicate KnownIn(hash: Hash, known: iset<Bytes>, t: Option<Tree>) {
    t.Some? ==> Known(hash, known, t.value)
  }

  ghost predicate CanonIn(t: Option<Tree>) {
    t.Some? ==> Wf(t.value) && Canon(t.value)
  }

  ghost predicate SameIn(a: Option<Tree>, b: Option<Tree>) {
    forall k :: LookupIn(a, k) == LookupIn(b, k)
  }

  /** Equal content, equal root; and without hash collisions equal root, equal content. */
  lemma {:induction false} RootDecidesContent(hash: Hash, known: iset<Bytes>, a: Option<Tree>, b: Option<Tree>)
    requires Sound(hash, known) && CanonIn(a) && CanonIn(b) && KnownIn(hash, known, a) && KnownIn(hash, known, b)
    ensures RootIn(hash, a) == RootIn(hash, b) <==> SameIn(a, b)
    ensures RootIn(hash, a) == RootIn(hash, b) <==> a == b
  {
    if a.Some? {
      RootNotEmpty(hash, known, a.value);
    }
    if b.Some? {
      RootNotEmpty(hash, known, b.value);
    }
    if a.Some? && b.Some? {
      if RootIn(hash, a) == RootIn(hash, b) {
        RefInjective(hash, known, a.value, b.value);
      }
      if SameIn(a, b) {
        forall k
          ensures Lookup(a.value, k) == Lookup(b.value, k)
        {
          assert LookupIn(a, k) == LookupIn(b, k);
        }
        Unique(a.value, b.value);
      }
    } else if a.Some? {
      CanonAlive(a.value);
      var k := SomeKey(a.value);
      assert LookupIn(a, k) != LookupIn(b, k);
    } else if b.Some? {
      CanonAlive(b.value);
      var k := SomeKey(b.value);
      assert LookupIn(a, k) != LookupIn(b, k);
    }
  }

  // ----- histories ----------------------------------------------------------------------------

  datatype Op = Put(key: Bytes, value: Bytes) | Del(key: Bytes)

  ghost function Step(t: Option<Tree>, op: Op): Option<Tree>
    requires t.Some? ==> Wf(t.value)
  {
    var k := BytesToNibbles(op.key);
    if op.Del? || op.value == [] then
      if t.Some? then DelTree(t.value, k) else None
    else if t.Some? then Some(PutTree(t.value, k, op.value))
    else Some(TLeaf(k, op.value))
  }

  /** The finite map the trie is to be. */
  function MapStep(m: map<Bytes, Bytes>, op: Op): map<Bytes, Bytes> {
    if op.Del? || op.value == [] then m - {op.key} else m[op.key := op.value]
  }

  function MapRun(ops: seq<Op>): map<Bytes, Bytes> {
    if ops == [] then map[] else MapStep(MapRun(ops[..|ops| - 1]), ops[|ops| - 1])
  }

  lemma {:induction false} StepWf(t: Option<Tree>, op: Op)
    requires t.Some? ==> Wf(t.value)
    ensures Step(t, op).Some? ==> Wf(Step(t, op).value)
  {
    var k := BytesToNibbles(op.key);
    if t.Some? {
      if op.Del? || op.value == [] {
        DelWf(t.value, k);
      } else {
        PutWf(t.value, k, op.value);
      }
    }
  }

  ghost function Run(ops: seq<Op>): (t: Option<Tree>)
    ensures t.Some? ==> Wf(t.value)
  {
    if ops == [] then None
    else
      var t := Run(ops[..|ops| - 1]);
      StepWf(t, ops[|ops| - 1]);
      Step(t, ops[|ops| - 1])
  }

  /** All keys have `n` bytes. */
  ghost predicate KeysOf(ops: seq<Op>, n: nat) {
    forall op | op in ops :: |op.key| == n
  }

  ghost predicate Good(t: Option<Tree>, n: nat) {
    t.Some? ==> Wf(t.value) && Canon(t.value) && Uniform(t.value, 2 * n)
  }

  ghost predicate Represents(t: Option<Tree>, m: map<Bytes, Bytes>) {
    forall key: Bytes :: LookupIn(t, BytesToNibbles(key)) == if key in m then m[key] else []
  }

  /** One operation on the trie is the same operation on the map. */
  lemma {:induction false} StepRefines(t: Option<Tree>, m: map<Bytes, Bytes>, op: Op)
    requires op.key != [] && Good(t, |op.key|) && Represents(t, m)
    ensures Good(Step(t, op), |op.key|) && Represents(Step(t, op), MapStep(m, op))
  {
    var k := BytesToNibbles(op.key);
    NibbleCount(op.key);
    StepWf(t, op);
    if t.Some? {
      FoundUniform(t.value, k);
      if op.Del? || op.value == [] {
        DelUniform(t.value, k);
      } else {
        PutCanon(t.value, k, op.value);
        PutUniform(t.value, k, op.value);
      }
    }
    forall key: Bytes
      ensures LookupIn(Step(t, op), BytesToNibbles(key)) == if key in MapStep(m, op) then MapStep(m, op)[key] else []
    {
      StepLookup(t, op, key);
    }
  }

  lemma {:induction false} StepLookup(t: Option<Tree>, op: Op, key: Bytes)
    requires op.key != [] && Good(t, |op.key|)
    ensures LookupIn(Step(t, op), BytesToNibbles(key))
            == if key != op.key then LookupIn(t, BytesToNibbles(key))
               else if op.Del? then [] else op.value
  {
    var k, k' := BytesToNibbles(op.key), BytesToNibbles(key);
    NibbleCount(op.key);
    if k == k' {
      NibblesInjective(op.key, key);
    }
    if t.Some? {
      FoundUniform(t.value, k);
      if op.Del? || op.value == [] {
        DelLookup(t.value, k, k');
      } else {
        PutLookup(t.value, k, op.value, k');
      }
    }
  }

  /** The trie refines a finite map, and stays canonical, over every history with keys of one length. */
  lemma {:induction false} RunRefines(ops: seq<Op>, n: nat)
    requires n > 0 && KeysOf(ops, n)
    ensures Good(Run(ops), n) && Represents(Run(ops), MapRun(ops))
  {
    if ops != [] {
      var before := ops[..|ops| - 1];
      RunRefines(before, n);
      StepRefines(Run(before), MapRun(before), ops[|ops| - 1]);
    }
  }

  lemma {:induction false} UniformLookup(t: Tree, n: int, k: Nibbles)
    requires Uniform(t, n) && Lookup(t, k) != []
    ensures |k| == n
    decreases t
  {
    match t
    case TLeaf(_, _) =>
    case TExt(key, child) => UniformLookup(child, n - |key|, k[|key|..]);
    case TBranch(children, _) =>
      assert k != [] && children[k[0]].Some?;
      assert Uniform(children[k[0]].value, n - 1);
      UniformLookup(children[k[0]].value, n - 1, k[1..]);
  }

  lemma {:induction false} SameMapSameContent(a: Option<Tree>, b: Option<Tree>, m: map<Bytes, Bytes>, n: nat)
    requires Good(a, n) && Good(b, n) && Represents(a, m) && Represents(b, m)
    ensures SameIn(a, b)
  {
    forall k
      ensures LookupIn(a, k) == LookupIn(b, k)
    {
      if LookupIn(a, k) != [] {
        UniformLookup(a.value, 2 * n, k);
      }
      if LookupIn(b, k) != [] {
        UniformLookup(b.value, 2 * n, k);
      }
      if |k| == 2 * n {
        UnpackPacked(k);
        var key := NibblesToPackedBytes(k);
        assert BytesToNibbles(key) == k;
      }
    }
  }

  /** Two histories whose tries are known end in the same root exactly when they end in the same map. */
  lemma {:induction false} RootOfKnown(hash: Hash, known: iset<Bytes>, ops: seq<Op>, ops': seq<Op>, n: nat)
    requires n > 0 && KeysOf(ops, n) && KeysOf(ops', n)
    requires Sound(hash, known) && KnownIn(hash, known, Run(ops)) && KnownIn(hash, known, Run(ops'))
    ensures RootIn(hash, Run(ops)) == RootIn(hash, Run(ops')) <==> MapRun(ops) == MapRun(ops')
  {
    RunRefines(ops, n);
    RunRefines(ops', n);
    RootDecidesContent(hash, known, Run(ops), Run(ops'));
    if MapRun(ops) == MapRun(ops') {
      SameMapSameContent(Run(ops), Run(ops'), MapRun(ops), n);
    } else if Run(ops) == Run(ops') {
      MapValues(ops);
      MapValues(ops');
      SameTreeSameMap(Run(ops), MapRun(ops), MapRun(ops'));
    }
  }

  lemma {:induction false} MapValues(ops: seq<Op>)
    ensures forall key | key in MapRun(ops) :: MapRun(ops)[key] != []
  {
    if ops != [] {
      MapValues(ops[..|ops| - 1]);
    }
  }

  lemma {:induction false} SameTreeSameMap(t: Option<Tree>, m: map<Bytes, Bytes>, m': map<Bytes, Bytes>)
    requires Represents(t, m) && Represents(t, m')
    requires forall key | key in m :: m[key] != []
    requires forall key | key in m' :: m'[key] != []
    ensures m == m'
  {
    forall key: Bytes
      ensures key in m <==> key in m'
      ensures key in m && key in m' ==> m[key] == m'[key]
    {
      assert LookupIn(t, BytesToNibbles(key)) == if key in m then m[key] else [];
    }
  }
}
