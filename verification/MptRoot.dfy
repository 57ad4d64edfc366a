/**
 * Which root a content has: the structural composition of Appendix D of the Yellow Paper and the hex-prefix
 * encoding of its Appendix C, defined on finite maps alone, and the proof that the trie computes it.
 */
module MptRoot {
  import opened Bytes
  import opened Rlp
  import opened MptNode
  import opened MptTree
  import opened MptEdit
  import opened MptCanon
  import opened MptSize
  import opened Mpt

  // ----- the hex-prefix encoding -----------------------------------------------------------------

  function Packed(hi: Nibble, lo: Nibble): (b: Byte)
    ensures b / 16 == hi && b % 16 == lo
  {
    var h: int, l: int := hi, lo;
    16 * h + l
  }

  /** Two nibbles to a byte; the first byte holds the kind of the node and, for an odd number, the first nibble. */
  function HexPrefix(x: Nibbles, isLeaf: bool): Bytes {
    var f: int, odd := if isLeaf then 2 else 0, |x| % 2;
    [if odd == 0 then Packed(f, 0) else Packed(f + 1, x[0])]
    + seq(|x| / 2, i requires 0 <= i < |x| / 2 => Packed(x[2 * i + odd], x[2 * i + 1 + odd]))
  }

  lemma {:induction false} PackedAt(arr: Nibbles, i: nat)
    requires |arr| % 2 == 0 && i < |arr| / 2
    ensures |NibblesToPackedBytes(arr)| == |arr| / 2
    ensures NibblesToPackedBytes(arr)[i] == Packed(arr[2 * i], arr[2 * i + 1])
  {
    UnpackPacked(arr);
    if i > 0 {
      PackedAt(arr[2..], i - 1);
    }
  }

  lemma {:induction false} PrefixedAt(key: Nibbles, isLeaf: bool, i: nat)
    requires 0 < i <= |key| / 2
    ensures var arr, odd := AddHexPrefix(key, isLeaf), |key| % 2;
            && |arr| == 2 * (|key| / 2 + 1)
            && arr[2 * i] == key[2 * i - 2 + odd] && arr[2 * i + 1] == key[2 * i - 1 + odd]
  {
  }

  lemma {:induction false} EncodedKeyAt(key: Nibbles, isLeaf: bool, i: nat)
    requires i <= |key| / 2
    ensures |EncodedKey(key, isLeaf)| == |key| / 2 + 1
    ensures EncodedKey(key, isLeaf)[i] == HexPrefix(key, isLeaf)[i]
  {
    PackedAt(AddHexPrefix(key, isLeaf), i);
    if i > 0 {
      PrefixedAt(key, isLeaf, i);
      assert HexPrefix(key, isLeaf)[i] == Packed(key[2 * i - 2 + |key| % 2], key[2 * i - 1 + |key| % 2]);
    }
  }

  lemma {:induction false} EncodedKeyIs(key: Nibbles, isLeaf: bool)
    ensures EncodedKey(key, isLeaf) == HexPrefix(key, isLeaf)
  {
    forall i: nat | i <= |key| / 2
      ensures |EncodedKey(key, isLeaf)| == |key| / 2 + 1
      ensures EncodedKey(key, isLeaf)[i] == HexPrefix(key, isLeaf)[i]
    {
      EncodedKeyAt(key, isLeaf, i);
    }
    EncodedKeyAt(key, isLeaf, 0);
  }

  /** The first byte of a packed key: what kind of node it is for, and the first nibble of an odd number. */
  lemma {:induction false} EncodedKeyFirst(key: Nibbles, isLeaf: bool)
    ensures |EncodedKey(key, isLeaf)| == |key| / 2 + 1
    ensures EncodedKey(key, isLeaf)[0] / 16 == (if isLeaf then 2 else 0) + |key| % 2
    ensures EncodedKey(key, isLeaf)[0] % 16 == if |key| % 2 == 1 then key[0] else 0
  {
    EncodedKeyAt(key, isLeaf, 0);
  }

  /** The other bytes: the remaining nibbles in pairs. */
  lemma {:induction false} EncodedKeyRest(key: Nibbles, isLeaf: bool, i: nat)
    requires 0 < i <= |key| / 2 < |EncodedKey(key, isLeaf)|
    ensures EncodedKey(key, isLeaf)[i] / 16 == key[2 * i - 2 + |key| % 2]
    ensures EncodedKey(key, isLeaf)[i] % 16 == key[2 * i - 1 + |key| % 2]
  {
    EncodedKeyAt(key, isLeaf, i);
  }

  /** The nibbles of a key, high half first. */
  function NibblesOf(key: Bytes): Nibbles {
    seq(2 * |key|, i requires 0 <= i < 2 * |key| => if i % 2 == 0 then key[i / 2] / 16 else key[i / 2] % 16)
  }

  lemma {:induction false} NibblesAt(key: Bytes)
    ensures BytesToNibbles(key) == NibblesOf(key)
  {
    if key != [] {
      NibblesAt(key[1..]);
      assert NibblesOf(key) == [key[0] / 16, key[0] % 16] + NibblesOf(key[1..]);
    }
  }

  // ----- the structural composition -----------------------------------------------------------------

  /** What a trie holds, by the nibbles of the keys. */
  type Content = map<Nibbles, Bytes>

  ghost function Longest(ks: set<Nibbles>): (n: nat)
    ensures forall k | k in ks :: |k| <= n
    ensures ks != {} ==> exists k :: k in ks && |k| == n
  {
    if ks == {} then 0
    else
      var k :| k in ks;
      var n := Longest(ks - {k});
      if |k| > n then |k| else n
  }

  /** All keys have the same first `x` nibbles. */
  ghost predicate Shared(ks: set<Nibbles>, x: nat) {
    && (forall k | k in ks :: x <= |k|)
    && forall k, k' | k in ks && k' in ks :: k[..x] == k'[..x]
  }

  /** How many nibbles all keys share. */
  ghost function SharedLength(ks: set<Nibbles>, i: nat): (x: nat)
    requires ks != {} && Shared(ks, i)
    ensures x >= i && Shared(ks, x) && !Shared(ks, x + 1)
    decreases Longest(ks) - i
  {
    if Shared(ks, i + 1) then SharedLength(ks, i + 1) else i
  }

  ghost function Under(j: Content, i: nat, x: Nibble): Content {
    map k | k in j && i < |k| && k[i] == x :: j[k]
  }

  ghost function ValueAt(j: Content, i: nat): Bytes {
    if exists k :: k in j && |k| == i then
      var k :| k in j && |k| == i;
      j[k]
    else []
  }

  /** The item that stands for a content of which all keys share `i` nibbles. */
  ghost function Composed(hash: Hash, j: Content, i: nat): Item
    requires j != map[] && Shared(j.Keys, i)
    decreases Longest(j.Keys) - i, 1
  {
    var k :| k in j;
    if |j| == 1 then List([Str(HexPrefix(k[i..], true)), Str(j[k])])
    else
      var e := SharedLength(j.Keys, i);
      if i != e then List([Str(HexPrefix(k[i..e], false)), Capped(hash, j, e)])
      else List(Slots(hash, j, i) + [Str(ValueAt(j, i))])
  }

  /** The sixteen contents that part at the next nibble. */
  ghost function Slots(hash: Hash, j: Content, i: nat): seq<Item>
    requires j != map[] && Shared(j.Keys, i)
    decreases Longest(j.Keys) - i, 0
  {
    BranchSmaller(j, i);
    seq(16, x requires 0 <= x < 16 => Capped(hash, Under(j, i, x), i + 1))
  }

  /** The item itself where it is shorter than a hash, and its hash where it is not. */
  ghost function Capped(hash: Hash, j: Content, i: nat): Item
    requires Shared(j.Keys, i)
    decreases Longest(j.Keys) - i, 2
  {
    if j == map[] then Str([])
    else
      var c := Composed(hash, j, i);
      if |Enc(c)| < 32 then c else Str(hash(Enc(c)))
  }

  ghost function TrieRoot(hash: Hash, j: Content): Bytes {
    hash(Enc(if j == map[] then Str([]) else Composed(hash, j, 0)))
  }

  lemma {:induction false} BranchSmaller(j: Content, i: nat)
    requires Shared(j.Keys, i)
    ensures forall x: Nibble ::
              Shared(Under(j, i, x).Keys, i + 1)
                && (Under(j, i, x) != map[] ==> Longest(Under(j, i, x).Keys) <= Longest(j.Keys))
  {
    forall x: Nibble
      ensures Shared(Under(j, i, x).Keys, i + 1)
      ensures Under(j, i, x) != map[] ==> Longest(Under(j, i, x).Keys) <= Longest(j.Keys)
    {
      UnderShared(j, i, x);
    }
  }

  lemma {:induction false} UnderShared(j: Content, i: nat, x: Nibble)
    requires Shared(j.Keys, i)
    ensures Shared(Under(j, i, x).Keys, i + 1)
    ensures Under(j, i, x) != map[] ==> Longest(Under(j, i, x).Keys) <= Longest(j.Keys)
  {
    var u := Under(j, i, x).Keys;
    forall k, k' | k in u && k' in u
      ensures k[..i + 1] == k'[..i + 1]
    {
      assert k[..i + 1] == k[..i] + [x] && k'[..i + 1] == k'[..i] + [x];
    }
  }

  // ----- the trie composes ------------------------------------------------------------------------

  /** `j` is what the tree holds, behind the nibbles `p`. */
  ghost predicate Holds(t: Tree, p: Nibbles, j: Content) {
    && (forall k :: k in j <==> p <= k && Lookup(t, k[|p|..]) != [])
    && (forall k | k in j :: j[k] == Lookup(t, k[|p|..]))
  }

  lemma {:induction false} HeldShared(t: Tree, p: Nibbles, j: Content, k: Nibbles)
    requires Holds(t, p, j)
    ensures Shared(j.Keys, |p|)
    ensures Lookup(t, k) != [] ==> p + k in j && j[p + k] == Lookup(t, k)
  {
    assert (p + k)[|p|..] == k;
    forall k1, k2 | k1 in j && k2 in j
      ensures k1[..|p|] == k2[..|p|]
    {
    }
  }

  /** Two continuations that part at once share no more than what is before them. */
  lemma {:induction false} PartAt(ks: set<Nibbles>, i: nat, q: Nibbles, k1: Nibbles, k2: Nibbles)
    requires q + k1 in ks && q + k2 in ks && k2 != [] && (k1 == [] || k1[0] != k2[0])
    requires i <= |q| && Shared(ks, i) && Shared(ks, |q|)
    ensures SharedLength(ks, i) == |q|
  {
    var x, a, b := SharedLength(ks, i), q + k1, q + k2;
    assert k1 != [] ==> a[|q|] != b[|q|];
    if x < |q| {
      forall k, k' | k in ks && k' in ks
        ensures k[..x + 1] == k'[..x + 1]
      {
        assert k[..|q|][..x + 1] == k[..x + 1] && k'[..|q|][..x + 1] == k'[..x + 1];
      }
    }
  }

  lemma {:induction false} TwoKeys(j: Content, a: Nibbles, b: Nibbles)
    requires a in j && b in j && a != b
    ensures |j| >= 2
  {
    assert {a, b} <= j.Keys;
    assert |{a, b}| == 2;
    SubsetSize({a, b}, j.Keys);
  }

  lemma {:induction false} SubsetSize(a: set<Nibbles>, b: set<Nibbles>)
    requires a <= b
    ensures |a| <= |b|
  {
    assert b == a + (b - a);
  }

  lemma {:induction false} LeafComposes(hash: Hash, t: Tree, p: Nibbles, j: Content)
    requires t.TLeaf? && Wf(t) && Holds(t, p, j)
    ensures j != map[] && Shared(j.Keys, |p|) && Composed(hash, j, |p|) == Raw(NodeOf(hash, t))
  {
    HeldShared(t, p, j, t.key);
    var key := p + t.key;
    forall k | k in j
      ensures k == key
    {
      assert k == p + k[|p|..];
    }
    assert j == map[key := t.value];
    assert key[|p|..] == t.key;
    EncodedKeyIs(t.key, true);
  }

  lemma {:induction false} ExtHeld(t: Tree, p: Nibbles, j: Content)
    requires t.TExt? && Holds(t, p, j)
    ensures Holds(t.child, p + t.key, j)
  {
    var q := p + t.key;
    forall k
      ensures k in j <==> q <= k && Lookup(t.child, k[|q|..]) != []
      ensures k in j ==> j[k] == Lookup(t.child, k[|q|..])
    {
      PrefixSplit(p, t.key, k);
    }
  }

  lemma {:induction false} ExtComposes(hash: Hash, t: Tree, p: Nibbles, j: Content)
    requires t.TExt? && Wf(t) && Canon(t) && Holds(t, p, j) && Holds(t.child, p + t.key, j)
    requires j != map[] && Shared(j.Keys, |p + t.key|)
    requires Capped(hash, j, |p + t.key|) == RefOf(hash, t.child)
    ensures Shared(j.Keys, |p|) && Composed(hash, j, |p|) == Raw(NodeOf(hash, t))
  {
    var q := p + t.key;
    var k1, k2 := BranchKeys(t.child);
    HeldShared(t, p, j, []);
    HeldShared(t.child, q, j, k1);
    HeldShared(t.child, q, j, k2);
    PartAt(j.Keys, |p|, q, k1, k2);
    TwoKeys(j, q + k1, q + k2);
    forall k | k in j
      ensures k[|p|..|q|] == t.key
    {
      assert k[..|q|] == q && q[|p|..] == t.key;
    }
    EncodedKeyIs(t.key, false);
  }

  lemma {:induction false} ChildHeld(t: Tree, p: Nibbles, j: Content, x: Nibble)
    requires t.TBranch? && Wf(t) && Holds(t, p, j)
    ensures if t.children[x].Some? then Holds(t.children[x].value, p + [x], Under(j, |p|, x))
            else Under(j, |p|, x) == map[]
  {
    var q, u := p + [x], Under(j, |p|, x);
    forall k
      ensures k in u <==> t.children[x].Some? && q <= k && Lookup(t.children[x].value, k[|q|..]) != []
      ensures k in u && t.children[x].Some? ==> u[k] == Lookup(t.children[x].value, k[|q|..])
    {
      PrefixSplit(p, [x], k);
      if p <= k && k[|p|..] != [] {
        assert k[|p|..][0] == k[|p|] && k[|p|..][1..] == k[|p| + 1..];
        assert [x] <= k[|p|..] <==> k[|p|] == x;
      }
    }
  }

  lemma {:induction false} ValueHeld(t: Tree, p: Nibbles, j: Content)
    requires t.TBranch? && Wf(t) && Holds(t, p, j)
    ensures ValueAt(j, |p|) == t.value
  {
    HeldShared(t, p, j, []);
    assert p + [] == p;
    forall k | k in j && |k| == |p|
      ensures k == p
    {
    }
  }

  lemma {:induction false} BranchComposes(hash: Hash, t: Tree, p: Nibbles, j: Content)
    requires t.TBranch? && Wf(t) && Canon(t) && Holds(t, p, j)
    requires Shared(j.Keys, |p|)
    requires forall x: Nibble :: Shared(Under(j, |p|, x).Keys, |p| + 1)
                                 && Capped(hash, Under(j, |p|, x), |p| + 1) == SlotOf(hash, t.children[x])
    ensures j != map[] && Composed(hash, j, |p|) == Raw(NodeOf(hash, t))
  {
    var k1, k2 := BranchKeys(t);
    HeldShared(t, p, j, k1);
    HeldShared(t, p, j, k2);
    PartAt(j.Keys, |p|, p, k1, k2);
    TwoKeys(j, p + k1, p + k2);
    ValueHeld(t, p, j);
    assert Slots(hash, j, |p|) == NodeOf(hash, t).children;
  }

  /** A canonical tree's node is the composition of what the tree holds. */
  lemma {:induction false} Composes(hash: Hash, t: Tree, p: Nibbles, j: Content)
    requires Wf(t) && Canon(t) && Holds(t, p, j)
    ensures j != map[] && Shared(j.Keys, |p|) && Composed(hash, j, |p|) == Raw(NodeOf(hash, t))
    ensures Capped(hash, j, |p|) == RefOf(hash, t)
    decreases t, 2
  {
    match t
    case TLeaf(_, _) => LeafComposes(hash, t, p, j);
    case TExt(key, child) =>
      ExtHeld(t, p, j);
      Composes(hash, child, p + key, j);
      ExtComposes(hash, t, p, j);
    case TBranch(_, _) =>
      ChildrenCompose(hash, t, p, j);
      BranchComposes(hash, t, p, j);
  }

  lemma {:induction false} ChildrenCompose(hash: Hash, t: Tree, p: Nibbles, j: Content)
    requires t.TBranch? && Wf(t) && Canon(t) && Holds(t, p, j)
    ensures Shared(j.Keys, |p|)
    ensures forall x: Nibble :: Shared(Under(j, |p|, x).Keys, |p| + 1)
                                && Capped(hash, Under(j, |p|, x), |p| + 1) == SlotOf(hash, t.children[x])
    decreases t, 1
  {
    HeldShared(t, p, j, []);
    forall x: Nibble
      ensures Shared(Under(j, |p|, x).Keys, |p| + 1)
      ensures Capped(hash, Under(j, |p|, x), |p| + 1) == SlotOf(hash, t.children[x])
    {
      ChildComposes(hash, t, p, j, x);
    }
  }

  lemma {:induction false} ChildComposes(hash: Hash, t: Tree, p: Nibbles, j: Content, x: Nibble)
    requires t.TBranch? && Wf(t) && Canon(t) && Holds(t, p, j)
    ensures Shared(Under(j, |p|, x).Keys, |p| + 1)
    ensures Capped(hash, Under(j, |p|, x), |p| + 1) == SlotOf(hash, t.children[x])
    decreases t, 0
  {
    ChildHeld(t, p, j, x);
    var c, q, u := t.children[x], p + [x], Under(j, |p|, x);
    assert |q| == |p| + 1;
    if c.Some? {
      assert Wf(c.value) && Canon(c.value);
      Composes(hash, c.value, q, u);
    }
  }

  // ----- histories --------------------------------------------------------------------------------

  ghost predicate HoldsIn(t: Option<Tree>, j: Content) {
    if t.Some? then Holds(t.value, [], j) else j == map[]
  }

  /** The root of a canonical trie is that of its content. */
  lemma {:induction false} RootOfContent(hash: Hash, t: Option<Tree>, j: Content)
    requires CanonIn(t) && HoldsIn(t, j)
    ensures RootIn(hash, t) == TrieRoot(hash, j)
  {
    if t.Some? {
      Composes(hash, t.value, [], j);
    } else {
      assert Enc(Str([])) == RLP_EMPTY_STRING;
    }
  }

  lemma {:induction false} NibblesDiffer()
    ensures forall a: Bytes, b: Bytes :: NibblesOf(a) == NibblesOf(b) ==> a == b
  {
    forall a: Bytes, b: Bytes | NibblesOf(a) == NibblesOf(b)
      ensures a == b
    {
      NibblesAt(a);
      NibblesAt(b);
      NibblesInjective(a, b);
    }
  }

  /** A map with the nibbles of its keys for the keys. */
  ghost function ContentOf(m: map<Bytes, Bytes>): Content {
    NibblesDiffer();
    map key | key in m :: NibblesOf(key) := m[key]
  }

  ghost predicate EvenKeys(t: Option<Tree>) {
    forall k | LookupIn(t, k) != [] :: |k| % 2 == 0
  }

  lemma {:induction false} ContentAt(m: map<Bytes, Bytes>, k: Nibbles)
    requires |k| % 2 == 0
    ensures var key, j := NibblesToPackedBytes(k), ContentOf(m);
            BytesToNibbles(key) == k && (k in j <==> key in m) && (key in m ==> j[k] == m[key])
  {
    UnpackPacked(k);
    var key := NibblesToPackedBytes(k);
    NibblesAt(key);
    NibblesDiffer();
    assert NibblesOf(key) == k;
  }

  lemma {:induction false} ContentEven(m: map<Bytes, Bytes>, k: Nibbles)
    requires k in ContentOf(m)
    ensures |k| % 2 == 0
  {
    var key :| key in m && NibblesOf(key) == k;
  }

  lemma {:induction false} ContentHeld(t: Option<Tree>, m: map<Bytes, Bytes>)
    requires t.Some? ==> Wf(t.value) && Canon(t.value)
    requires Represents(t, m) && EvenKeys(t) && forall key | key in m :: m[key] != []
    ensures HoldsIn(t, ContentOf(m))
  {
    forall k
      ensures k in ContentOf(m) <==> LookupIn(t, k) != []
      ensures k in ContentOf(m) ==> ContentOf(m)[k] == LookupIn(t, k)
    {
      HeldAt(t, m, k);
    }
    HeldIn(t, ContentOf(m));
  }

  lemma {:induction false} HeldAt(t: Option<Tree>, m: map<Bytes, Bytes>, k: Nibbles)
    requires Represents(t, m) && EvenKeys(t) && forall key | key in m :: m[key] != []
    ensures k in ContentOf(m) <==> LookupIn(t, k) != []
    ensures k in ContentOf(m) ==> ContentOf(m)[k] == LookupIn(t, k)
  {
    if k in ContentOf(m) {
      ContentEven(m, k);
    }
    if |k| % 2 == 0 {
      ContentAt(m, k);
      var key := NibblesToPackedBytes(k);
      assert LookupIn(t, BytesToNibbles(key)) == if key in m then m[key] else [];
    }
  }

  lemma {:induction false} HeldIn(t: Option<Tree>, j: Content)
    requires t.Some? ==> Wf(t.value)
    requires forall k :: k in j <==> LookupIn(t, k) != []
    requires forall k | k in j :: j[k] == LookupIn(t, k)
    ensures HoldsIn(t, j)
  {
    var none: Nibbles := [];
    forall k: Nibbles
      ensures none <= k && k[|none|..] == k
    {
    }
    if j != map[] {
      var k :| k in j;
      assert t.Some?;
    }
  }

  /** After any history over keys of one length, the root is that of Appendix D for the map the history leaves. */
  lemma {:induction false} RootOfRun(hash: Hash, ops: seq<Op>, n: nat)
    requires n > 0 && KeysOf(ops, n)
    ensures RootIn(hash, Run(ops)) == TrieRoot(hash, ContentOf(MapRun(ops)))
  {
    var t := Run(ops);
    RunRefines(ops, n);
    MapValues(ops);
    forall k | LookupIn(t, k) != []
      ensures |k| % 2 == 0
    {
      UniformLookup(t.value, 2 * n, k);
    }
    ContentHeld(t, MapRun(ops));
    RootOfContent(hash, t, ContentOf(MapRun(ops)));
  }

  // ----- puts of any keys ---------------------------------------------------------------------------

  ghost predicate OnlyPuts(ops: seq<Op>) {
    forall op | op in ops :: op.Put? && op.value != []
  }

  lemma {:induction false} PutStep(t: Option<Tree>, op: Op, k: Nibbles)
    requires CanonIn(t) && op.Put? && op.value != []
    ensures CanonIn(Step(t, op))
    ensures LookupIn(Step(t, op), k) == if k == BytesToNibbles(op.key) then op.value else LookupIn(t, k)
  {
    StepWf(t, op);
    if t.Some? {
      PutCanon(t.value, BytesToNibbles(op.key), op.value);
      PutLookup(t.value, BytesToNibbles(op.key), op.value, k);
    }
  }

  lemma {:induction false} PutRepresents(t: Option<Tree>, m: map<Bytes, Bytes>, op: Op, key: Bytes)
    requires CanonIn(t) && Represents(t, m) && op.Put? && op.value != []
    ensures LookupIn(Step(t, op), BytesToNibbles(key)) == if key in MapStep(m, op) then MapStep(m, op)[key] else []
  {
    PutStep(t, op, BytesToNibbles(key));
    if BytesToNibbles(key) == BytesToNibbles(op.key) {
      NibblesInjective(key, op.key);
    }
  }

  lemma {:induction false} PutRefines(t: Option<Tree>, m: map<Bytes, Bytes>, op: Op)
    requires CanonIn(t) && Represents(t, m) && EvenKeys(t) && op.Put? && op.value != []
    ensures CanonIn(Step(t, op)) && Represents(Step(t, op), MapStep(m, op)) && EvenKeys(Step(t, op))
  {
    PutStep(t, op, []);
    forall k | LookupIn(Step(t, op), k) != []
      ensures |k| % 2 == 0
    {
      PutStep(t, op, k);
      NibbleCount(op.key);
    }
    forall key: Bytes
      ensures LookupIn(Step(t, op), BytesToNibbles(key)) == if key in MapStep(m, op) then MapStep(m, op)[key] else []
    {
      PutRepresents(t, m, op, key);
    }
  }

  /** After puts of any keys, of whatever lengths, likewise. */
  lemma {:induction false} RootOfPuts(hash: Hash, ops: seq<Op>)
    requires OnlyPuts(ops)
    ensures RootIn(hash, Run(ops)) == TrieRoot(hash, ContentOf(MapRun(ops)))
  {
    PutsRefine(ops);
    MapValues(ops);
    ContentHeld(Run(ops), MapRun(ops));
    RootOfContent(hash, Run(ops), ContentOf(MapRun(ops)));
  }

  lemma {:induction false} PutsRefine(ops: seq<Op>)
    requires OnlyPuts(ops)
    ensures CanonIn(Run(ops)) && Represents(Run(ops), MapRun(ops)) && EvenKeys(Run(ops))
  {
    if ops != [] {
      var before := ops[..|ops| - 1];
      PutsRefine(before);
      PutRefines(Run(before), MapRun(before), ops[|ops| - 1]);
    }
  }

  // ----- the class --------------------------------------------------------------------------------

  /**
   * A trie taken through a history from empty has the root of the tree that the same edits lead to, whatever the
   * keys, as long as keys and values are short and no two of the encodings that occur collide. With keys of one
   * length, or without deletes, that is the root which Appendix D gives the map that the history leaves.
   */
  method Replay(hash: Hash, ops: seq<Op>) returns (t: MerklePatriciaTrie)
    requires ShortOps(ops) && Sound(hash, AllEncodings(hash, ops))
    ensures fresh(t) && t.Valid() && t.tree == Run(ops) && t.root == RootIn(hash, Run(ops))
    ensures (exists n :: n > 0 && KeysOf(ops, n)) || OnlyPuts(ops) ==>
              t.root == TrieRoot(hash, ContentOf(MapRun(ops)))
  {
    t := ReplayOps(hash, ops);
    ReplayRoot(hash, ops);
  }

  method ReplayOps(hash: Hash, ops: seq<Op>) returns (t: MerklePatriciaTrie)
    requires ShortOps(ops) && Sound(hash, AllEncodings(hash, ops))
    ensures fresh(t) && t.Valid() && t.hash == hash && t.tree == Run(ops)
  {
    ghost var known := AllEncodings(hash, ops);
    t := new MerklePatriciaTrie(hash, known);
    for i := 0 to |ops|
      invariant fresh(t) && t.Valid() && t.hash == hash && t.known == known && t.tree == Run(ops[..i])
    {
      assert ops[..i + 1][..i] == ops[..i];
      HistoryKnown(hash, ops, i + 1);
      match ops[i]
      case Put(key, value) => t.Put(key, value);
      case Del(key) => t.Del(key);
    }
    assert ops[..|ops|] == ops;
  }

  lemma {:induction false} ReplayRoot(hash: Hash, ops: seq<Op>)
    ensures (exists n :: n > 0 && KeysOf(ops, n)) || OnlyPuts(ops) ==>
              RootIn(hash, Run(ops)) == TrieRoot(hash, ContentOf(MapRun(ops)))
  {
    if n :| n > 0 && KeysOf(ops, n) {
      RootOfRun(hash, ops, n);
    } else if OnlyPuts(ops) {
      RootOfPuts(hash, ops);
    }
  }
}
