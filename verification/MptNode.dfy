/**
 * Trie nodes and their stored form (packages/merkel-trie/src/node, util/hex.ts, util/nibbles.ts):
 * hex-prefixed keys packed into bytes, and the RLP item a node is serialized as.
 */
module MptNode {
  import opened Bytes
  import opened Rlp

  type Nibble = x: int | 0 <= x < 16 witness 0
  type Nibbles = seq<Nibble>

  /** A child slot holds what the RLP item holds: a hash, a raw node, or the empty string for null. */
  datatype Node =
    | Leaf(key: Nibbles, value: Bytes)
    | Extension(key: Nibbles, child: Item)
    | Branch(children: seq<Item>, value: Bytes)

  const NULL: Item := Str([])

  // ----- keys -----------------------------------------------------------------------------

  function AddHexPrefix(key: Nibbles, terminator: bool): Nibbles {
    var t := if terminator then 2 else 0;
    if |key| % 2 == 1 then [1 + t] + key else [t, 0] + key
  }

  function RemoveHexPrefix(val: Nibbles): Nibbles {
    if val == [] then []
    else if val[0] % 2 == 1 then val[1..]
    else if |val| < 2 then [] else val[2..]
  }

  predicate IsTerminator(val: Nibbles) {
    val != [] && val[0] > 1
  }

  function NibblesToPackedBytes(arr: Nibbles): Bytes {
    if |arr| < 2 then []
    else
      var hi: int, lo: int := arr[0], arr[1];
      var packed: Byte := hi * 16 + lo;
      [packed] + NibblesToPackedBytes(arr[2..])
  }

  function BytesToNibbles(key: Bytes): Nibbles {
    if key == [] then [] else [key[0] / 16, key[0] % 16] + BytesToNibbles(key[1..])
  }

  lemma {:induction false} UnpackPacked(arr: Nibbles)
    requires |arr| % 2 == 0
    ensures BytesToNibbles(NibblesToPackedBytes(arr)) == arr
    ensures 2 * |NibblesToPackedBytes(arr)| == |arr|
  {
    if arr != [] {
      UnpackPacked(arr[2..]);
      assert arr == [arr[0], arr[1]] + arr[2..];
    }
  }

  lemma {:induction false} NibbleCount(key: Bytes)
    ensures |BytesToNibbles(key)| == 2 * |key|
  {
    if key != [] {
      NibbleCount(key[1..]);
    }
  }

  lemma {:induction false} NibblesInjective(a: Bytes, b: Bytes)
    requires BytesToNibbles(a) == BytesToNibbles(b)
    ensures a == b
  {
    NibbleCount(a);
    NibbleCount(b);
    if a != [] {
      var x, y := BytesToNibbles(a), BytesToNibbles(b);
      assert x[0] == a[0] / 16 && x[1] == a[0] % 16 && y[0] == b[0] / 16 && y[1] == b[0] % 16;
      assert x[2..] == BytesToNibbles(a[1..]) && y[2..] == BytesToNibbles(b[1..]);
      NibblesInjective(a[1..], b[1..]);
      assert a == [a[0]] + a[1..] && b == [b[0]] + b[1..];
    }
  }

  function EncodedKey(key: Nibbles, isLeaf: bool): Bytes {
    NibblesToPackedBytes(AddHexPrefix(key, isLeaf))
  }

  /** A packed key gives back its nibbles and the kind of node it belongs to. */
  lemma {:induction false} EncodedKeyRoundTrip(key: Nibbles, isLeaf: bool)
    ensures var nibbles := BytesToNibbles(EncodedKey(key, isLeaf));
            RemoveHexPrefix(nibbles) == key && IsTerminator(nibbles) == isLeaf
    ensures |EncodedKey(key, isLeaf)| <= |key| / 2 + 1
  {
    UnpackPacked(AddHexPrefix(key, isLeaf));
  }

  // ----- raw nodes --------------------------------------------------------------------------

  function Raw(n: Node): Item {
    match n
    case Leaf(key, value) => List([Str(EncodedKey(key, true)), Str(value)])
    case Extension(key, child) => List([Str(EncodedKey(key, false)), child])
    case Branch(children, value) => List(children + [Str(value)])
  }

  function DecodeRaw(raw: Item): Option<Node> {
    if raw.Str? then None
    else if |raw.items| == 17 && raw.items[16].Str? then
      Some(Branch(raw.items[..16], raw.items[16].bytes))
    else if |raw.items| == 2 && raw.items[0].Str? then
      var nibbles := BytesToNibbles(raw.items[0].bytes);
      if !IsTerminator(nibbles) then Some(Extension(RemoveHexPrefix(nibbles), raw.items[1]))
      else if raw.items[1].Str? then Some(Leaf(RemoveHexPrefix(nibbles), raw.items[1].bytes))
      else None
    else None
  }

  lemma {:induction false} DecodeRawNode(n: Node)
    requires n.Branch? ==> |n.children| == 16
    ensures DecodeRaw(Raw(n)) == Some(n)
  {
    match n
    case Leaf(key, _) => EncodedKeyRoundTrip(key, true);
    case Extension(key, _) => EncodedKeyRoundTrip(key, false);
    case Branch(children, value) => assert (children + [Str(value)])[..16] == children;
  }

  ghost function Serialize(n: Node): Bytes {
    Enc(Raw(n))
  }

  /** A stored node is never mistaken for another. */
  lemma {:induction false} SerializeInjective(a: Node, b: Node)
    requires Fits(Raw(a)) && Fits(Raw(b))
    requires a.Branch? ==> |a.children| == 16
    requires b.Branch? ==> |b.children| == 16
    requires Serialize(a) == Serialize(b)
    ensures a == b
  {
    PrefixFree(Raw(a), Raw(b), [], []);
    DecodeRawNode(a);
    DecodeRawNode(b);
  }

  // ----- sizes -------------------------------------------------------------------------------

  const SIZE: nat := 0x1_0000_0000

  lemma {:induction false} LimitValue()
    ensures LIMIT == SIZE * SIZE
  {
    assert Pow256(2) == 65536;
    assert Pow256(4) == SIZE;
    assert Pow256(6) == 65536 * SIZE;
  }

  lemma {:induction false} PayloadBound(items: seq<Item>, bound: nat)
    requires forall x | x in items :: |Enc(x)| <= bound
    ensures |EncAll(items)| <= bound * |items|
  {
    if items != [] {
      PayloadBound(items[1..], bound);
      OneMore(bound, |items[1..]|);
    }
  }

  lemma {:induction false} OneMore(bound: nat, n: nat)
    ensures bound * (n + 1) == bound + bound * n
  {
  }

  lemma {:induction false} StringBound(b: Bytes)
    requires |b| < 2 * SIZE
    ensures Fits(Str(b)) && |Enc(Str(b))| <= |b| + 9
  {
    LimitValue();
    if |b| >= 56 {
      LongHeader(|b|, 128);
    }
  }

  /** A child slot as the trie fills it: null, a hash, or a raw node shorter than a hash. */
  ghost predicate SlotOk(slot: Item) {
    Fits(slot) && |Enc(slot)| <= 33
  }

  ghost predicate NodeOk(n: Node) {
    match n
    case Leaf(key, value) => |key| < SIZE && |value| < SIZE
    case Extension(key, child) => |key| < SIZE && SlotOk(child)
    case Branch(children, value) => |children| == 16 && |value| < SIZE && forall c | c in children :: SlotOk(c)
  }

  /** Whatever the trie builds is short enough for RLP to carry. */
  lemma {:induction false} NodeFits(n: Node)
    requires NodeOk(n)
    ensures Fits(Raw(n))
  {
    LimitValue();
    match n {
      case Leaf(key, value) =>
        EncodedKeyRoundTrip(key, true);
        StringBound(EncodedKey(key, true));
        StringBound(value);
      case Extension(key, child) =>
        EncodedKeyRoundTrip(key, false);
        StringBound(EncodedKey(key, false));
      case Branch(children, value) =>
        StringBound(value);
    }
    PayloadBound(Raw(n).items, 2 * SIZE);
  }
}
