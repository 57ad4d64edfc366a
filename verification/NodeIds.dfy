/** Node ids, their bits and their XOR distance (packages/kademlia/src/bucket.ts). */
module NodeIds {
  import opened Bytes

  type Id = Bytes

  /** A byte without its lowest `k` bits. */
  function Shift(b: nat, k: nat): nat {
    if k == 0 then b else Shift(b, k - 1) / 2
  }

  /** Bit `i` of an id, counted from the most significant bit of its first byte; a missing bit is 0. */
  predicate Bit(id: Id, i: nat) {
    i / 8 < |id| && Shift(id[i / 8], 7 - i % 8) % 2 == 1
  }

  /** The first `n` bits are the same. */
  predicate Agree(a: Id, b: Id, n: nat) {
    forall i: nat | i < n :: Bit(a, i) == Bit(b, i)
  }

  // ----- exclusive or ------------------------------------------------------------------------

  function Xor(a: nat, b: nat): nat
    decreases a + b
  {
    if a == 0 && b == 0 then 0 else 2 * Xor(a / 2, b / 2) + if a % 2 != b % 2 then 1 else 0
  }

  /** The exact distance of the first `k` bytes. */
  function DistanceTo(a: Id, b: Id, k: nat): nat
    requires k <= |a| && k <= |b|
  {
    if k == 0 then 0 else DistanceTo(a, b, k - 1) * 256 + Xor(a[k - 1], b[k - 1])
  }

  /** The distance of two ids of one length. */
  function Distance(a: Id, b: Id): nat
    requires |a| == |b|
  {
    DistanceTo(a, b, |a|)
  }

  lemma {:induction false} LackedByte(distance: nat, base: nat, k: nat)
    requires distance + 1 == base * Pow256(k)
    ensures distance * 256 + 256 == base * Pow256(k + 1)
  {
    assert base * (256 * Pow256(k)) == 256 * (base * Pow256(k));
  }

  /** The distance of any two ids: a byte that one of them lacks counts as 255, the most that two bytes differ by. */
  method ComputeDistance(firstId: Id, secondId: Id) returns (distance: nat)
    ensures var min := if |firstId| <= |secondId| then |firstId| else |secondId|;
            var max := |firstId| + |secondId| - min;
            distance + 1 == (DistanceTo(firstId, secondId, min) + 1) * Pow256(max - min)
    ensures |firstId| == |secondId| ==> distance == Distance(firstId, secondId)
  {
    var min := if |firstId| <= |secondId| then |firstId| else |secondId|;
    var max := if |firstId| <= |secondId| then |secondId| else |firstId|;
    distance := 0;
    var i := 0;
    while i < min
      invariant 0 <= i <= min
      invariant distance == DistanceTo(firstId, secondId, i)
    {
      distance := distance * 256 + Xor(firstId[i], secondId[i]);
      i := i + 1;
    }
    ghost var base := distance + 1;
    assert base * Pow256(0) == base;
    while i < max
      invariant min <= i <= max
      invariant distance + 1 == base * Pow256(i - min)
    {
      LackedByte(distance, base, i - min);
      distance := distance * 256 + 255;
      i := i + 1;
    }
  }

  // ----- bit by bit -----------------------------------------------------------------------------

  /** The number that the differences of the first `n` bits spell. */
  ghost function BitDistance(a: Id, b: Id, n: nat): nat {
    if n == 0 then 0 else 2 * BitDistance(a, b, n - 1) + if Bit(a, n - 1) != Bit(b, n - 1) then 1 else 0
  }

  function Pow2(k: nat): (r: nat)
    ensures r > 0
  {
    if k == 0 then 1 else 2 * Pow2(k - 1)
  }

  lemma {:induction false} BitOfByte(a: Id, k: nat, j: nat)
    requires k < |a| && 0 < j <= 8
    ensures Bit(a, 8 * k + j - 1) <==> Shift(a[k], 8 - j) % 2 == 1
    ensures Shift(a[k], 8 - (j - 1)) == Shift(a[k], 8 - j) / 2
  {
    var i := 8 * k + (j - 1);
    assert i / 8 == k && i % 8 == j - 1;
  }

  lemma {:induction false} Pow2OfEight()
    ensures Pow2(8) == 256
  {
  }

  lemma {:induction false} ByteEnds(b: Byte)
    ensures Shift(b, 8) == 0
  {
    Pow2OfEight();
    ShiftZero(b, 8);
  }

  lemma {:induction false} XorBit(x: nat, y: nat)
    ensures Xor(x, y) == 2 * Xor(x / 2, y / 2) + if x % 2 != y % 2 then 1 else 0
  {
  }

  lemma {:induction false} OneBitMore(d: nat, p: nat, p': nat, e: nat, e': nat, x: nat, x': nat, bit: nat)
    requires e == d * p + x && p' == 2 * p && e' == 2 * e + bit && x' == 2 * x + bit
    ensures e' == d * p' + x'
  {
    assert d * (2 * p) == 2 * (d * p);
  }

  lemma {:induction false} ByteByBit(a: Id, b: Id, k: nat, j: nat)
    requires k < |a| && k < |b| && j <= 8
    ensures BitDistance(a, b, 8 * k + j) == BitDistance(a, b, 8 * k) * Pow2(j)
              + Xor(Shift(a[k], 8 - j), Shift(b[k], 8 - j))
  {
    if j > 0 {
      ByteByBit(a, b, k, j - 1);
      BitOfByte(a, k, j);
      BitOfByte(b, k, j);
      var x, y, n := Shift(a[k], 8 - j), Shift(b[k], 8 - j), 8 * k + j - 1;
      XorBit(x, y);
      OneBitMore(BitDistance(a, b, 8 * k), Pow2(j - 1), Pow2(j), BitDistance(a, b, n), BitDistance(a, b, n + 1),
                 Xor(x / 2, y / 2), Xor(x, y), if Bit(a, n) != Bit(b, n) then 1 else 0);
    } else {
      ByteEnds(a[k]);
      ByteEnds(b[k]);
    }
  }

  lemma {:induction false} Scaled(d: nat, p: nat, e: nat, x: nat)
    requires e == d * p + x && p == 256
    ensures e == d * 256 + x
  {
  }

  lemma {:induction false} WholeByte(a: Id, b: Id, k: nat)
    requires k < |a| && k < |b|
    ensures BitDistance(a, b, 8 * k + 8) == BitDistance(a, b, 8 * k) * 256 + Xor(a[k], b[k])
  {
    Pow2OfEight();
    ByteByBit(a, b, k, 8);
    Scaled(BitDistance(a, b, 8 * k), Pow2(8), BitDistance(a, b, 8 * k + 8), Xor(Shift(a[k], 0), Shift(b[k], 0)));
  }

  /** The bytewise distance is the bitwise one. */
  lemma {:induction false} DistanceIsBitwise(a: Id, b: Id, k: nat)
    requires k <= |a| && k <= |b|
    ensures DistanceTo(a, b, k) == BitDistance(a, b, 8 * k)
  {
    if k > 0 {
      DistanceIsBitwise(a, b, k - 1);
      WholeByte(a, b, k - 1);
    }
  }

  /** Whoever first differs from the target is farther from it. */
  lemma {:induction false} FirstDifference(a: Id, b: Id, target: Id, i: nat, n: nat)
    requires i < n && Bit(a, i) == Bit(target, i) && Bit(b, i) != Bit(target, i) && Agree(a, b, i)
    ensures BitDistance(a, target, n) < BitDistance(b, target, n)
  {
    if n == i + 1 {
      SameDistance(a, b, target, i);
    } else {
      FirstDifference(a, b, target, i, n - 1);
    }
  }

  lemma {:induction false} SameDistance(a: Id, b: Id, target: Id, n: nat)
    requires Agree(a, b, n)
    ensures BitDistance(a, target, n) == BitDistance(b, target, n)
  {
    if n > 0 {
      SameDistance(a, b, target, n - 1);
    }
  }

  /** So of two ids that agree before bit `i`, the one with the target's bit there is nearer. */
  lemma {:induction false} Nearer(a: Id, b: Id, target: Id, i: nat)
    requires |a| == |b| == |target| && i < 8 * |a|
    requires Agree(a, b, i) && Bit(a, i) == Bit(target, i) && Bit(b, i) != Bit(target, i)
    ensures Distance(a, target) < Distance(b, target)
  {
    FirstDifference(a, b, target, i, 8 * |a|);
    DistanceIsBitwise(a, target, |a|);
    DistanceIsBitwise(b, target, |a|);
  }

  // ----- an id is its bits ---------------------------------------------------------------------

  lemma {:induction false} ShiftZero(b: nat, k: nat)
    requires b < Pow2(k)
    ensures Shift(b, k) == 0
  {
    if k > 0 {
      ShiftHalf(b, k - 1);
      ShiftZero(b / 2, k - 1);
    }
  }

  lemma {:induction false} ShiftHalf(b: nat, k: nat)
    ensures Shift(b, k + 1) == Shift(b / 2, k)
  {
    if k > 0 {
      ShiftHalf(b, k - 1);
    }
  }

  /** Two bytes with the same upper part and the same bits below it are the same. */
  lemma {:induction false} BytesFromBits(a: nat, b: nat, k: nat)
    requires Shift(a, k) == Shift(b, k) && forall j: nat | j < k :: Shift(a, j) % 2 == Shift(b, j) % 2
    ensures a == b
  {
    if k > 0 {
      assert Shift(a, k - 1) / 2 == Shift(b, k - 1) / 2 && Shift(a, k - 1) % 2 == Shift(b, k - 1) % 2;
      BytesFromBits(a, b, k - 1);
    }
  }

  /** Ids of one length with the same bits are the same. */
  lemma {:induction false} IdFromBits(a: Id, b: Id)
    requires |a| == |b| && Agree(a, b, 8 * |a|)
    ensures a == b
  {
    forall k | 0 <= k < |a|
      ensures a[k] == b[k]
    {
      ByteEnds(a[k]);
      ByteEnds(b[k]);
      forall j: nat | j < 8
        ensures Shift(a[k], j) % 2 == Shift(b[k], j) % 2
      {
        var i := 8 * k + (7 - j);
        assert i / 8 == k && i % 8 == 7 - j;
        assert Bit(a, i) == Bit(b, i);
      }
      BytesFromBits(a[k], b[k], 8);
    }
  }

  /** The index of the first bit in which two ids differ. */
  lemma {:induction false} DifferAt(a: Id, b: Id, from: nat) returns (i: nat)
    requires |a| == |b| && a != b && Agree(a, b, from)
    ensures from <= i < 8 * |a| && Agree(a, b, i) && Bit(a, i) != Bit(b, i)
  {
    i := from;
    if from >= 8 * |a| {
      IdFromBits(a, b);
    }
    while i < 8 * |a| && Bit(a, i) == Bit(b, i)
      invariant from <= i <= 8 * |a| && Agree(a, b, i)
    {
      i := i + 1;
    }
    if i == 8 * |a| {
      IdFromBits(a, b);
    }
  }

  /** Different ids are at different distances from any target. */
  lemma {:induction false} DistancesDiffer(a: Id, b: Id, target: Id)
    requires |a| == |b| == |target| && a != b
    ensures Distance(a, target) != Distance(b, target)
  {
    var i := DifferAt(a, b, 0);
    if Bit(a, i) == Bit(target, i) {
      Nearer(a, b, target, i);
    } else {
      Nearer(b, a, target, i);
    }
  }
}
