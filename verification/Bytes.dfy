/** Byte strings and big-endian numbers. */
module Bytes {
  type Byte = b: int | 0 <= b < 256 witness 0
  type Bytes = seq<Byte>

  datatype Option<+T> = None | Some(value: T)

  /** The minimal big-endian representation: no leading zero, and empty for 0. */
  function BigEndian(n: nat): Bytes {
    if n == 0 then [] else BigEndian(n / 256) + [n % 256]
  }

  function FromBigEndian(v: Bytes): nat {
    if v == [] then 0 else FromBigEndian(v[..|v| - 1]) * 256 + v[|v| - 1]
  }

  function Pow256(k: nat): (r: nat)
    ensures r > 0
  {
    if k == 0 then 1 else 256 * Pow256(k - 1)
  }

  lemma {:induction false} BigEndianRoundTrip(n: nat)
    ensures FromBigEndian(BigEndian(n)) == n
    ensures n > 0 ==> BigEndian(n) != [] && BigEndian(n)[0] != 0
  {
    if n > 0 {
      BigEndianRoundTrip(n / 256);
      var p := BigEndian(n / 256);
      assert BigEndian(n)[..|BigEndian(n)| - 1] == p;
    }
  }

  /** A byte string without a leading zero is the representation of its value. */
  lemma {:induction false} BigEndianUnique(v: Bytes)
    requires v != [] ==> v[0] != 0
    ensures BigEndian(FromBigEndian(v)) == v
    ensures v != [] ==> FromBigEndian(v) > 0
  {
    if v != [] {
      var p, b := v[..|v| - 1], v[|v| - 1];
      BigEndianUnique(p);
      var n := FromBigEndian(p);
      assert FromBigEndian(v) == n * 256 + b;
      assert n > 0 || b > 0 by {
        if p == [] {
          assert b == v[0];
        }
      }
      BigEndianDigit(n, b);
      assert v == p + [b];
    }
  }

  lemma {:induction false} BigEndianDigit(n: nat, b: Byte)
    requires n > 0 || b > 0
    ensures BigEndian(n * 256 + b) == BigEndian(n) + [b]
  {
    assert (n * 256 + b) / 256 == n && (n * 256 + b) % 256 == b;
  }

  /** The representation of `n` takes at most `k` bytes exactly when n < 256^k. */
  lemma {:induction false} BigEndianLength(n: nat, k: nat)
    ensures |BigEndian(n)| <= k <==> n < Pow256(k)
  {
    if n > 0 && k > 0 {
      BigEndianLength(n / 256, k - 1);
    }
  }
}
