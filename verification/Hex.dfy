/** The codec's helpers, which take numbers and bytes through hexadecimal strings (packages/rlp/src/utils.ts). */
module Hex {
  import opened Bytes

  type Digit = d: int | 0 <= d < 16 witness 0

  /** The value of a hexadecimal digit, of either case. */
  function AsciiToBase16(c: char): Option<Digit> {
    if '0' <= c <= '9' then Some((c - '0') as int)
    else if 'A' <= c <= 'F' then Some((c - 'A') as int + 10)
    else if 'a' <= c <= 'f' then Some((c - 'a') as int + 10)
    else None
  }

  function DigitChar(d: Digit): (c: char)
    ensures IsDigit(c) && Value(c) == d
  {
    if d < 10 then '0' + d as char else 'a' + (d - 10) as char
  }

  predicate IsDigit(c: char) {
    AsciiToBase16(c).Some?
  }

  predicate IsHex(s: string) {
    forall i | 0 <= i < |s| :: IsDigit(s[i])
  }

  function Value(c: char): Digit {
    if IsDigit(c) then AsciiToBase16(c).value else 0
  }

  /** The digits in order, and the capital ones. */
  const DIGITS := "0123456789abcdef"
  const CAPITALS := "0123456789ABCDEF"

  /** A digit is a character of either row, and its value is where it stands there. */
  lemma {:induction false} DigitTable(c: char)
    ensures IsDigit(c) <==> c in DIGITS || c in CAPITALS
    ensures forall i | 0 <= i < 16 && (c == DIGITS[i] || c == CAPITALS[i]) :: Value(c) == i
  {
  }

  lemma {:induction false} DigitOf(d: Digit)
    ensures DigitChar(d) == DIGITS[d]
  {
  }

  // ----- numbers ----------------------------------------------------------------------------

  /** The digits of a number, without leading zeros; one digit for zero. */
  function ToString16(n: nat): (s: string)
    ensures s != [] && IsHex(s)
  {
    (if n < 16 then [] else ToString16(n / 16)) + [DigitChar(n % 16)]
  }

  function NumberToHex(n: nat): (s: string)
    ensures IsHex(s) && |s| % 2 == 0
  {
    var hex := ToString16(n);
    if |hex| % 2 == 1 then ['0'] + hex else hex
  }

  /** The number a string of digits spells. */
  function ParseHex(s: string): nat {
    if s == [] then 0 else ParseHex(s[..|s| - 1]) * 16 + Value(s[|s| - 1])
  }

  // ----- bytes ------------------------------------------------------------------------------

  function HexOf(v: Bytes): (s: string)
    ensures IsHex(s) && |s| == 2 * |v|
  {
    if v == [] then [] else HexOf(v[..|v| - 1]) + ByteHex(v[|v| - 1])
  }

  function ByteHex(b: Byte): (s: string)
    ensures |s| == 2 && IsHex(s) && Value(s[0]) * 16 + Value(s[1]) == b
  {
    [DigitChar(b / 16), DigitChar(b % 16)]
  }

  lemma {:induction false} HexAt(v: Bytes, i: nat)
    requires i < |v|
    ensures HexOf(v)[2 * i] == DIGITS[v[i] / 16] && HexOf(v)[2 * i + 1] == DIGITS[v[i] % 16]
  {
    DigitOf(v[i] / 16);
    DigitOf(v[i] % 16);
    if i < |v| - 1 {
      HexAt(v[..|v| - 1], i);
    }
  }

  method BytesToHex(uint8a: Bytes) returns (hex: string)
    ensures hex == HexOf(uint8a) && |hex| == 2 * |uint8a|
    ensures forall i | 0 <= i < |uint8a| ::
              hex[2 * i] == DIGITS[uint8a[i] / 16] && hex[2 * i + 1] == DIGITS[uint8a[i] % 16]
  {
    hex := "";
    for i := 0 to |uint8a|
      invariant hex == HexOf(uint8a[..i])
    {
      assert uint8a[..i + 1][..i] == uint8a[..i];
      hex := hex + ByteHex(uint8a[i]);
    }
    assert uint8a[..|uint8a|] == uint8a;
    forall i | 0 <= i < |uint8a|
      ensures hex[2 * i] == DIGITS[uint8a[i] / 16] && hex[2 * i + 1] == DIGITS[uint8a[i] % 16]
    {
      HexAt(uint8a, i);
    }
  }

  /** The bytes that pairs of digits spell. */
  function Unhex(s: string): (v: Bytes)
    ensures |v| == |s| / 2
  {
    if |s| < 2 then [] else Unhex(s[..|s| - 2]) + [Pair(s[|s| - 2], s[|s| - 1])]
  }

  function Pair(c: char, d: char): Byte {
    var high: int, low: int := Value(c), Value(d);
    high * 16 + low
  }

  lemma {:induction false} UnhexPair(s: string, c: char, d: char)
    ensures Unhex(s + [c, d]) == Unhex(s) + [Pair(c, d)]
  {
    var t := s + [c, d];
    assert t[..|t| - 2] == s && t[|t| - 2] == c && t[|t| - 1] == d;
  }

  lemma {:induction false} NextPair(hex: string, hi: nat)
    requires hi + 2 <= |hex|
    ensures Unhex(hex[..hi + 2]) == Unhex(hex[..hi]) + [Pair(hex[hi], hex[hi + 1])]
    ensures IsHex(hex[..hi]) && IsDigit(hex[hi]) && IsDigit(hex[hi + 1]) ==> IsHex(hex[..hi + 2])
  {
    UnhexPair(hex[..hi], hex[hi], hex[hi + 1]);
    assert hex[..hi + 2] == hex[..hi] + [hex[hi], hex[hi + 1]];
  }

  /** Succeeds for an even number of digits and nothing else, and so for no string that begins with 0x. */
  method HexToBytes(hexString: string) returns (r: Option<Bytes>)
    ensures r == if IsHex(hexString) && |hexString| % 2 == 0 then Some(Unhex(hexString)) else None
  {
    var hex := hexString;
    if 2 <= |hex| && hex[..2] == "0x" {
      assert hexString[1] == 'x' && !IsDigit('x');
      hex := hex[..2];
    }
    if |hex| % 2 == 1 {
      return None;
    }
    r := Pairs(hex);
  }

  /** The loop of `hexToBytes`. */
  method Pairs(hex: string) returns (r: Option<Bytes>)
    requires |hex| % 2 == 0
    ensures r == if IsHex(hex) then Some(Unhex(hex)) else None
  {
    var bytes := new Byte[|hex| / 2](k => 0);
    var ai, hi := 0, 0;
    while ai < bytes.Length
      invariant 0 <= ai <= bytes.Length && hi == 2 * ai
      invariant IsHex(hex[..hi]) && bytes[..ai] == Unhex(hex[..hi])
    {
      var n1, n2 := AsciiToBase16(hex[hi]), AsciiToBase16(hex[hi + 1]);
      if n1.None? || n2.None? {
        assert !IsDigit(hex[hi]) || !IsDigit(hex[hi + 1]);
        return None;
      }
      NextPair(hex, hi);
      bytes[ai] := Pair(hex[hi], hex[hi + 1]);
      ai, hi := ai + 1, hi + 2;
    }
    assert hex[..hi] == hex && bytes[..] == bytes[..ai];
    r := Some(bytes[..]);
  }

  // ----- through hexadecimal and back -----------------------------------------------------------

  /** Two digits less: the number without its lowest byte. */
  lemma {:induction false} LowByte(n: nat)
    requires n >= 256
    ensures ToString16(n) == ToString16(n / 256) + ByteHex(n % 256)
  {
    assert n / 16 / 16 == n / 256 && n / 16 % 16 == n % 256 / 16 && n % 16 == n % 256 % 16;
    assert ToString16(n / 16) == ToString16(n / 256) + [DigitChar(n / 16 % 16)];
  }

  lemma {:induction false} HighBytes(n: nat)
    requires n >= 256
    ensures NumberToHex(n) == NumberToHex(n / 256) + ByteHex(n % 256)
  {
    LowByte(n);
    Padded(ToString16(n / 256), ByteHex(n % 256));
  }

  lemma {:induction false} Padded(s: string, t: string)
    ensures ['0'] + (s + t) == ['0'] + s + t
  {
  }

  /** The bytes of a number's hexadecimal form are its minimal big-endian representation. */
  lemma {:induction false} NumberBytes(n: nat)
    requires n > 0
    ensures Unhex(NumberToHex(n)) == BigEndian(n)
  {
    if n < 256 {
      OneByte(n);
    } else {
      NumberBytes(n / 256);
      HighBytes(n);
      UnhexPair(NumberToHex(n / 256), DigitChar(n % 256 / 16), DigitChar(n % 256 % 16));
    }
  }

  lemma {:induction false} OneByte(n: nat)
    requires 0 < n < 256
    ensures Unhex(NumberToHex(n)) == BigEndian(n) == [n]
  {
    var hex := NumberToHex(n);
    assert ToString16(n / 16) == [DigitChar(n / 16)];
    assert hex == [DigitChar(n / 16), DigitChar(n % 16)];
    assert Unhex(hex[..0]) == [];
    assert BigEndian(n / 256) == [];
  }

  lemma {:induction false} UnhexConcat(s: string, t: string)
    requires |t| % 2 == 0
    ensures Unhex(s + t) == Unhex(s) + Unhex(t)
  {
    if t == [] {
      assert s + t == s;
    } else {
      UnhexConcat(s, t[..|t| - 2]);
      assert (s + t)[..|s + t| - 2] == s + t[..|t| - 2];
    }
  }

  /** The number that the digits of a byte string spell is its big-endian value. */
  lemma {:induction false} ParseBytes(v: Bytes)
    ensures ParseHex(HexOf(v)) == FromBigEndian(v)
  {
    if v != [] {
      var s, p := HexOf(v), HexOf(v[..|v| - 1]);
      ParseBytes(v[..|v| - 1]);
      var h := ByteHex(v[|v| - 1]);
      assert s[..|s| - 1] == p + [h[0]] && (p + [h[0]])[..|p|] == p;
    }
  }
}
