/**
 * The RLP codec (packages/rlp/src): a strict printer, its decoder, and the proof that each
 * is the inverse of the other.
 */
module Rlp {
  import opened Bytes
  import opened Hex

  /** A byte string or a nested list, the two shapes the codec works on. */
  datatype Item = Str(bytes: Bytes) | List(items: seq<Item>)

  const LIMIT: nat := Pow256(8)

  // ----- encoding ---------------------------------------------------------------------

  /** The header of a payload of `len` bytes; `offset` is 128 for strings, 192 for lists. */
  function Header(len: nat, offset: nat): Bytes
    requires 128 <= offset <= 192
  {
    if len < 56 then [len + offset]
    else BigEndian(offset + 55 + |BigEndian(len)|) + BigEndian(len)
  }

  /** A payload behind its header; a single byte below 128 needs none. */
  function Wrap(isList: bool, payload: Bytes): Bytes {
    if !isList && |payload| == 1 && payload[0] < 128 then payload
    else Header(|payload|, if isList then 192 else 128) + payload
  }

  ghost function Enc(item: Item): Bytes
    decreases item, 1
  {
    Wrap(item.List?, Payload(item))
  }

  ghost function Payload(item: Item): Bytes
    decreases item, 0
  {
    match item
    case Str(b) => b
    case List(items) => EncAll(items)
  }

  ghost function EncAll(items: seq<Item>): Bytes {
    if items == [] then [] else Enc(items[0]) + EncAll(items[1..])
  }

  /** Every payload is short enough for its length to fit the eight bytes a header offers. */
  ghost predicate Fits(item: Item) {
    && |Payload(item)| < LIMIT
    && (item.List? ==> AllFit(item.items))
  }

  ghost predicate AllFit(items: seq<Item>) {
    forall x | x in items :: Fits(x)
  }

  // ----- where an encoding ends ---------------------------------------------------------

  datatype Cut = Cut(isList: bool, payload: Bytes, rest: Bytes)

  /** The one way to read a header off the front of `input`, if there is one. */
  ghost function CutOf(input: Bytes): Option<Cut>
    requires input != []
  {
    var f := input[0];
    if f < 0x80 then Some(Cut(false, [f], input[1..]))
    else
      var base := if f < 0xc0 then 0x80 else 0xc0;
      if f - base < 56 then CutAt(input, base == 0xc0, 1, f - base)
      else
        var h := f - base - 54;
        if |input| < h || input[1] == 0 || FromBigEndian(input[1..h]) < 56 then None
        else CutAt(input, base == 0xc0, h, FromBigEndian(input[1..h]))
  }

  ghost function CutAt(input: Bytes, isList: bool, h: nat, n: nat): Option<Cut> {
    if |input| < h + n || (!isList && n == 1 && input[h] < 0x80) then None
    else Some(Cut(isList, input[h..h + n], input[h + n..]))
  }

  lemma {:induction false} LongHeader(len: nat, offset: nat)
    requires offset == 128 || offset == 192
    requires 56 <= len < LIMIT
    ensures var k := |BigEndian(len)|;
            1 <= k <= 8 && BigEndian(len)[0] != 0 && Header(len, offset) == [offset + 55 + k] + BigEndian(len)
  {
    LengthBytes(len);
    HeaderFrom(len, offset, BigEndian(len));
  }

  lemma {:induction false} LengthBytes(len: nat)
    requires 0 < len < LIMIT
    ensures 1 <= |BigEndian(len)| <= 8 && BigEndian(len)[0] != 0
  {
    BigEndianLength(len, 8);
    BigEndianRoundTrip(len);
  }

  lemma {:induction false} HeaderFrom(len: nat, offset: nat, v: Bytes)
    requires offset == 128 || offset == 192
    requires 56 <= len && v == BigEndian(len) && 1 <= |v| <= 8
    ensures Header(len, offset) == [offset + 55 + |v|] + v
  {
    BigEndianDigit(0, offset + 55 + |v|);
  }

  lemma {:induction false} CutShort(isList: bool, payload: Bytes, rest: Bytes)
    requires |payload| < 56
    requires !(!isList && |payload| == 1 && payload[0] < 128)
    ensures CutOf(Wrap(isList, payload) + rest) == Some(Cut(isList, payload, rest))
  {
    var f := |payload| + if isList then 192 else 128;
    var input := Wrap(isList, payload) + rest;
    assert input == [f] + payload + rest;
    assert input[1..1 + |payload|] == payload && input[1 + |payload|..] == rest;
  }

  lemma {:induction false} Slices(f: Byte, v: Bytes, payload: Bytes, rest: Bytes)
    ensures var input := [f] + v + payload + rest; var h := 1 + |v|;
            && input[0] == f && input[1..h] == v
            && input[h..h + |payload|] == payload && input[h + |payload|..] == rest
  {
  }

  lemma {:induction false} CutLong(isList: bool, payload: Bytes, rest: Bytes)
    requires 56 <= |payload| < LIMIT
    ensures CutOf(Wrap(isList, payload) + rest) == Some(Cut(isList, payload, rest))
  {
    var n, base := |payload|, if isList then 192 else 128;
    LongHeader(n, base);
    BigEndianRoundTrip(n);
    var v := BigEndian(n);
    var input := Wrap(isList, payload) + rest;
    assert input == [base + 55 + |v|] + v + payload + rest;
    Slices(base + 55 + |v|, v, payload, rest);
    assert input[1..1 + |v|][0] == input[1];
  }

  /** Wrapping, then reading the header back. */
  lemma {:induction false} CutWrapped(isList: bool, payload: Bytes, rest: Bytes)
    requires |payload| < LIMIT
    ensures Wrap(isList, payload) + rest != []
    ensures CutOf(Wrap(isList, payload) + rest) == Some(Cut(isList, payload, rest))
  {
    if !isList && |payload| == 1 && payload[0] < 128 {
      assert (payload + rest)[1..] == rest && [payload[0]] == payload;
    } else if |payload| < 56 {
      CutShort(isList, payload, rest);
    } else {
      CutLong(isList, payload, rest);
    }
  }

  /** Reading a header, then wrapping what it announced. */
  lemma {:induction false} WrapCut(input: Bytes)
    requires input != [] && CutOf(input).Some?
    ensures var c := CutOf(input).value; |c.payload| < LIMIT && Wrap(c.isList, c.payload) + c.rest == input
  {
    var f := input[0];
    if f >= 0x80 {
      var base := if f < 0xc0 then 0x80 else 0xc0;
      if f - base < 56 {
        WrapCutShort(input, base);
      } else {
        WrapCutLong(input, base);
      }
    } else {
      BigEndianLength(1, 8);
    }
  }

  lemma {:induction false} WrapCutShort(input: Bytes, base: nat)
    requires input != [] && CutOf(input).Some?
    requires base == (if input[0] < 0xc0 then 0x80 else 0xc0) && 0 <= input[0] - base < 56
    ensures var c := CutOf(input).value; |c.payload| < LIMIT && Wrap(c.isList, c.payload) + c.rest == input
  {
    assert LIMIT > 56 by { BigEndianLength(56, 8); BigEndianDigit(0, 56); }
    Rejoin(input, 1, input[0] - base);
  }

  lemma {:induction false} WrapCutLong(input: Bytes, base: nat)
    requires input != [] && CutOf(input).Some?
    requires base == (if input[0] < 0xc0 then 0x80 else 0xc0) && 56 <= input[0] - base
    ensures var c := CutOf(input).value; |c.payload| < LIMIT && Wrap(c.isList, c.payload) + c.rest == input
  {
    var c := CutOf(input).value;
    var h := input[0] - base - 54;
    var v := input[1..h];
    var n := FromBigEndian(v);
    BigEndianUnique(v);
    BigEndianLength(n, 8);
    LongHeader(n, base);
    Rejoin(input, h, n);
    assert Wrap(c.isList, c.payload) == [input[0]] + v + c.payload;
  }

  lemma {:induction false} Rejoin(input: Bytes, h: nat, n: nat)
    requires 0 < h && h + n <= |input|
    ensures [input[0]] + input[1..h] + input[h..h + n] + input[h + n..] == input
  {
  }

  // ----- encodings are uniquely decodable -------------------------------------------------

  /** No encoding is a prefix of another: an encoding followed by anything determines both. */
  lemma {:induction false} PrefixFree(a: Item, b: Item, r: Bytes, s: Bytes)
    requires Fits(a) && Fits(b)
    requires Enc(a) + r == Enc(b) + s
    ensures a == b && r == s
    decreases a, 1
  {
    CutWrapped(a.List?, Payload(a), r);
    CutWrapped(b.List?, Payload(b), s);
    if a.List? {
      SameItems(a.items, b.items);
    }
  }

  /** A string: a byte below 128 as itself, up to 55 bytes behind 128 plus their number, more behind 183 and so on. */
  lemma {:induction false} EncodedString(b: Bytes)
    requires |b| < LIMIT
    ensures |b| == 1 && b[0] < 0x80 ==> Enc(Str(b)) == b
    ensures |b| <= 55 && !(|b| == 1 && b[0] < 0x80) ==> Enc(Str(b)) == [0x80 + |b|] + b
    ensures |b| > 55 ==>
              var k := |BigEndian(|b|)|; 1 <= k <= 8 && Enc(Str(b)) == [0xb7 + k] + BigEndian(|b|) + b
  {
    if |b| > 55 {
      LongHeader(|b|, 128);
    }
  }

  /** How a list is: the encodings of its items one after the other, behind 192 and their length, or behind 247. */
  lemma {:induction false} EncodedList(items: seq<Item>)
    requires |EncAll(items)| < LIMIT
    ensures |EncAll(items)| <= 55 ==> Enc(List(items)) == [0xc0 + |EncAll(items)|] + EncAll(items)
    ensures |EncAll(items)| > 55 ==>
              var k := |BigEndian(|EncAll(items)|)|;
              1 <= k <= 8 && Enc(List(items)) == [0xf7 + k] + BigEndian(|EncAll(items)|) + EncAll(items)
  {
    if |EncAll(items)| > 55 {
      LongHeader(|EncAll(items)|, 192);
    }
  }

  lemma {:induction false} EncNonEmpty(item: Item)
    requires Fits(item)
    ensures Enc(item) != []
  {
    CutWrapped(item.List?, Payload(item), []);
    assert Enc(item) + [] == Enc(item);
  }

  lemma {:induction false} SameItems(xs: seq<Item>, ys: seq<Item>)
    requires AllFit(xs) && AllFit(ys)
    requires EncAll(xs) == EncAll(ys)
    ensures xs == ys
    decreases xs, 0
  {
    if xs != [] && ys != [] {
      PrefixFree(xs[0], ys[0], EncAll(xs[1..]), EncAll(ys[1..]));
      SameItems(xs[1..], ys[1..]);
      assert xs == [xs[0]] + xs[1..] && ys == [ys[0]] + ys[1..];
    } else if xs != [] {
      EncNonEmpty(xs[0]);
    } else if ys != [] {
      EncNonEmpty(ys[0]);
    }
  }

  /** Wherever decoding has got to in a list payload, any other reading of it has got there too. */
  lemma {:induction false} Aligned(decoded: seq<Item>, inner: Bytes, items: seq<Item>)
    requires AllFit(decoded) && AllFit(items)
    requires inner != [] && EncAll(items) == EncAll(decoded) + inner
    ensures |decoded| < |items|
    ensures inner == Enc(items[|decoded|]) + EncAll(items[|decoded| + 1..])
  {
    if decoded != [] {
      if items == [] {
        assert false;
      } else {
        var tail := EncAll(decoded[1..]) + inner;
        assert EncAll(items) == Enc(decoded[0]) + tail;
        PrefixFree(items[0], decoded[0], EncAll(items[1..]), tail);
        Aligned(decoded[1..], inner, items[1..]);
        assert items[1..][|decoded| - 1 + 1..] == items[|decoded| + 1..];
      }
    }
  }

  lemma {:induction false} EncAllSnoc(xs: seq<Item>, y: Item)
    ensures EncAll(xs + [y]) == EncAll(xs) + Enc(y)
  {
    if xs == [] {
      assert [y][1..] == [];
      assert EncAll([y]) == Enc(y) + EncAll([]);
    } else {
      EncAllSnoc(xs[1..], y);
      assert (xs + [y])[1..] == xs[1..] + [y];
    }
  }

  // ----- the encoder ----------------------------------------------------------------------

  function Concat(arrays: seq<Bytes>): Bytes {
    if arrays == [] then [] else Concat(arrays[..|arrays| - 1]) + arrays[|arrays| - 1]
  }

  lemma {:induction false} ConcatFirst(first: Bytes, arrays: seq<Bytes>)
    ensures Concat([first] + arrays) == first + Concat(arrays)
  {
    var all := [first] + arrays;
    if arrays == [] {
      assert all[..0] == [] && all[|all| - 1] == first;
    } else {
      ConcatFirst(first, arrays[..|arrays| - 1]);
      assert all[..|all| - 1] == [first] + arrays[..|arrays| - 1];
      assert all[|all| - 1] == arrays[|arrays| - 1];
    }
  }

  /** Copies the arrays one after the other into a buffer of their total length. */
  method ConcatBytes(arrays: seq<Bytes>) returns (r: Bytes)
    ensures r == Concat(arrays)
  {
    if |arrays| == 1 {
      assert arrays[..0] == [];
      return arrays[0];
    }
    var length := TotalLength(arrays);
    var result := new Byte[length](k => 0);
    var pad := 0;
    for i := 0 to |arrays|
      invariant pad == |Concat(arrays[..i])| <= length && result[..pad] == Concat(arrays[..i])
    {
      ConcatNext(arrays, i);
      SetAt(result, arrays[i], pad);
      pad := pad + |arrays[i]|;
    }
    assert arrays[..|arrays|] == arrays && result[..] == result[..pad];
    r := result[..];
  }

  lemma {:induction false} ConcatNext(arrays: seq<Bytes>, i: nat)
    requires i < |arrays|
    ensures Concat(arrays[..i + 1]) == Concat(arrays[..i]) + arrays[i]
    ensures |Concat(arrays[..i + 1])| <= |Concat(arrays)|
    decreases |arrays|
  {
    assert arrays[..i + 1][..i] == arrays[..i];
    if i + 1 == |arrays| {
      assert arrays[..i + 1] == arrays;
    } else {
      var most := arrays[..|arrays| - 1];
      ConcatNext(most, i);
      assert most[..i + 1] == arrays[..i + 1];
    }
  }

  method TotalLength(arrays: seq<Bytes>) returns (length: nat)
    ensures length == |Concat(arrays)|
  {
    length := 0;
    for i := 0 to |arrays|
      invariant length == |Concat(arrays[..i])|
    {
      ConcatNext(arrays, i);
      length := length + |arrays[i]|;
    }
    assert arrays[..|arrays|] == arrays;
  }

  method SetAt(result: array<Byte>, arr: Bytes, pad: nat)
    requires pad + |arr| <= result.Length
    modifies result
    ensures result[..pad + |arr|] == old(result[..pad]) + arr
  {
    forall k | 0 <= k < |arr| {
      result[pad + k] := arr[k];
    }
  }

  lemma {:induction false} HeaderDigits(len: nat, offset: nat, hexLength: string, firstByte: string)
    requires 56 <= len && 128 <= offset <= 192
    requires IsHex(hexLength) && IsHex(firstByte) && |hexLength| % 2 == 0 && |firstByte| % 2 == 0
    requires Unhex(hexLength) == BigEndian(len) && Unhex(firstByte) == BigEndian(offset + 55 + |hexLength| / 2)
    ensures IsHex(firstByte + hexLength) && |firstByte + hexLength| % 2 == 0
    ensures Unhex(firstByte + hexLength) == Header(len, offset)
  {
    UnhexConcat(firstByte, hexLength);
  }

  /** The header, written by way of hexadecimal digits when the length does not fit the first byte. */
  method EncodeLength(len: nat, offset: nat) returns (r: Bytes)
    requires offset == 128 || offset == 192
    ensures r == Header(len, offset)
  {
    if len < 56 {
      return [len + offset];
    }
    r := EncodeLongLength(len, offset);
  }

  method EncodeLongLength(len: nat, offset: nat) returns (r: Bytes)
    requires 56 <= len && 128 <= offset <= 192
    ensures r == Header(len, offset)
  {
    var hexLength := NumberToHex(len);
    var lLength := |hexLength| / 2;
    var firstByte := NumberToHex(offset + 55 + lLength);
    NumberBytes(len);
    NumberBytes(offset + 55 + lLength);
    r := BytesOfHeader(firstByte, hexLength, len, offset);
  }

  method BytesOfHeader(firstByte: string, hexLength: string, ghost len: nat, ghost offset: nat) returns (r: Bytes)
    requires 56 <= len && 128 <= offset <= 192
    requires IsHex(hexLength) && IsHex(firstByte) && |hexLength| % 2 == 0 && |firstByte| % 2 == 0
    requires Unhex(hexLength) == BigEndian(len) && Unhex(firstByte) == BigEndian(offset + 55 + |hexLength| / 2)
    ensures r == Header(len, offset)
  {
    HeaderDigits(len, offset, hexLength, firstByte);
    var bytes := HexToBytes(firstByte + hexLength);
    r := bytes.value;
  }

  method Encode(input: Item) returns (out: Bytes)
    ensures out == Enc(input)
    decreases input
  {
    match input
    case List(items) =>
      var output: seq<Bytes>, outputLength := [], 0;
      for i := 0 to |items|
        invariant Concat(output) == EncAll(items[..i]) && outputLength == |EncAll(items[..i])|
      {
        var encoded := Encode(items[i]);
        EncAllSnoc(items[..i], items[i]);
        assert items[..i + 1] == items[..i] + [items[i]];
        assert (output + [encoded])[..|output|] == output;
        output := output + [encoded];
        outputLength := outputLength + |encoded|;
      }
      assert items[..|items|] == items;
      var header := EncodeLength(outputLength, 192);
      ConcatFirst(header, output);
      out := ConcatBytes([header] + output);
    case Str(bytes) =>
      if |bytes| == 1 && bytes[0] < 128 {
        out := bytes;
      } else {
        var header := EncodeLength(|bytes|, 128);
        ConcatFirst(header, [bytes]);
        assert [bytes][..0] == [] && [header] + [bytes] == [header, bytes];
        out := ConcatBytes([header, bytes]);
      }
  }

  // ----- the decoder ----------------------------------------------------------------------

  datatype Error =
    | ExtraZeros | NotANumber | SinglePrefixed | NotEnoughBytes | StringTooShort | ListTooShort
    | TotalTooLong | OutOfBounds | TrailingBytes

  datatype Result<+T> = Ok(value: T) | Err(error: Error) {
    predicate IsFailure() { Err? }
    function PropagateFailure<U>(): Result<U> requires Err? { Err(error) }
    function Extract(): T requires Ok? { value }
  }

  datatype Decoded = Decoded(data: Item, remainder: Bytes)

  function SafeSlice(input: Bytes, start: nat, end: nat): Result<Bytes>
    requires start <= end
  {
    if end > |input| then Err(OutOfBounds) else Ok(input[start..end])
  }

  /** Read by way of hexadecimal digits, of which there must be some. */
  method DecodeLength(v: Bytes) returns (r: Result<nat>)
    ensures r == if v == [] then Err(NotANumber) else if v[0] == 0 then Err(ExtraZeros) else Ok(FromBigEndian(v))
  {
    if v != [] && v[0] == 0 {
      return Err(ExtraZeros);
    }
    var hex := BytesToHex(v);
    ParseBytes(v);
    r := if hex == [] then Err(NotANumber) else Ok(ParseHex(hex));
  }

  /** `item` stands at the front of `input`, with `rest` after it. */
  ghost predicate Reads(input: Bytes, item: Item, rest: Bytes) {
    Fits(item) && Enc(item) + rest == input
  }

  ghost predicate Unreadable(input: Bytes) {
    forall item, rest :: !Reads(input, item, rest)
  }

  ghost predicate NoItems(payload: Bytes) {
    forall items | AllFit(items) :: EncAll(items) != payload
  }

  /** What can be read is decided by the header, and for a list by its payload. */
  lemma {:induction false} ReadsIsCut(input: Bytes)
    requires input != []
    ensures CutOf(input).None? ==> Unreadable(input)
    ensures CutOf(input).Some? && CutOf(input).value.isList && NoItems(CutOf(input).value.payload) ==> Unreadable(input)
    ensures CutOf(input).Some? && !CutOf(input).value.isList ==>
              Reads(input, Str(CutOf(input).value.payload), CutOf(input).value.rest)
  {
    forall item, rest | Reads(input, item, rest)
      ensures CutOf(input) == Some(Cut(item.List?, Payload(item), rest))
      ensures item.List? ==> AllFit(item.items) && !NoItems(Payload(item))
    {
      CutWrapped(item.List?, Payload(item), rest);
    }
    if CutOf(input).Some? {
      WrapCut(input);
    }
  }

  lemma {:induction false} ReadsList(input: Bytes, items: seq<Item>)
    requires input != [] && CutOf(input).Some? && CutOf(input).value.isList
    requires AllFit(items) && EncAll(items) == CutOf(input).value.payload
    ensures Reads(input, List(items), CutOf(input).value.rest)
  {
    WrapCut(input);
  }

  /**
   * Accepts exactly the encodings: it reads an item off the front of the input when one stands
   * there, and fails only when none does.
   */
  method DecodeOne(input: Bytes) returns (r: Result<Decoded>)
    requires input != []
    ensures r.Ok? ==> Reads(input, r.value.data, r.value.remainder)
    ensures r.Err? ==> Unreadable(input)
    decreases |input|, 1
  {
    ReadsIsCut(input);
    var firstByte := input[0];
    if firstByte <= 0x7f {
      return Ok(Decoded(Str(input[0..1]), input[1..]));
    } else if firstByte <= 0xb7 {
      var length := firstByte - 0x7f;
      var data := [];
      if firstByte != 0x80 {
        data :- SafeSlice(input, 1, length);
      }
      if length == 2 && data[0] < 0x80 {
        return Err(SinglePrefixed);
      }
      return Ok(Decoded(Str(data), input[length..]));
    } else if firstByte <= 0xbf {
      var lLength := firstByte - 0xb6;
      if |input| - 1 < lLength {
        return Err(NotEnoughBytes);
      }
      var lengthBytes :- SafeSlice(input, 1, lLength);
      var length :- DecodeLength(lengthBytes);
      if length <= 55 {
        return Err(StringTooShort);
      }
      var data :- SafeSlice(input, lLength, length + lLength);
      return Ok(Decoded(Str(data), input[length + lLength..]));
    } else {
      r := DecodeList(input);
    }
  }

  /** The two list cases of `_decode`. */
  method DecodeList(input: Bytes) returns (r: Result<Decoded>)
    requires input != [] && input[0] > 0xbf
    ensures r.Ok? ==> Reads(input, r.value.data, r.value.remainder)
    ensures r.Err? ==> Unreadable(input)
    decreases |input|, 0
  {
    ReadsIsCut(input);
    var firstByte := input[0];
    if firstByte <= 0xf7 {
      var length := firstByte - 0xbf;
      var inner :- SafeSlice(input, 1, length);
      var decoded :- DecodeItems(inner);
      ReadsList(input, decoded);
      return Ok(Decoded(List(decoded), input[length..]));
    } else {
      var lLength := firstByte - 0xf6;
      var lengthBytes :- SafeSlice(input, 1, lLength);
      var length :- DecodeLength(lengthBytes);
      if length < 56 {
        return Err(ListTooShort);
      }
      var totalLength := lLength + length;
      if totalLength > |input| {
        return Err(TotalTooLong);
      }
      var inner :- SafeSlice(input, lLength, totalLength);
      var decoded :- DecodeItems(inner);
      ReadsList(input, decoded);
      return Ok(Decoded(List(decoded), input[totalLength..]));
    }
  }

  lemma {:induction false} StuckMeansNoItems(decoded: seq<Item>, inner: Bytes)
    requires AllFit(decoded) && inner != [] && Unreadable(inner)
    ensures NoItems(EncAll(decoded) + inner)
  {
    forall items | AllFit(items)
      ensures EncAll(items) != EncAll(decoded) + inner
    {
      if EncAll(items) == EncAll(decoded) + inner {
        Aligned(decoded, inner, items);
        assert Reads(inner, items[|decoded|], EncAll(items[|decoded| + 1..]));
      }
    }
  }

  lemma {:induction false} ReadOneMore(decoded: seq<Item>, inner: Bytes, data: Item, remainder: Bytes)
    requires AllFit(decoded) && Reads(inner, data, remainder)
    ensures AllFit(decoded + [data]) && |remainder| < |inner|
    ensures EncAll(decoded + [data]) + remainder == EncAll(decoded) + inner
  {
    EncAllSnoc(decoded, data);
    EncNonEmpty(data);
  }

  /** The loop both list cases run over their payload. */
  method DecodeItems(payload: Bytes) returns (r: Result<seq<Item>>)
    ensures r.Ok? ==> AllFit(r.value) && EncAll(r.value) == payload
    ensures r.Err? ==> NoItems(payload)
    decreases |payload|, 2
  {
    var innerRemainder, decoded := payload, [];
    while innerRemainder != []
      invariant AllFit(decoded) && EncAll(decoded) + innerRemainder == payload
      decreases |innerRemainder|
    {
      var d := DecodeOne(innerRemainder);
      if d.Err? {
        StuckMeansNoItems(decoded, innerRemainder);
        return Err(d.error);
      }
      ReadOneMore(decoded, innerRemainder, d.value.data, d.value.remainder);
      decoded := decoded + [d.value.data];
      innerRemainder := d.value.remainder;
    }
    return Ok(decoded);
  }

  /** The whole input must be one encoding; the empty input reads as the empty string. */
  method Decode(input: Bytes) returns (r: Result<Item>)
    ensures input == [] ==> r == Ok(Str([]))
    ensures input != [] && r.Ok? ==> Fits(r.value) && Enc(r.value) == input
    ensures input != [] && r.Err? ==> forall item | Fits(item) :: Enc(item) != input
  {
    if input == [] {
      return Ok(Str([]));
    }
    var d := DecodeOne(input);
    if d.Err? {
      forall item | Fits(item)
        ensures Enc(item) != input
      {
        assert !Reads(input, item, []);
        assert Enc(item) + [] == Enc(item);
      }
      return Err(d.error);
    }
    if |d.value.remainder| != 0 {
      forall item | Fits(item)
        ensures Enc(item) != input
      {
        if Enc(item) == input {
          PrefixFree(item, d.value.data, [], d.value.remainder);
        }
      }
      return Err(TrailingBytes);
    }
    return Ok(d.value.data);
  }

  /** Encoding, then decoding with anything behind the encoding, gives both back. */
  method RoundTrip(item: Item, rest: Bytes) returns (d: Result<Decoded>)
    requires Fits(item)
    ensures d == Ok(Decoded(item, rest))
  {
    var e := Encode(item);
    EncNonEmpty(item);
    d := DecodeOne(e + rest);
    assert Reads(e + rest, item, rest);
    PrefixFree(item, d.value.data, rest, d.value.remainder);
  }
}
