/**
 * Code chunks and jump analysis (packages/utils/src/binaryTree.ts, packages/evm/src/interpreter.ts).
 */
module Chunks {
  import opened Bytes

  const JUMPDEST := 0x5b
  const CHUNK_SIZE := 31

  /** How many bytes of data follow the opcode. */
  function PushBytes(opcode: Byte): nat {
    if 0x60 <= opcode <= 0x7f then opcode - 0x5f else 0
  }

  /** Stepping over whole instructions from the one at `from`, the first position at or after `p`. */
  function FirstAt(code: Bytes, from: nat, p: nat): (r: nat)
    ensures from >= p || from >= |code| ==> r == from
    ensures r >= from && (r >= p || r >= |code|)
    decreases |code| - from
  {
    if from >= p || from >= |code| then from else FirstAt(code, from + 1 + PushBytes(code[from]), p)
  }

  /** An instruction begins here. */
  predicate Starts(code: Bytes, i: nat) {
    FirstAt(code, 0, i) == i
  }

  /** A jump may go to a JUMPDEST that is an instruction, and not to one in the data of a push. */
  predicate ValidJump(code: Bytes, i: nat) {
    i < |code| && code[i] == JUMPDEST && Starts(code, i)
  }

  lemma {:induction false} FirstAtTwice(code: Bytes, from: nat, p: nat, q: nat)
    requires p <= q
    ensures FirstAt(code, FirstAt(code, from, p), q) == FirstAt(code, from, q)
    decreases |code| - from
  {
    if from < p && from < |code| {
      FirstAtTwice(code, from + 1 + PushBytes(code[from]), p, q);
    }
  }

  /** The data of a push that is left at position `p`. */
  function PushLeft(code: Bytes, p: nat): nat {
    var r := FirstAt(code, 0, p);
    if r >= p then r - p else 0
  }

  /** From one instruction to the next. */
  lemma {:induction false} NextStart(code: Bytes, pos: nat, p: nat)
    requires pos < |code| && Starts(code, pos) && pos < p <= pos + 1 + PushBytes(code[pos])
    ensures FirstAt(code, 0, p) == pos + 1 + PushBytes(code[pos])
  {
    FirstAtTwice(code, 0, pos, p);
  }

  // ----- instructions, without stepping -----------------------------------------------------------

  /** An instruction at `j` pushes `n` bytes, and position `p` is among them. */
  ghost predicate Pushes(code: Bytes, j: nat, n: nat, p: nat) {
    j < |code| && 1 <= n <= 32 && code[j] == 0x5f + n && Starts(code, j) && j < p <= j + n
  }

  /** A position is an instruction exactly when it is not among the data of any instruction before it that pushes. */
  lemma {:induction false} StartsIff(code: Bytes, p: nat)
    requires p <= |code|
    ensures Starts(code, p) <==> !exists j: nat, n: nat :: Pushes(code, j, n, p)
  {
    if Starts(code, p) {
      forall j: nat, n: nat
        ensures !Pushes(code, j, n, p)
      {
        if j < |code| && Starts(code, j) && j < p {
          NotInData(code, j, p);
        }
      }
    } else {
      var j := Covering(code, 0, p);
      assert Pushes(code, j, PushBytes(code[j]), p);
    }
  }

  lemma {:induction false} NotInData(code: Bytes, j: nat, p: nat)
    requires j < |code| && Starts(code, j) && Starts(code, p) && j < p
    ensures p > j + PushBytes(code[j])
  {
    if p <= j + PushBytes(code[j]) {
      NextStart(code, j, p);
    }
  }

  /** The instruction whose data covers a position that none begins at. */
  lemma {:induction false} Covering(code: Bytes, from: nat, p: nat) returns (j: nat)
    requires from < p <= |code| && Starts(code, from) && !Starts(code, p)
    ensures j < p && Starts(code, j) && p <= j + PushBytes(code[j])
    ensures FirstAt(code, 0, p) == j + 1 + PushBytes(code[j])
    decreases p - from
  {
    var next := from + 1 + PushBytes(code[from]);
    NextStart(code, from, next);
    if p < next {
      NextStart(code, from, p);
      j := from;
    } else {
      j := Covering(code, next, p);
    }
  }

  /** How much push data is left at a position: what is left of the push whose data covers it. */
  ghost predicate DataLeftAt(code: Bytes, p: nat, left: nat) {
    if left == 0 then Starts(code, p)
    else exists j: nat, n: nat :: Pushes(code, j, n, p) && left == j + n + 1 - p
  }

  lemma {:induction false} LeftIs(code: Bytes, p: nat)
    requires p <= |code|
    ensures DataLeftAt(code, p, PushLeft(code, p))
  {
    if !Starts(code, p) {
      var j := Covering(code, 0, p);
      assert Pushes(code, j, PushBytes(code[j]), p);
    }
  }

  // ----- the scan of the whole code -------------------------------------------------------------

  function PushData(code: Bytes, i: nat, n: nat): (r: Bytes)
    requires i <= |code|
    ensures |r| == n
  {
    var data := code[i..if i + n <= |code| then i + n else |code|];
    data + seq(n - |data|, k => 0)
  }

  /** The number that a push pushes: its bytes of data in order, the first the most significant, zero after the code. */
  lemma {:induction false} PushedNumber(code: Bytes, i: nat, n: nat, q: nat) returns (hi: nat, lo: nat)
    requires i <= |code| && q < n
    ensures FromBigEndian(PushData(code, i, n)) < Pow256(n) && lo < Pow256(n - 1 - q)
    ensures var byte := if i + q < |code| then code[i + q] else 0;
            FromBigEndian(PushData(code, i, n)) == (hi * 256 + byte) * Pow256(n - 1 - q) + lo
  {
    hi, lo := Digit(PushData(code, i, n), q);
  }

  lemma {:induction false} Digit(v: Bytes, q: nat) returns (hi: nat, lo: nat)
    requires q < |v|
    ensures FromBigEndian(v) < Pow256(|v|)
    ensures lo < Pow256(|v| - 1 - q) && FromBigEndian(v) == (hi * 256 + v[q]) * Pow256(|v| - 1 - q) + lo
    decreases |v|
  {
    var n := |v| - 1;
    hi, lo := FromBigEndian(v[..n]), 0;
    if n > 0 {
      var h, l := Digit(v[..n], if q < n then q else 0);
      if q < n {
        hi, lo := h, l * 256 + v[n];
        Shift(h * 256 + v[q], Pow256(n - 1 - q), l, v[n]);
      }
    }
  }

  lemma {:induction false} Shift(a: nat, p: nat, l: nat, b: nat)
    ensures (a * p + l) * 256 + b == a * (256 * p) + (l * 256 + b)
  {
  }

  /** Marks the valid jump destinations and reads the numbers that the pushes push. */
  method GetValidJumpDestinations(code: Bytes) returns (jumps: array<Byte>, pushes: map<nat, nat>)
    ensures fresh(jumps) && jumps.Length == |code|
    ensures forall i | 0 <= i < |code| :: jumps[i] == if ValidJump(code, i) then 1 else 0
    ensures forall k :: k in pushes <==> 0 < k <= |code| && Starts(code, k - 1) && 0x60 <= code[k - 1] <= 0x7f
    ensures forall k | k in pushes :: pushes[k] == FromBigEndian(PushData(code, k, code[k - 1] - 0x5f))
  {
    jumps := new Byte[|code|](k => 0);
    pushes := map[];
    var i := 0;
    while i < |code|
      invariant Starts(code, i)
      invariant forall k | 0 <= k < |code| :: jumps[k] == if k < i && ValidJump(code, k) then 1 else 0
      invariant forall k ::
                  k in pushes <==> 0 < k <= |code| && k <= i && Starts(code, k - 1) && PushBytes(code[k - 1]) > 0
      invariant forall k | k in pushes :: pushes[k] == FromBigEndian(PushData(code, k, PushBytes(code[k - 1])))
      decreases |code| - i
    {
      var opcode := code[i];
      ghost var next := i + 1 + PushBytes(opcode);
      OnlyStart(code, i);
      if opcode <= 0x7f {
        if opcode >= 0x60 {
          var bytesToPush := opcode - 0x5f;
          pushes := pushes[i + 1 := FromBigEndian(PushData(code, i + 1, bytesToPush))];
          i := i + bytesToPush;
        } else if opcode == JUMPDEST {
          jumps[i] := 1;
        }
      }
      i := i + 1;
    }
  }

  /** Between an instruction and the next none begins. */
  lemma {:induction false} OnlyStart(code: Bytes, pos: nat)
    requires pos < |code| && Starts(code, pos)
    ensures Starts(code, pos + 1 + PushBytes(code[pos]))
    ensures forall k: nat | pos < k < pos + 1 + PushBytes(code[pos]) :: !Starts(code, k)
  {
    NextStart(code, pos, pos + 1 + PushBytes(code[pos]));
    forall k: nat | pos < k < pos + 1 + PushBytes(code[pos])
      ensures !Starts(code, k)
    {
      NextStart(code, pos, k);
    }
  }

  // ----- chunks ---------------------------------------------------------------------------------

  function Ceil(n: nat, d: nat): nat
    requires d > 0
  {
    (n + d - 1) / d
  }

  /** The code padded to whole chunks. */
  function Padded(code: Bytes): (r: Bytes)
    ensures |r| == CHUNK_SIZE * Ceil(|code|, CHUNK_SIZE) && |r| >= |code| && r[..|code|] == code
  {
    code + seq((CHUNK_SIZE - |code| % CHUNK_SIZE) % CHUNK_SIZE, k => 0)
  }

  /** Chunk `i`: how much push data it begins with, up to a whole chunk, and its bytes. */
  function ChunkOf(code: Bytes, i: nat): Bytes
    requires CHUNK_SIZE * (i + 1) <= |Padded(code)|
  {
    var left := PushLeft(Padded(code), CHUNK_SIZE * i);
    [if left < CHUNK_SIZE then left else CHUNK_SIZE] + Padded(code)[CHUNK_SIZE * i..CHUNK_SIZE * (i + 1)]
  }

  ghost predicate IsChunks(code: Bytes, chunks: seq<Bytes>) {
    && |Padded(code)| == CHUNK_SIZE * |chunks|
    && forall i: nat {:trigger chunks[i]} | i < |chunks| :: CHUNK_SIZE * (i + 1) <= |Padded(code)|
         && chunks[i] == ChunkOf(code, i)
  }

  lemma {:induction false} ChunkHas(code: Bytes, i: nat)
    requires CHUNK_SIZE * (i + 1) <= |Padded(code)|
    ensures ChunkBytes(code, i, ChunkOf(code, i))
  {
    var padded, at := Padded(code), CHUNK_SIZE * i;
    FirstAtPadded(code, padded, 0, at);
    LeftIs(code, at);
    forall k | 1 <= k < 32
      ensures ChunkOf(code, i)[k] == if at + k - 1 < |code| then code[at + k - 1] else 0
    {
      PaddedAt(code, at + k - 1);
    }
  }

  lemma {:induction false} PaddedAt(code: Bytes, p: nat)
    requires p < |Padded(code)|
    ensures Padded(code)[p] == if p < |code| then code[p] else 0
  {
  }

  method ChunkifyCode(code: Bytes) returns (chunks: seq<Bytes>)
    ensures IsChunks(code, chunks) && |chunks| == Ceil(|code|, CHUNK_SIZE)
    ensures 31 * |chunks| - 31 < |code| <= 31 * |chunks|
    ensures forall i: nat | i < |chunks| :: ChunkBytes(code, i, chunks[i])
  {
    var paddedCode := Padded(code);
    var bytesToExecData := MarkPushData(paddedCode);
    var numChunks := |paddedCode| / CHUNK_SIZE;
    chunks := [];
    var i, pos := 0, 0;
    while i < numChunks
      invariant 0 <= i <= numChunks == |paddedCode| / CHUNK_SIZE && pos == CHUNK_SIZE * i && |chunks| == i
      invariant forall k: nat {:trigger chunks[k]} | k < i ::
                  CHUNK_SIZE * (k + 1) <= |paddedCode| && chunks[k] == ChunkOf(code, k)
    {
      var first := if bytesToExecData[pos] < CHUNK_SIZE then bytesToExecData[pos] else CHUNK_SIZE;
      chunks := chunks + [[first] + paddedCode[pos..pos + CHUNK_SIZE]];
      i, pos := i + 1, pos + CHUNK_SIZE;
    }
    forall k: nat | k < |chunks|
      ensures ChunkBytes(code, k, chunks[k])
    {
      ChunkHas(code, k);
    }
  }

  /** What a chunk is: how much push data it begins with, 31 at the most, and 31 bytes of code, zero after its end. */
  ghost predicate ChunkBytes(code: Bytes, i: nat, chunk: Bytes) {
    && |chunk| == 32
    && (exists left: nat :: DataLeftAt(code, 31 * i, left) && chunk[0] == if left < 31 then left else 31)
    && forall k | 1 <= k < 32 :: chunk[k] == if 31 * i + k - 1 < |code| then code[31 * i + k - 1] else 0
  }

  /** For every position, how much push data is left there. */
  method MarkPushData(paddedCode: Bytes) returns (bytesToExecData: array<nat>)
    ensures fresh(bytesToExecData) && bytesToExecData.Length == |paddedCode| + 32
    ensures forall p: nat | p < |paddedCode| :: bytesToExecData[p] == PushLeft(paddedCode, p)
  {
    bytesToExecData := new nat[|paddedCode| + 32](k => 0);
    var pos := 0;
    while pos < |paddedCode|
      invariant pos <= |paddedCode| + 32 && Starts(paddedCode, pos)
      invariant forall p: nat | p < pos :: bytesToExecData[p] == PushLeft(paddedCode, p)
      invariant forall p: nat | pos <= p < |paddedCode| + 32 :: bytesToExecData[p] == 0
      decreases |paddedCode| - pos
    {
      var pushdataBytes := PushBytes(paddedCode[pos]);
      OnlyStart(paddedCode, pos);
      DataLeft(paddedCode, pos);
      pos := pos + 1;
      MarkData(bytesToExecData, pos, pushdataBytes);
      pos := pos + pushdataBytes;
    }
  }

  /** Counts a push's data down. */
  method MarkData(bytesToExecData: array<nat>, pos: nat, pushdataBytes: nat)
    requires pos + pushdataBytes <= bytesToExecData.Length
    modifies bytesToExecData
    ensures forall p: nat | pos <= p < pos + pushdataBytes :: bytesToExecData[p] == pos + pushdataBytes - p
    ensures forall p: nat | p < bytesToExecData.Length && !(pos <= p < pos + pushdataBytes) ::
              bytesToExecData[p] == old(bytesToExecData[p])
  {
    var x := 0;
    while x < pushdataBytes
      invariant 0 <= x <= pushdataBytes
      invariant forall p: nat | pos <= p < pos + x :: bytesToExecData[p] == pos + pushdataBytes - p
      invariant forall p: nat | p < bytesToExecData.Length && !(pos <= p < pos + x) ::
                  bytesToExecData[p] == old(bytesToExecData[p])
    {
      bytesToExecData[pos + x] := pushdataBytes - x;
      x := x + 1;
    }
  }

  lemma {:induction false} DataLeft(code: Bytes, pos: nat)
    requires pos < |code| && Starts(code, pos)
    ensures PushLeft(code, pos) == 0
    ensures forall p: nat | pos < p < pos + 1 + PushBytes(code[pos]) ::
              PushLeft(code, p) == pos + 1 + PushBytes(code[pos]) - p
  {
    forall p: nat | pos < p < pos + 1 + PushBytes(code[pos])
      ensures PushLeft(code, p) == pos + 1 + PushBytes(code[pos]) - p
    {
      NextStart(code, pos, p);
    }
  }

  // ----- jump analysis chunk by chunk -----------------------------------------------------------

  /** A jump destination by the chunk alone: an instruction when stepping from the end of the leading data. */
  predicate ValidInChunk(chunk: Bytes, j: nat) {
    && j + 1 < |chunk| && chunk[j + 1] == JUMPDEST
    && chunk[0] <= j && FirstAt(chunk[1..], chunk[0], j) == j
  }

  lemma {:induction false} FirstAtShifted(code: Bytes, lo: nat, data: Bytes, from: nat, p: nat)
    requires lo + |data| <= |code| && data == code[lo..lo + |data|] && p <= |data|
    ensures FirstAt(code, lo + from, lo + p) == lo + FirstAt(data, from, p)
    decreases |data| - from
  {
    if from < p {
      assert data[from] == code[lo + from];
      FirstAtShifted(code, lo, data, from + 1 + PushBytes(code[lo + from]), p);
    }
  }

  /** Bytes after the code do not change what comes before them. */
  lemma {:induction false} FirstAtPadded(code: Bytes, padded: Bytes, from: nat, p: nat)
    requires |code| <= |padded| && padded[..|code|] == code && p <= |code|
    ensures FirstAt(padded, from, p) == FirstAt(code, from, p)
    decreases |code| - from
  {
    if from < p {
      assert padded[from] == code[from];
      FirstAtPadded(code, padded, from + 1 + PushBytes(code[from]), p);
    }
  }

  /** At most 32 bytes of push data are left anywhere. */
  lemma {:induction false} LeftBound(code: Bytes, from: nat, p: nat)
    requires from <= p <= |code|
    ensures p <= FirstAt(code, from, p) <= p + 32
    decreases |code| - from
  {
    if from < p {
      var next := from + 1 + PushBytes(code[from]);
      if next <= p {
        LeftBound(code, next, p);
      }
    }
  }

  /** The chunks, each scanned by itself, mark exactly the jump destinations of the whole code. */
  lemma {:induction false} ChunkwiseJumps(code: Bytes, chunks: seq<Bytes>, i: nat)
    requires IsChunks(code, chunks) && i < |code|
    ensures i / CHUNK_SIZE < |chunks|
    ensures ValidInChunk(chunks[i / CHUNK_SIZE], i % CHUNK_SIZE) <==> ValidJump(code, i)
  {
    var c, j := i / CHUNK_SIZE, i % CHUNK_SIZE;
    var padded := Padded(code);
    ChunkInRange(i, |chunks|);
    var chunk := chunks[c];
    assert chunk == ChunkOf(code, c);
    var data := chunk[1..];
    assert data == padded[CHUNK_SIZE * c..CHUNK_SIZE * (c + 1)] && data[j] == padded[i] == code[i];
    FirstAtPadded(code, padded, 0, i);
    StartsInData(padded, CHUNK_SIZE * c, data, j);
  }

  lemma {:induction false} StartsInData(code: Bytes, lo: nat, data: Bytes, j: nat)
    requires lo + |data| <= |code| && data == code[lo..lo + |data|] && j < |data|
    ensures Starts(code, lo + j) <==> PushLeft(code, lo) <= j && FirstAt(data, PushLeft(code, lo), j) == j
  {
    LeftBound(code, 0, lo);
    FirstAtTwice(code, 0, lo, lo + j);
    FirstAtShifted(code, lo, data, PushLeft(code, lo), j);
  }

  lemma {:induction false} ChunkInRange(i: nat, n: nat)
    requires i < CHUNK_SIZE * n
    ensures i / CHUNK_SIZE < n && CHUNK_SIZE * (i / CHUNK_SIZE) + i % CHUNK_SIZE == i
  {
  }

  /** The longest push, over three chunks: the data fills the whole of the second and one byte of the third. */
  lemma {:induction false} ThreeChunkPush(code: Bytes)
    requires |code| == 93 && (forall k | 0 <= k < 30 :: code[k] == 0) && code[30] == 0x7f
    ensures PushLeft(code, 31) == 32 && PushLeft(code, 62) == 1
  {
    StopsStart(code, 30);
    NextStart(code, 30, 31);
    NextStart(code, 30, 62);
  }

  lemma {:induction false} StopsStart(code: Bytes, n: nat)
    requires n <= |code| && forall k | 0 <= k < n :: code[k] == 0
    ensures Starts(code, n)
  {
    if n > 0 {
      StopsStart(code, n - 1);
      NextStart(code, n - 1, n);
    }
  }
}
