/**
 * Code in the binary tree: chunk `i` under the stem of tree index (128 + i) / 256, at suffix (128 + i) % 256
 * (packages/utils/src/binaryTree.ts, packages/state-manager/src/statefulBinaryTreeStateManager.ts).
 */
module CodeStorage {
  import opened Bytes
  import opened Chunks

  const CODE_OFFSET := 128
  const NODE_WIDTH := 256

  type Address = nat

  /** The leading 31 bytes of a hash. */
  type Stem = nat

  type StemOf = (Address, nat) -> Stem

  ghost predicate CollisionFree(stemOf: StemOf) {
    forall a, i, b, j :: stemOf(a, i) == stemOf(b, j) ==> a == b && i == j
  }

  /** A stem and a suffix. */
  type Key = (Stem, nat)

  type Tree = map<Key, Bytes>

  function TreeIndex(chunkId: nat): nat {
    (CODE_OFFSET + chunkId) / NODE_WIDTH
  }

  function SubIndex(chunkId: nat): (r: nat)
    ensures r < NODE_WIDTH
  {
    (CODE_OFFSET + chunkId) % NODE_WIDTH
  }

  function KeyForCodeChunk(stemOf: StemOf, address: Address, chunkId: nat): Key {
    (stemOf(address, TreeIndex(chunkId)), SubIndex(chunkId))
  }

  /** As many stems as `numChunks` can need, and now and then one more. */
  function NumStems(numChunks: nat): nat {
    if numChunks > CODE_OFFSET then Ceil(numChunks, NODE_WIDTH) + 1 else 1
  }

  /** The first chunk that does not go under stem `s` or one before it. */
  function StemEnd(s: nat): nat {
    CODE_OFFSET + NODE_WIDTH * s
  }

  /** The stems cover all chunks; the last is one too many when the one before it ends at or after the last chunk. */
  lemma {:induction false} StemsCover(numChunks: nat)
    requires numChunks > 0
    ensures numChunks <= StemEnd(NumStems(numChunks) - 1)
    ensures forall i: nat | i < numChunks :: TreeIndex(i) < NumStems(numChunks)
    ensures (exists i: nat :: i < numChunks && TreeIndex(i) == NumStems(numChunks) - 1)
            <==> numChunks <= CODE_OFFSET || (numChunks - 1) % NODE_WIDTH >= CODE_OFFSET
  {
    if numChunks > CODE_OFFSET {
      var last := numChunks - 1;
      var q, r := last / NODE_WIDTH, last % NODE_WIDTH;
      assert Ceil(numChunks, NODE_WIDTH) == q + 1;
      assert TreeIndex(last) == if r >= CODE_OFFSET then q + 1 else q;
      forall i: nat | i < numChunks
        ensures TreeIndex(i) <= TreeIndex(last)
      {
      }
    } else {
      assert TreeIndex(0) == 0;
    }
  }

  lemma {:induction false} KeysDiffer(stemOf: StemOf, a: Address, i: nat, b: Address, j: nat)
    requires CollisionFree(stemOf) && (a != b || i != j)
    ensures KeyForCodeChunk(stemOf, a, i) != KeyForCodeChunk(stemOf, b, j)
  {
  }

  method GenerateChunkSuffixes(numChunks: nat) returns (chunkSuffixes: seq<nat>)
    ensures |chunkSuffixes| == numChunks && forall x | 0 <= x < numChunks :: chunkSuffixes[x] == SubIndex(x)
  {
    chunkSuffixes := [];
    var currentSuffix := CODE_OFFSET;
    var x := 0;
    while x < numChunks
      invariant 0 <= x <= numChunks && |chunkSuffixes| == x && currentSuffix == SubIndex(x)
      invariant forall y | 0 <= y < x :: chunkSuffixes[y] == SubIndex(y)
    {
      chunkSuffixes := chunkSuffixes + [currentSuffix];
      currentSuffix := currentSuffix + 1;
      if currentSuffix >= NODE_WIDTH {
        currentSuffix := 0;
      }
      x := x + 1;
    }
  }

  method GenerateCodeStems(stemOf: StemOf, numChunks: nat, address: Address) returns (chunkStems: seq<Stem>)
    ensures |chunkStems| == NumStems(numChunks)
    ensures forall s | 0 <= s < |chunkStems| :: chunkStems[s] == stemOf(address, s)
  {
    var numStems := NumStems(numChunks);
    chunkStems := [KeyForCodeChunk(stemOf, address, 0).0];
    var stemNum := 0;
    while stemNum < numStems - 1
      invariant 0 <= stemNum <= numStems - 1 && |chunkStems| == stemNum + 1
      invariant forall s | 0 <= s <= stemNum :: chunkStems[s] == stemOf(address, s)
    {
      FirstOfStem(stemNum);
      chunkStems := chunkStems + [KeyForCodeChunk(stemOf, address, CODE_OFFSET + stemNum * NODE_WIDTH).0];
      stemNum := stemNum + 1;
    }
  }

  lemma {:induction false} FirstOfStem(stemNum: nat)
    ensures TreeIndex(CODE_OFFSET + stemNum * NODE_WIDTH) == stemNum + 1
  {
  }

  /** The slice of a sequence whose bounds may lie beyond its end. */
  function Slice<T>(s: seq<T>, start: nat, end: nat): seq<T> {
    var hi := if end < |s| then end else |s|;
    if start <= hi then s[start..hi] else []
  }

  function NumChunks(code: Bytes): nat {
    Ceil(|code|, CHUNK_SIZE)
  }

  /** The first `n` chunks of the code are where they belong. */
  ghost predicate Stored(stemOf: StemOf, tree: Tree, address: Address, code: Bytes, n: nat)
    requires n <= NumChunks(code)
  {
    forall i: nat {:trigger KeyForCodeChunk(stemOf, address, i)} | i < n ::
      var key := KeyForCodeChunk(stemOf, address, i);
      ChunkFits(code, i) && key in tree && tree[key] == ChunkOf(code, i)
  }

  ghost predicate ChunkFits(code: Bytes, i: nat) {
    CHUNK_SIZE * (i + 1) <= |Padded(code)|
  }

  /** Chunk `i` of the code stands under suffix (128 + i) % 256 of the account's stem number (128 + i) / 256. */
  ghost predicate ChunkAt(stemOf: StemOf, tree: Tree, address: Address, code: Bytes, i: nat) {
    var key: Key := (stemOf(address, (128 + i) / 256), (128 + i) % 256);
    key in tree && ChunkBytes(code, i, tree[key])
  }

  lemma {:induction false} StoredAt(stemOf: StemOf, tree: Tree, address: Address, code: Bytes, i: nat)
    requires Stored(stemOf, tree, address, code, NumChunks(code)) && 31 * i < |code|
    ensures ChunkAt(stemOf, tree, address, code, i)
  {
    assert i < NumChunks(code);
    assert KeyForCodeChunk(stemOf, address, i) in tree;
    ChunkHas(code, i);
  }

  /** Nothing but the keys of this account's chunks differs. */
  ghost predicate OnlyChunksOf(stemOf: StemOf, tree: Tree, tree': Tree, address: Address) {
    forall key: Key | (forall i: nat :: key != KeyForCodeChunk(stemOf, address, i)) ::
      (key in tree' <==> key in tree) && (key in tree ==> tree'[key] == tree[key])
  }

  lemma {:induction false} StoredKept(stemOf: StemOf, tree: Tree, tree': Tree, address: Address, other: Address,
                                      code: Bytes)
    requires CollisionFree(stemOf) && OnlyChunksOf(stemOf, tree, tree', address) && other != address
    requires Stored(stemOf, tree, other, code, NumChunks(code))
    ensures Stored(stemOf, tree', other, code, NumChunks(code))
  {
    forall i: nat | i < NumChunks(code)
      ensures var key := KeyForCodeChunk(stemOf, other, i);
              ChunkFits(code, i) && key in tree' && tree'[key] == ChunkOf(code, i)
    {
      forall j: nat
        ensures KeyForCodeChunk(stemOf, other, i) != KeyForCodeChunk(stemOf, address, j)
      {
        KeysDiffer(stemOf, other, i, address, j);
      }
    }
  }

  class CodeStore {
    const stemOf: StemOf
    var tree: Tree
    /** The code size in the header of each account that has code. */
    var codeSize: map<Address, nat>
    ghost var codes: map<Address, Bytes>

    ghost predicate Valid()
      reads this
    {
      && CollisionFree(stemOf) && codeSize.Keys == codes.Keys
      && forall a | a in codes :: codeSize[a] == |codes[a]| > 0
           && Stored(stemOf, tree, a, codes[a], NumChunks(codes[a]))
    }

    constructor (stemOf: StemOf)
      requires CollisionFree(stemOf)
      ensures Valid() && codes == map[] && this.stemOf == stemOf
    {
      this.stemOf := stemOf;
      tree, codeSize, codes := map[], map[], map[];
    }

    // ----- writing -----------------------------------------------------------------------------

    /** Puts values under the suffixes of one stem. */
    method TreePut(stem: Stem, suffixes: seq<nat>, values: seq<Bytes>)
      requires |suffixes| == |values|
      requires forall i, j | 0 <= i < j < |suffixes| :: suffixes[i] != suffixes[j]
      modifies this`tree
      ensures forall i | 0 <= i < |suffixes| :: (stem, suffixes[i]) in tree && tree[(stem, suffixes[i])] == values[i]
      ensures forall key: Key | key.0 != stem || key.1 !in suffixes ::
                (key in tree <==> key in old(tree)) && (key in tree ==> tree[key] == old(tree)[key])
    {
      var i := 0;
      while i < |suffixes|
        invariant 0 <= i <= |suffixes|
        invariant forall k | 0 <= k < i :: (stem, suffixes[k]) in tree && tree[(stem, suffixes[k])] == values[k]
        invariant forall key: Key | key.0 != stem || key.1 !in suffixes ::
                    (key in tree <==> key in old(tree)) && (key in tree ==> tree[key] == old(tree)[key])
      {
        tree := tree[(stem, suffixes[i]) := values[i]];
        i := i + 1;
      }
    }

    /** Stores the code's chunks, under as many stems as they need; empty code is not stored. */
    method PutCode(address: Address, value: Bytes)
      requires Valid()
      modifies this
      ensures Valid() && codes == if value == [] then old(codes) else old(codes)[address := value]
      ensures forall i: nat | 31 * i < |value| :: ChunkAt(stemOf, tree, address, value, i)
      ensures OnlyChunksOf(stemOf, old(tree), tree, address) && (value == [] ==> tree == old(tree))
    {
      if value == [] {
        return;
      }
      var codeChunks := ChunkifyCode(value);
      PutChunks(address, value, codeChunks);
      codeSize := codeSize[address := |value|];
      codes := codes[address := value];
      forall a | a in old(codes) && a != address
        ensures Stored(stemOf, tree, a, codes[a], NumChunks(codes[a]))
      {
        StoredKept(stemOf, old(tree), tree, address, a, codes[a]);
      }
      forall i: nat | 31 * i < |value|
        ensures ChunkAt(stemOf, tree, address, value, i)
      {
        StoredAt(stemOf, tree, address, value, i);
      }
    }

    method PutChunks(address: Address, value: Bytes, codeChunks: seq<Bytes>)
      requires CollisionFree(stemOf) && value != [] && IsChunks(value, codeChunks) && |codeChunks| == NumChunks(value)
      modifies this`tree
      ensures Stored(stemOf, tree, address, value, NumChunks(value)) && OnlyChunksOf(stemOf, old(tree), tree, address)
    {
      var n := |codeChunks|;
      var chunkStems := GenerateCodeStems(stemOf, n, address);
      var chunkSuffixes := GenerateChunkSuffixes(n);
      StemsCover(n);
      FewerChunks(value);
      PutStem(address, value, codeChunks, chunkSuffixes, 0, 0, if n <= CODE_OFFSET then n else CODE_OFFSET);
      var stem := 1;
      while stem < |chunkStems|
        invariant 1 <= stem <= |chunkStems|
        invariant Stored(stemOf, tree, address, value, Least(StemEnd(stem - 1), n))
        invariant OnlyChunksOf(stemOf, old(tree), tree, address)
      {
        var sliceStart := CODE_OFFSET + NODE_WIDTH * (stem - 1);
        var sliceEnd := if |value| <= CODE_OFFSET + NODE_WIDTH * stem then |value| else CODE_OFFSET + NODE_WIDTH * stem;
        PutStem(address, value, codeChunks, chunkSuffixes, stem, sliceStart, sliceEnd);
        stem := stem + 1;
      }
    }

    /** Puts the chunks of one stem. */
    method PutStem(address: Address, value: Bytes, codeChunks: seq<Bytes>, chunkSuffixes: seq<nat>, stem: nat,
                   sliceStart: nat, sliceEnd: nat)
      requires CollisionFree(stemOf) && IsChunks(value, codeChunks)
      requires |codeChunks| == NumChunks(value) == |chunkSuffixes|
      requires forall x | 0 <= x < |chunkSuffixes| :: chunkSuffixes[x] == SubIndex(x)
      requires sliceStart == StemStart(stem) && Least(sliceEnd, |codeChunks|) == Least(StemEnd(stem), |codeChunks|)
      requires Stored(stemOf, tree, address, value, Least(sliceStart, |codeChunks|))
      modifies this`tree
      ensures Stored(stemOf, tree, address, value, Least(StemEnd(stem), |codeChunks|))
      ensures OnlyChunksOf(stemOf, old(tree), tree, address)
    {
      var suffixes, chunks := Slice(chunkSuffixes, sliceStart, sliceEnd), Slice(codeChunks, sliceStart, sliceEnd);
      SameSlice(chunkSuffixes, sliceStart, sliceEnd, StemEnd(stem));
      SameSlice(codeChunks, sliceStart, sliceEnd, StemEnd(stem));
      StemSuffixes(stem, chunkSuffixes, suffixes);
      TreePut(stemOf(address, stem), suffixes, chunks);
      StemStored(stemOf, old(tree), tree, address, value, codeChunks, stem, sliceStart, suffixes);
      StemOnly(stemOf, old(tree), tree, address, stem, sliceStart, suffixes);
    }

    // ----- reading -----------------------------------------------------------------------------

    function TreeValue(stem: Stem, suffix: nat): Option<Bytes>
      reads this
    {
      if (stem, suffix) in tree then Some(tree[(stem, suffix)]) else None
    }

    method TreeGet(stem: Stem, suffixes: seq<nat>) returns (values: seq<Option<Bytes>>)
      ensures |values| == |suffixes| && forall i | 0 <= i < |suffixes| :: values[i] == TreeValue(stem, suffixes[i])
    {
      values := seq(|suffixes|, i requires 0 <= i < |suffixes| reads this => TreeValue(stem, suffixes[i]));
    }

    /** The code that was last put for the account, and none for an account without; fails when a chunk is missing. */
    method GetCode(address: Address) returns (r: Option<Bytes>)
      requires Valid()
      ensures r == Some(if address in codes then codes[address] else [])
    {
      if address !in codeSize || codeSize[address] == 0 {
        return Some([]);
      }
      var size := codeSize[address];
      var chunks := GetChunks(address, size);
      var code := new Byte[size](k => 0);
      var x := 0;
      while x < |chunks|
        invariant 0 <= x <= |chunks| && unchanged(this)
        invariant forall p | 0 <= p < Least(CHUNK_SIZE * x, size) :: code[p] == codes[address][p]
      {
        ghost var key := KeyForCodeChunk(stemOf, address, x);
        if chunks[x].None? {
          return None;
        }
        var lastChunkByteIndex := CHUNK_SIZE;
        if x == |chunks| - 1 {
          lastChunkByteIndex := if size % CHUNK_SIZE == 0 then CHUNK_SIZE else size % CHUNK_SIZE;
        }
        ChunkEnds(codes[address], x, lastChunkByteIndex);
        CopyChunk(code, chunks[x].value[1..lastChunkByteIndex + 1], x * CHUNK_SIZE);
        x := x + 1;
      }
      assert code[..] == codes[address];
      r := Some(code[..]);
    }

    method CopyChunk(code: array<Byte>, bytes: Bytes, at: nat)
      requires at + |bytes| <= code.Length
      modifies code
      ensures forall p | 0 <= p < code.Length ::
                code[p] == if at <= p < at + |bytes| then bytes[p - at] else old(code[p])
    {
      var k := 0;
      while k < |bytes|
        invariant 0 <= k <= |bytes|
        invariant forall p | 0 <= p < code.Length :: code[p] == if at <= p < at + k then bytes[p - at] else old(code[p])
      {
        code[at + k] := bytes[k];
        k := k + 1;
      }
    }

    /** The chunks of an account's code, as far as they go, as the tree has them. */
    ghost predicate HasChunks(address: Address, chunks: seq<Option<Bytes>>)
      reads this
    {
      forall i: nat | i < |chunks| :: chunks[i] == TreeValue(stemOf(address, TreeIndex(i)), SubIndex(i))
    }

    lemma {:induction false} Appended(address: Address, chunks: seq<Option<Bytes>>, more: seq<Option<Bytes>>,
                                      start: nat)
      requires HasChunks(address, chunks) && (more != [] ==> |chunks| == start)
      requires forall i: nat | i < |more| ::
                 more[i] == TreeValue(stemOf(address, TreeIndex(start + i)), SubIndex(start + i))
      ensures HasChunks(address, chunks + more)
    {
      var all := chunks + more;
      forall i: nat | i < |all|
        ensures all[i] == TreeValue(stemOf(address, TreeIndex(i)), SubIndex(i))
      {
        var k := i - start;
        if i >= |chunks| {
          assert all[i] == more[k] && start + k == i;
        }
      }
    }

    /** The chunks of all stems, one after the other. */
    method GetChunks(address: Address, size: nat) returns (chunks: seq<Option<Bytes>>)
      requires size > 0
      ensures |chunks| == Ceil(size, CHUNK_SIZE)
      ensures HasChunks(address, chunks)
    {
      var n := Ceil(size, CHUNK_SIZE);
      var stems := GenerateCodeStems(stemOf, n, address);
      var chunkSuffixes := GenerateChunkSuffixes(n);
      StemsCover(n);
      FewerThanSize(size);
      var first := GetStem(address, chunkSuffixes, 0, 0, if size <= CODE_OFFSET then size else CODE_OFFSET);
      chunks := first;
      var stem := 1;
      while stem < |stems|
        invariant 1 <= stem <= |stems| && |chunks| == Least(StemEnd(stem - 1), n)
        invariant HasChunks(address, chunks)
      {
        var sliceStart := CODE_OFFSET + NODE_WIDTH * (stem - 1);
        var sliceEnd := if size <= CODE_OFFSET + NODE_WIDTH * stem then size else CODE_OFFSET + NODE_WIDTH * stem;
        var more := GetStem(address, chunkSuffixes, stem, sliceStart, sliceEnd);
        Appended(address, chunks, more, sliceStart);
        chunks := chunks + more;
        stem := stem + 1;
      }
    }

    method GetStem(address: Address, chunkSuffixes: seq<nat>, stem: nat, sliceStart: nat, sliceEnd: nat)
        returns (chunks: seq<Option<Bytes>>)
      requires forall x | 0 <= x < |chunkSuffixes| :: chunkSuffixes[x] == SubIndex(x)
      requires sliceStart == StemStart(stem)
      requires Least(sliceEnd, |chunkSuffixes|) == Least(StemEnd(stem), |chunkSuffixes|)
      ensures var end := Least(StemEnd(stem), |chunkSuffixes|);
              |chunks| == if sliceStart <= end then end - sliceStart else 0
      ensures forall i: nat | i < |chunks| ::
                chunks[i] == TreeValue(stemOf(address, TreeIndex(sliceStart + i)), SubIndex(sliceStart + i))
    {
      var suffixes := Slice(chunkSuffixes, sliceStart, sliceEnd);
      SameSlice(chunkSuffixes, sliceStart, sliceEnd, StemEnd(stem));
      chunks := TreeGet(stemOf(address, stem), suffixes);
      forall i: nat | i < |chunks|
        ensures chunks[i] == TreeValue(stemOf(address, TreeIndex(sliceStart + i)), SubIndex(sliceStart + i))
      {
        InStem(stem, sliceStart + i);
      }
    }
  }

  lemma {:induction false} FewerThanSize(size: nat)
    requires size > 0
    ensures 0 < Ceil(size, CHUNK_SIZE) <= size
  {
  }

  /** What of chunk `x` belongs to the code. */
  lemma {:induction false} ChunkEnds(code: Bytes, x: nat, end: nat)
    requires x < NumChunks(code) && ChunkFits(code, x)
    requires end == if x == NumChunks(code) - 1 && |code| % CHUNK_SIZE != 0 then |code| % CHUNK_SIZE else CHUNK_SIZE
    ensures CHUNK_SIZE * x + end == Least(CHUNK_SIZE * (x + 1), |code|)
    ensures ChunkOf(code, x)[1..end + 1] == code[CHUNK_SIZE * x..CHUNK_SIZE * x + end]
  {
    LastChunk(|code|, x, end);
    var padded, chunk, lo := Padded(code), ChunkOf(code, x), CHUNK_SIZE * x;
    assert chunk[1..] == padded[lo..lo + CHUNK_SIZE];
    assert chunk[1..end + 1] == chunk[1..][..end];
    assert padded[lo..lo + CHUNK_SIZE][..end] == padded[lo..lo + end];
    assert padded[lo..lo + end] == padded[..|code|][lo..lo + end];
  }

  lemma {:induction false} LastChunk(size: nat, x: nat, end: nat)
    requires x < Ceil(size, CHUNK_SIZE)
    requires end == if x == Ceil(size, CHUNK_SIZE) - 1 && size % CHUNK_SIZE != 0 then size % CHUNK_SIZE else CHUNK_SIZE
    ensures CHUNK_SIZE * x + end == Least(CHUNK_SIZE * (x + 1), size)
  {
  }

  lemma {:induction false} SameSlice<T>(s: seq<T>, start: nat, end: nat, end': nat)
    requires Least(end, |s|) == Least(end', |s|)
    ensures Slice(s, start, end) == Slice(s, start, end')
    ensures |Slice(s, start, end)| == if start <= Least(end, |s|) then Least(end, |s|) - start else 0
    ensures forall i: nat | i < |Slice(s, start, end)| :: Slice(s, start, end)[i] == s[start + i]
  {
  }

  function Least(a: nat, b: nat): nat {
    if a <= b then a else b
  }

  lemma {:induction false} FewerChunks(value: Bytes)
    requires value != []
    ensures 0 < NumChunks(value) <= |value|
  {
  }

  function StemStart(s: nat): nat {
    if s == 0 then 0 else StemEnd(s - 1)
  }

  /** A chunk of a stem. */
  lemma {:induction false} InStem(stem: nat, i: nat)
    requires StemStart(stem) <= i < StemEnd(stem)
    ensures TreeIndex(i) == stem && SubIndex(i) == CODE_OFFSET + i - NODE_WIDTH * stem
  {
  }

  /** The suffixes of consecutive chunks of one stem. */
  lemma {:induction false} StemSuffixes(stem: nat, chunkSuffixes: seq<nat>, suffixes: seq<nat>)
    requires forall x | 0 <= x < |chunkSuffixes| :: chunkSuffixes[x] == SubIndex(x)
    requires suffixes == Slice(chunkSuffixes, StemStart(stem), StemEnd(stem))
    ensures forall i: nat | i < |suffixes| :: suffixes[i] == CODE_OFFSET + StemStart(stem) + i - NODE_WIDTH * stem
  {
    forall i: nat | i < |suffixes|
      ensures suffixes[i] == CODE_OFFSET + StemStart(stem) + i - NODE_WIDTH * stem
    {
      InStem(stem, StemStart(stem) + i);
    }
  }

  lemma {:induction false} StemStored(stemOf: StemOf, tree: Tree, tree': Tree, address: Address, value: Bytes,
                                      codeChunks: seq<Bytes>, stem: nat, start: nat, suffixes: seq<nat>)
    requires CollisionFree(stemOf) && IsChunks(value, codeChunks) && |codeChunks| == NumChunks(value)
    requires start == StemStart(stem)
    requires var end := Least(StemEnd(stem), |codeChunks|); |suffixes| == if start <= end then end - start else 0
    requires forall i: nat | i < |suffixes| :: suffixes[i] == CODE_OFFSET + start + i - NODE_WIDTH * stem
    requires Stored(stemOf, tree, address, value, Least(start, |codeChunks|))
    requires forall i | 0 <= i < |suffixes| ::
               (stemOf(address, stem), suffixes[i]) in tree'
                 && tree'[(stemOf(address, stem), suffixes[i])] == codeChunks[start + i]
    requires forall key: Key | key.0 != stemOf(address, stem) || key.1 !in suffixes ::
               (key in tree' <==> key in tree) && (key in tree' ==> tree'[key] == tree[key])
    ensures Stored(stemOf, tree', address, value, Least(StemEnd(stem), |codeChunks|))
  {
    forall i: nat | i < Least(StemEnd(stem), |codeChunks|)
      ensures var key := KeyForCodeChunk(stemOf, address, i);
              ChunkFits(value, i) && key in tree' && tree'[key] == ChunkOf(value, i)
    {
      var key := KeyForCodeChunk(stemOf, address, i);
      assert codeChunks[i] == ChunkOf(value, i);
      if i < start {
        assert TreeIndex(i) < stem;
      } else {
        InStem(stem, i);
        assert suffixes[i - start] == SubIndex(i);
      }
    }
  }

  lemma {:induction false} StemOnly(stemOf: StemOf, tree: Tree, tree': Tree, address: Address, stem: nat, start: nat,
                                    suffixes: seq<nat>)
    requires start == StemStart(stem) && start + |suffixes| <= StemEnd(stem)
    requires forall i: nat | i < |suffixes| :: suffixes[i] == CODE_OFFSET + start + i - NODE_WIDTH * stem
    requires forall key: Key | key.0 != stemOf(address, stem) || key.1 !in suffixes ::
               (key in tree' <==> key in tree) && (key in tree' ==> tree'[key] == tree[key])
    ensures OnlyChunksOf(stemOf, tree, tree', address)
  {
    forall key: Key | key.0 == stemOf(address, stem) && key.1 in suffixes
      ensures exists i: nat :: key == KeyForCodeChunk(stemOf, address, i)
    {
      var i :| 0 <= i < |suffixes| && suffixes[i] == key.1;
      InStem(stem, start + i);
      assert key == KeyForCodeChunk(stemOf, address, start + i);
    }
  }
}
