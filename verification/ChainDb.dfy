/**
 * The tables of the block store (packages/blockchain/src/db) and the chains in them.
 */
module ChainDb {
  import opened Bytes

  type Hash = nat

  /** `emptyBody` says that the header's roots are those of a block with nothing in it. */
  datatype Header = Header(number: nat, parentHash: Hash, difficulty: nat, emptyBody: bool, extra: nat)

  type HashOf = Header -> Hash

  ghost predicate Injective(hash: HashOf) {
    forall a, b :: hash(a) == hash(b) ==> a == b
  }

  type Key = (nat, Hash)

  datatype Tables = Tables(
    headers: map<Key, Header>,
    bodies: set<Key>,
    td: map<Key, nat>,
    hashToNumber: map<Hash, nat>,
    numberToHash: map<nat, Hash>)
  {
    /** A header by hash and number; a missing one is an error. */
    function GetHeaderAt(hash: Hash, number: int): Option<Header> {
      if number >= 0 && (number, hash) in headers then Some(headers[(number, hash)]) else None
    }

    function GetHeader(hash: Hash): Option<Header> {
      if hash in hashToNumber then GetHeaderAt(hash, hashToNumber[hash]) else None
    }

    function GetCanonicalHeader(number: int): Option<Header> {
      if number >= 0 && number in numberToHash then GetHeaderAt(numberToHash[number], number) else None
    }

    /** A canonical block can be read when its body is there, or is known to be empty. */
    predicate Readable(number: nat) {
      var header := GetCanonicalHeader(number);
      header.Some? && (header.value.emptyBody || (number, numberToHash[number]) in bodies)
    }

    /** A missing total difficulty reads as zero: no bytes decode to the number 0. */
    function GetTotalDifficultyAt(hash: Hash, number: int): nat {
      if number >= 0 && (number, hash) in td then td[(number, hash)] else 0
    }
  }

  // ----- queued writes --------------------------------------------------------------------

  datatype DbOp =
    | SetHeader(header: Header, hash: Hash)
    | SetBody(hash: Hash, number: nat)
    | SetTD(hash: Hash, number: nat, td: nat)
    | SetHashToNumber(hash: Hash, number: nat)
    | SetNumberToHash(number: nat, hash: Hash)
    | DelNumberToHash(number: nat)
    | DelBlock(hash: Hash, number: nat)

  /** `DelBlock` stands for the four deletes that `_delChild` queues together. */
  function ApplyOne(t: Tables, op: DbOp): Tables {
    match op
    case SetHeader(header, hash) => t.(headers := t.headers[(header.number, hash) := header])
    case SetBody(hash, number) => t.(bodies := t.bodies + {(number, hash)})
    case SetTD(hash, number, td) => t.(td := t.td[(number, hash) := td])
    case SetHashToNumber(hash, number) => t.(hashToNumber := t.hashToNumber[hash := number])
    case SetNumberToHash(number, hash) => t.(numberToHash := t.numberToHash[number := hash])
    case DelNumberToHash(number) => t.(numberToHash := t.numberToHash - {number})
    case DelBlock(hash, number) =>
      t.(headers := t.headers - {(number, hash)}, bodies := t.bodies - {(number, hash)},
         td := t.td - {(number, hash)}, hashToNumber := t.hashToNumber - {hash})
  }

  function Apply(t: Tables, ops: seq<DbOp>): Tables {
    if ops == [] then t else ApplyOne(Apply(t, ops[..|ops| - 1]), ops[|ops| - 1])
  }

  lemma {:induction false} ApplySnoc(t: Tables, ops: seq<DbOp>, op: DbOp)
    ensures Apply(t, ops + [op]) == ApplyOne(Apply(t, ops), op)
  {
    assert (ops + [op])[..|ops|] == ops;
  }

  // ----- what the tables hold -----------------------------------------------------------------

  /** Headers stand under their own hash and number, and the hash index covers exactly them. */
  ghost predicate StoreOk(hash: HashOf, t: Tables) {
    && (forall k | k in t.headers :: t.headers[k].number == k.0 && hash(t.headers[k]) == k.1)
    && (forall k | k in t.headers :: k.1 in t.hashToNumber && t.hashToNumber[k.1] == k.0)
    && (forall h | h in t.hashToNumber :: (t.hashToNumber[h], h) in t.headers)
  }

  /** The canonical chain: entries 0..n, from genesis to the head, each the next one's parent. */
  ghost predicate Canonical(hash: HashOf, t: Tables, genesis: Header, n: nat, head: Hash) {
    && (forall i: nat :: i in t.numberToHash <==> i <= n)
    && t.numberToHash[n] == head && t.numberToHash[0] == hash(genesis)
    && (forall i: nat {:trigger t.GetCanonicalHeader(i)} | i <= n :: t.GetCanonicalHeader(i).Some?)
    && (forall i: nat {:trigger t.GetCanonicalHeader(i)} | 0 < i <= n ::
          t.GetCanonicalHeader(i).value.parentHash == t.numberToHash[i - 1])
  }

  ghost predicate IsCanonical(t: Tables, h: Hash) {
    exists i :: i in t.numberToHash && t.numberToHash[i] == h
  }

  /** The header with number `m` on the parent chain of `header`, if the chain is stored down to it. */
  ghost function Ancestor(t: Tables, header: Header, m: nat): (r: Option<Header>)
    decreases header.number
  {
    if header.number <= m then (if header.number == m then Some(header) else None)
    else
      var p := t.GetHeaderAt(header.parentHash, header.number - 1);
      if p.None? || p.value.number >= header.number then None else Ancestor(t, p.value, m)
  }

  lemma {:induction false} AncestorNumber(t: Tables, header: Header, m: nat)
    ensures Ancestor(t, header, m).Some? ==> Ancestor(t, header, m).value.number == m <= header.number
    decreases header.number
  {
    if header.number > m {
      var p := t.GetHeaderAt(header.parentHash, header.number - 1);
      if p.Some? && p.value.number < header.number {
        AncestorNumber(t, p.value, m);
      }
    }
  }

  /** One more step down the chain. */
  lemma {:induction false} AncestorStep(hash: HashOf, t: Tables, header: Header, m: nat)
    requires StoreOk(hash, t) && m < header.number
    ensures Ancestor(t, header, m) ==
              (var a := Ancestor(t, header, m + 1);
               if a.None? then None else t.GetHeaderAt(a.value.parentHash, m))
    decreases header.number
  {
    var p := t.GetHeaderAt(header.parentHash, header.number - 1);
    if p.Some? && m + 1 < header.number {
      AncestorStep(hash, t, p.value, m);
    }
  }

  /** Ancestors come in order: below a missing one there is none. */
  lemma {:induction false} AncestorMissing(hash: HashOf, t: Tables, header: Header, m: nat, k: nat)
    requires StoreOk(hash, t) && k <= m <= header.number && Ancestor(t, header, m).None?
    ensures Ancestor(t, header, k).None?
    decreases m - k
  {
    if k < m {
      AncestorStep(hash, t, header, m - 1);
      AncestorMissing(hash, t, header, m - 1, k);
    }
  }

  /** And above one that is there, there is one. */
  lemma {:induction false} AncestorAbove(hash: HashOf, t: Tables, header: Header, m: nat, k: nat)
    requires StoreOk(hash, t) && k <= m <= header.number && Ancestor(t, header, k).Some?
    ensures Ancestor(t, header, m).Some?
  {
    if Ancestor(t, header, m).None? {
      AncestorMissing(hash, t, header, m, k);
    }
  }

  /** Entry i of the canonical chain is the head header's ancestor at number i. */
  lemma {:induction false} CanonicalIsAncestor(hash: HashOf, t: Tables, genesis: Header, n: nat, head: Hash, i: nat)
    requires StoreOk(hash, t) && Canonical(hash, t, genesis, n, head) && i <= n
    ensures t.GetHeaderAt(head, n).Some? && Ancestor(t, t.GetHeaderAt(head, n).value, i) == t.GetCanonicalHeader(i)
    decreases n - i
  {
    assert t.GetCanonicalHeader(n).Some?;
    if i < n {
      CanonicalIsAncestor(hash, t, genesis, n, head, i + 1);
      AncestorStep(hash, t, t.GetHeaderAt(head, n).value, i);
      assert t.GetCanonicalHeader(i).Some?;
    }
  }

  /** The parent chain of `header` and the canonical chain agree at number `m`. */
  ghost predicate Agree(hash: HashOf, t: Tables, header: Header, m: nat) {
    m in t.numberToHash && Ancestor(t, header, m).Some? && hash(Ancestor(t, header, m).value) == t.numberToHash[m]
  }

  /** Where the two chains agree once, they agree all the way down. */
  lemma {:induction false} AgreeBelow(hash: HashOf, t: Tables, genesis: Header, n: nat, head: Hash, header: Header,
                                      m: nat, k: nat)
    requires Injective(hash) && StoreOk(hash, t) && Canonical(hash, t, genesis, n, head)
    requires k <= m <= header.number && Agree(hash, t, header, m)
    ensures Agree(hash, t, header, k)
    decreases m - k
  {
    if k < m {
      AncestorStep(hash, t, header, m - 1);
      var a := Ancestor(t, header, m).value;
      assert t.GetCanonicalHeader(m) == Some(a) && t.GetCanonicalHeader(m - 1).Some?;
      AgreeBelow(hash, t, genesis, n, head, header, m - 1, k);
    }
  }

  lemma {:induction false} StorePut(hash: HashOf, t: Tables, t': Tables, header: Header)
    requires Injective(hash) && StoreOk(hash, t)
    requires t'.headers == t.headers[(header.number, hash(header)) := header]
    requires t'.hashToNumber == t.hashToNumber[hash(header) := header.number]
    ensures StoreOk(hash, t')
  {
  }

  /** The tables of a fresh store. */
  function GenesisTables(hash: HashOf, genesis: Header): Tables {
    var h := hash(genesis);
    Tables(map[(0, h) := genesis], {(0, h)}, map[(0, h) := genesis.difficulty], map[h := 0], map[0 := h])
  }
}
