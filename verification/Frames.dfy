/**
 * What a tree of calls and creates means, with the undo machinery left out: a failed frame contributes
 * nothing (packages/evm/src/evm.ts, packages/evm/src/interpreter.ts).
 */
module Frames {
  import opened StateManager
  import opened AccessJournal
  import opened Transient

  const MAX_INTEGER := 0xffffffffffffffffffffffffffffffffffffffffffffffffffffffffffffffff
  const MAX_UINT64 := 0xffffffffffffffff

  /** Everything that execution reads and writes. */
  datatype World = World(state: Level, warm: Warmth, always: map<Address, set<Slot>>, transient: Seen)

  /** The active hardfork and EIPs, and the hash of contract code. */
  datatype Config = Config(chainstart: bool, spuriousDragon: bool, eip1153: bool, eip2929: bool, stackLimit: int,
                           keccak256: Data -> Hash)

  /** What happens to the code that a creation returned. */
  datatype Deposit = Deployed(code: Data) | CannotPay | Refused

  /**
   * A message, with the operations its code goes on to perform. `to` is the callee, or the address that
   * the creation generates.
   */
  datatype Message =
    | Call(to: Address, value: nat, delegate: bool, body: Body)
    | Create(to: Address, value: nat, initTooLarge: bool, body: Body, deposit: Deposit)

  /** The interpreter runs the operations and ends, without an exception or with one. */
  datatype Body = NoCode | Code(ops: seq<Op>, ok: bool)

  datatype Op =
    | WarmAddress(address: Address)
    | WarmSlot(address: Address, slot: Slot)
    | AlwaysWarm(address: Address, slot: Slot)
    | Store(address: Address, key: Data, value: Data)
    | StoreTransient(address: Address, key: Data, value: Data)
    | Send(message: Message)

  // ----- balances ----------------------------------------------------------------------------

  function Touch(w: World, a: Address): World {
    w.(warm := w.warm.(touched := w.warm.touched + {a}))
  }

  function PutState(w: World, a: Address, s: AccountState): World {
    Touch(w.(state := SetAccount(w.state, a, s)), a)
  }

  /** The sender's balance is written before it is looked at; a new account then goes no further. */
  function Reduce(w: World, caller: Address, value: int): (World, bool) {
    var account := AccountAt(w.state, caller);
    var account' := account.(balance := account.balance - value);
    if account'.balance >= 0 then (PutState(w, caller, account'), true)
    else if caller in w.state.accounts then (w.(state := SetAccount(w.state, caller, account')), false)
    else (w, false)
  }

  function Add(w: World, to: Address, value: int): (World, bool) {
    var account := AccountAt(w.state, to);
    if account.balance + value > MAX_INTEGER then (w, false)
    else (PutState(w, to, account.(balance := account.balance + value)), true)
  }

  function Transfer(w: World, caller: Address, to: Address, value: int): (World, bool) {
    var (w1, paid) := Reduce(w, caller, value);
    var (w2, added) := Add(w1, to, value);
    (w2, paid && added)
  }

  predicate Collides(s: AccountState) {
    s.nonce > 0 || s.codeHash != KECCAK256_NULL || s.storageRoot != KECCAK256_RLP
  }

  // ----- frames ------------------------------------------------------------------------------

  /** How a frame ends; a creation whose sender lacks the value leaves it with an exception. */
  datatype Frame = Ended(world: World, ok: bool) | Thrown(world: World)

  /** The failed frame's world `w`, begun at `start`: only a touched RIPEMD-160 and what is always warm remain. */
  ghost function Undone(start: World, w: World): World {
    World(start.state, Restored(w.warm, start.warm), w.always, start.transient)
  }

  /** What comes before the checkpoint. */
  function Prelude(c: Config, w: World, caller: Address, m: Message, depth: nat): World {
    var account := AccountAt(w.state, caller);
    var w1 := if depth == 0 then PutState(w, caller, account.(nonce := account.nonce + 1)) else w;
    if m.Create? && c.eip2929 then w1.(warm := WithAddress(w1.warm, m.to)) else w1
  }

  ghost function RunMessage(c: Config, w: World, caller: Address, m: Message, depth: nat): Frame
    decreases m, 3
  {
    RunFrom(c, Prelude(c, w, caller, m, depth), caller, m, depth)
  }

  /** A frame that fails is undone. */
  ghost function RunFrom(c: Config, start: World, caller: Address, m: Message, depth: nat): Frame
    decreases m, 2, 1
  {
    var f := FrameOf(c, start, caller, m, depth);
    if f.Ended? && !f.ok then Ended(Undone(start, f.world), false) else f
  }

  ghost function FrameOf(c: Config, start: World, caller: Address, m: Message, depth: nat): Frame
    decreases m, 2, 0
  {
    if m.Call? then CallFrame(c, start, caller, m, depth) else CreateFrame(c, start, caller, m, depth)
  }

  ghost function CallFrame(c: Config, w: World, caller: Address, m: Message, depth: nat): Frame
    requires m.Call?
    decreases m, 1
  {
    var (w1, ok) := if m.delegate then (w, true) else Transfer(w, caller, m.to, m.value);
    if m.body.NoCode? || !ok then Ended(w1, ok)
    else Ended(Cleaned(c, RunOps(c, w1, m.to, depth, m.body.ops), depth), m.body.ok)
  }

  ghost function CreateFrame(c: Config, w: World, caller: Address, m: Message, depth: nat): Frame
    requires m.Create?
    decreases m, 1
  {
    var (w1, paid) := Reduce(w, caller, m.value);
    if !paid then Thrown(w1)
    else if m.initTooLarge || Collides(AccountAt(w1.state, m.to)) then Ended(w1, false)
    else NewFrame(c, w1, m, depth)
  }

  ghost function NewFrame(c: Config, w: World, m: Message, depth: nat): Frame
    requires m.Create?
    decreases m, 0, 1
  {
    var (w1, added) := Add(NewContract(c, w, m.to), m.to, m.value);
    if m.body.NoCode? || !added then Ended(w1, added) else InitFrame(c, w1, m, depth)
  }

  ghost function InitFrame(c: Config, w: World, m: Message, depth: nat): Frame
    requires m.Create? && m.body.Code?
    decreases m, 0, 0
  {
    var (w1, ok) := Deposited(c, RunOps(c, w, m.to, depth, m.body.ops), m);
    Ended(Cleaned(c, w1, depth), ok)
  }

  function NewContract(c: Config, w: World, to: Address): World {
    var w1 := PutState(w, to, AccountAt(w.state, to));
    if c.spuriousDragon then Bumped(w1, to) else w1
  }

  function Bumped(w: World, a: Address): World {
    var account := AccountAt(w.state, a);
    w.(state := SetAccount(w.state, a, account.(nonce := account.nonce + 1)))
  }

  /** The fate of the returned code; before Homestead a creation that cannot pay for it succeeds without. */
  function Deposited(c: Config, w: World, m: Message): (World, bool)
    requires m.Create? && m.body.Code?
  {
    if !m.body.ok then (w, false)
    else match m.deposit
      case Deployed(code) => (if code == NO_BYTES then w
                              else w.(state := WithCode(w.state, m.to, code, c.keccak256(code))), true)
      case CannotPay => if c.chainstart then (PutState(w, m.to, AccountAt(w.state, m.to)), true) else (w, false)
      case Refused => (w, false)
  }

  /** The transaction's own frame clears transient storage at its end. */
  ghost function Cleaned(c: Config, w: World, depth: nat): World {
    if depth == 0 && c.eip1153 then w.(transient := Reads(map[])) else w
  }

  ghost function RunOps(c: Config, w: World, self: Address, depth: nat, ops: seq<Op>): World
    decreases ops
  {
    if ops == [] then w else RunOp(c, RunOps(c, w, self, depth, ops[..|ops| - 1]), self, depth, ops[|ops| - 1])
  }

  ghost function RunOp(c: Config, w: World, self: Address, depth: nat, op: Op): World
    decreases op
  {
    match op
    case WarmAddress(a) => w.(warm := WithAddress(w.warm, a))
    case WarmSlot(a, slot) => w.(warm := WithSlot(w.warm, a, slot))
    case AlwaysWarm(a, slot) => w.(always := AlwaysWithSlot(w.always, a, slot))
    case Store(a, key, value) => w.(state := w.state.(storage := w.state.storage[(a, key) := value]))
    case StoreTransient(a, key, value) =>
      if c.eip1153 && |key.bytes| == 32 && |value.bytes| <= 32 then w.(transient := w.transient[(a, key) := value])
        else w
    case Send(m) =>
      if Refuses(c, w, self, depth, m) then w
      else
        var w1 := Sending(w, self, m);
        if m.Create? && m.initTooLarge then w1 else RunMessage(c, w1, self, m, depth + 1).world
  }

  /** The interpreter sends no message that is too deep or that it cannot pay for. */
  predicate Refuses(c: Config, w: World, self: Address, depth: nat, m: Message) {
    || depth >= c.stackLimit
    || (!(m.Call? && m.delegate) && AccountAt(w.state, self).balance < m.value)
    || (m.Create? && AccountAt(w.state, self).nonce >= MAX_UINT64)
  }

  /** A creator's nonce goes up before its message is sent. */
  function Sending(w: World, self: Address, m: Message): World {
    var account := AccountAt(w.state, self);
    if m.Create? then PutState(w, self, account.(nonce := account.nonce + 1)) else w
  }

  // ----- balances are conserved -----------------------------------------------------------------

  ghost function Total(accounts: map<Address, AccountState>): int {
    if accounts == map[] then 0
    else
      var a :| a in accounts;
      accounts[a].balance + Total(accounts - {a})
  }

  lemma {:induction false} TotalWithout(accounts: map<Address, AccountState>, a: Address)
    requires a in accounts
    ensures Total(accounts) == accounts[a].balance + Total(accounts - {a})
  {
    var b :| b in accounts && Total(accounts) == accounts[b].balance + Total(accounts - {b});
    if a != b {
      TotalWithout(accounts - {b}, a);
      TotalWithout(accounts - {a}, b);
      assert accounts - {a} - {b} == accounts - {b} - {a};
    }
  }

  lemma {:induction false} TotalSet(l: Level, a: Address, s: AccountState)
    ensures Total(SetAccount(l, a, s).accounts) == Total(l.accounts) - AccountAt(l, a).balance + s.balance
  {
    var m := l.accounts;
    TotalWithout(m[a := s], a);
    if a in m {
      TotalWithout(m, a);
      assert m[a := s] - {a} == m - {a};
    } else {
      assert m[a := s] - {a} == m;
    }
  }

  lemma {:induction false} TotalReduced(w: World, caller: Address, value: int)
    ensures Reduce(w, caller, value).1 ==>
              Total(Reduce(w, caller, value).0.state.accounts) == Total(w.state.accounts) - value
  {
    var account := AccountAt(w.state, caller);
    TotalSet(w.state, caller, account.(balance := account.balance - value));
  }

  lemma {:induction false} TotalAdded(w: World, to: Address, value: int)
    ensures Add(w, to, value).1 ==> Total(Add(w, to, value).0.state.accounts) == Total(w.state.accounts) + value
  {
    var account := AccountAt(w.state, to);
    TotalSet(w.state, to, account.(balance := account.balance + value));
  }

  lemma {:induction false} TotalNonce(w: World, a: Address, nonce: int)
    ensures Total(SetAccount(w.state, a, AccountAt(w.state, a).(nonce := nonce)).accounts) == Total(w.state.accounts)
  {
    TotalSet(w.state, a, AccountAt(w.state, a).(nonce := nonce));
  }

  /** The sum of all balances. */
  ghost function Wealth(w: World): int {
    Total(w.state.accounts)
  }

  lemma {:induction false} PreludeConserves(c: Config, w: World, caller: Address, m: Message, depth: nat)
    ensures Wealth(Prelude(c, w, caller, m, depth)) == Wealth(w)
  {
    TotalNonce(w, caller, AccountAt(w.state, caller).nonce + 1);
  }

  lemma {:induction false} ContractConserves(c: Config, w: World, to: Address)
    ensures Wealth(NewContract(c, w, to)) == Wealth(w)
  {
    var s := AccountAt(w.state, to);
    TotalSet(w.state, to, s);
    TotalNonce(PutState(w, to, s), to, s.nonce + 1);
  }

  lemma {:induction false} DepositConserves(c: Config, w: World, m: Message)
    requires m.Create? && m.body.Code?
    ensures Wealth(Deposited(c, w, m).0) == Wealth(w)
  {
    TotalSet(w.state, m.to, AccountAt(w.state, m.to));
    if m.deposit.Deployed? {
      TotalSet(w.state.(code := w.state.code[m.to := m.deposit.code]), m.to,
               AccountAt(w.state, m.to).(codeHash := c.keccak256(m.deposit.code)));
    }
  }

  /** Whatever calls and creations a message leads to, the sum of all balances stays. */
  lemma {:induction false} Conservation(c: Config, w: World, caller: Address, m: Message, depth: nat)
    requires RunMessage(c, w, caller, m, depth).Ended?
    ensures Wealth(RunMessage(c, w, caller, m, depth).world) == Wealth(w)
    decreases m, 2
  {
    var start := Prelude(c, w, caller, m, depth);
    PreludeConserves(c, w, caller, m, depth);
    var f := FrameOf(c, start, caller, m, depth);
    if m.Call? {
      CallConserves(c, start, caller, m, depth);
    } else {
      CreateConserves(c, start, caller, m, depth);
    }
    assert f.ok ==> Wealth(f.world) == Wealth(start);
  }

  lemma {:induction false} CallConserves(c: Config, w: World, caller: Address, m: Message, depth: nat)
    requires m.Call?
    ensures var f := CallFrame(c, w, caller, m, depth); f.Ended? && f.ok ==> Wealth(f.world) == Wealth(w)
    decreases m, 1
  {
    TotalReduced(w, caller, m.value);
    TotalAdded(Reduce(w, caller, m.value).0, m.to, m.value);
    if m.body.Code? {
      var (w1, ok) := if m.delegate then (w, true) else Transfer(w, caller, m.to, m.value);
      OpsConserve(c, w1, m.to, depth, m.body.ops);
    }
  }

  lemma {:induction false} CreateConserves(c: Config, w: World, caller: Address, m: Message, depth: nat)
    requires m.Create?
    ensures var f := CreateFrame(c, w, caller, m, depth); f.Ended? && f.ok ==> Wealth(f.world) == Wealth(w)
    decreases m, 1
  {
    TotalReduced(w, caller, m.value);
    NewConserves(c, Reduce(w, caller, m.value).0, m, depth);
  }

  lemma {:induction false} NewConserves(c: Config, w: World, m: Message, depth: nat)
    requires m.Create?
    ensures var f := NewFrame(c, w, m, depth); f.Ended? && (f.ok ==> Wealth(f.world) == Wealth(w) + m.value)
    decreases m, 0
  {
    var w1 := NewContract(c, w, m.to);
    ContractConserves(c, w, m.to);
    TotalAdded(w1, m.to, m.value);
    if m.body.Code? {
      var w2 := Add(w1, m.to, m.value).0;
      OpsConserve(c, w2, m.to, depth, m.body.ops);
      DepositConserves(c, RunOps(c, w2, m.to, depth, m.body.ops), m);
    }
  }

  lemma {:induction false} OpsConserve(c: Config, w: World, self: Address, depth: nat, ops: seq<Op>)
    ensures Wealth(RunOps(c, w, self, depth, ops)) == Wealth(w)
    decreases ops
  {
    if ops != [] {
      OpsConserve(c, w, self, depth, ops[..|ops| - 1]);
      OpConserves(c, RunOps(c, w, self, depth, ops[..|ops| - 1]), self, depth, ops[|ops| - 1]);
    }
  }

  lemma {:induction false} OpConserves(c: Config, w: World, self: Address, depth: nat, op: Op)
    ensures Wealth(RunOp(c, w, self, depth, op)) == Wealth(w)
    decreases op
  {
    if op.Send? && !Refuses(c, w, self, depth, op.message) {
      var w1 := Sending(w, self, op.message);
      TotalNonce(w, self, AccountAt(w.state, self).nonce + 1);
      NestedEnds(c, w, self, op.message, depth);
      if !(op.message.Create? && op.message.initTooLarge) {
        Conservation(c, w1, self, op.message, depth + 1);
      }
    }
  }

  /** A message is thrown out of exactly when it is a creation whose sender lacks the value. */
  lemma {:induction false} ThrownIff(c: Config, w: World, caller: Address, m: Message, depth: nat)
    ensures RunMessage(c, w, caller, m, depth).Thrown? <==> m.Create? && AccountAt(w.state, caller).balance < m.value
  {
    var start := Prelude(c, w, caller, m, depth);
    if m.Create? {
      NewEnds(c, Reduce(start, caller, m.value).0, m, depth);
      assert CreateFrame(c, start, caller, m, depth).Thrown? <==> !Reduce(start, caller, m.value).1;
    } else {
      assert CallFrame(c, start, caller, m, depth).Ended?;
    }
    assert RunMessage(c, w, caller, m, depth).Thrown? <==> FrameOf(c, start, caller, m, depth).Thrown?;
  }

  /** For instance one by a sender who has no account. */
  lemma {:induction false} ThrownCreation(c: Config, w: World, caller: Address, to: Address)
    requires caller !in w.state.accounts
    ensures RunMessage(c, w, caller, Create(to, 1, false, NoCode, Deployed(NO_BYTES)), 0).Thrown?
  {
    ThrownIff(c, w, caller, Create(to, 1, false, NoCode, Deployed(NO_BYTES)), 0);
  }

  lemma {:induction false} NewEnds(c: Config, w: World, m: Message, depth: nat)
    requires m.Create?
    ensures NewFrame(c, w, m, depth).Ended?
  {
  }

  /** Which the interpreter rules out before it sends one. */
  lemma {:induction false} NestedEnds(c: Config, w: World, self: Address, m: Message, depth: nat)
    requires !Refuses(c, w, self, depth, m)
    ensures RunMessage(c, Sending(w, self, m), self, m, depth + 1).Ended?
  {
    ThrownIff(c, Sending(w, self, m), self, m, depth + 1);
  }

  // ----- before EIP-1153 there is no transient storage -----------------------------------------

  lemma {:induction false} MessageWithoutTransient(c: Config, w: World, caller: Address, m: Message, depth: nat)
    requires !c.eip1153
    ensures RunMessage(c, w, caller, m, depth).world.transient == w.transient
    decreases m, 2
  {
    FrameWithoutTransient(c, Prelude(c, w, caller, m, depth), caller, m, depth);
  }

  lemma {:induction false} FrameWithoutTransient(c: Config, w: World, caller: Address, m: Message, depth: nat)
    requires !c.eip1153
    ensures FrameOf(c, w, caller, m, depth).world.transient == w.transient
    decreases m, 2, 0
  {
    if m.Call? {
      CallWithoutTransient(c, w, caller, m, depth);
    } else {
      CreateWithoutTransient(c, w, caller, m, depth);
    }
  }

  lemma {:induction false} CallWithoutTransient(c: Config, w: World, caller: Address, m: Message, depth: nat)
    requires !c.eip1153 && m.Call?
    ensures CallFrame(c, w, caller, m, depth).world.transient == w.transient
    decreases m, 1
  {
    if m.body.Code? {
      OpsWithoutTransient(c, if m.delegate then w else Transfer(w, caller, m.to, m.value).0, m.to, depth, m.body.ops);
    }
  }

  lemma {:induction false} CreateWithoutTransient(c: Config, w: World, caller: Address, m: Message, depth: nat)
    requires !c.eip1153 && m.Create?
    ensures CreateFrame(c, w, caller, m, depth).world.transient == w.transient
    decreases m, 1
  {
    if m.body.Code? {
      var w1 := Add(NewContract(c, Reduce(w, caller, m.value).0, m.to), m.to, m.value).0;
      OpsWithoutTransient(c, w1, m.to, depth, m.body.ops);
      assert InitFrame(c, w1, m, depth).world.transient == w.transient;
    }
  }

  lemma {:induction false} OpsWithoutTransient(c: Config, w: World, self: Address, depth: nat, ops: seq<Op>)
    requires !c.eip1153
    ensures RunOps(c, w, self, depth, ops).transient == w.transient
    decreases ops
  {
    if ops != [] {
      OpsWithoutTransient(c, w, self, depth, ops[..|ops| - 1]);
      OpWithoutTransient(c, RunOps(c, w, self, depth, ops[..|ops| - 1]), self, depth, ops[|ops| - 1]);
    }
  }

  lemma {:induction false} OpWithoutTransient(c: Config, w: World, self: Address, depth: nat, op: Op)
    requires !c.eip1153
    ensures RunOp(c, w, self, depth, op).transient == w.transient
    decreases op
  {
    if op.Send? {
      MessageWithoutTransient(c, Sending(w, self, op.message), self, op.message, depth + 1);
    }
  }
}
