/**
 * What messages do, said of the worlds before and after them alone: who pays whom, what a failure leaves, where
 * code runs, what operations write, and how deep messages go (packages/evm/src/evm.ts,
 * packages/evm/src/interpreter.ts).
 */
module Payments {
  import opened Bytes
  import opened StateManager
  import opened AccessJournal
  import opened Transient
  import opened Frames

  /** Balances have 256 bits and nonces 64. */
  lemma {:induction false} Widths()
    ensures MAX_INTEGER + 1 == Pow256(32) && MAX_UINT64 + 1 == Pow256(8)
  {
    assert Pow256(4) == 0x1_0000_0000;
    assert Pow256(8) == 0x1_0000_0000 * 0x1_0000_0000;
    PowSum(8, 8);
    PowSum(16, 16);
  }

  lemma {:induction false} PowSum(a: nat, b: nat)
    ensures Pow256(a + b) == Pow256(a) * Pow256(b)
  {
    if a > 0 {
      PowSum(a - 1, b);
    }
  }

  // ----- who pays whom ------------------------------------------------------------------------

  function Someone(b: bool, a: Address): set<Address> {
    if b then {a} else {}
  }

  function If(b: bool, n: int): int {
    if b then n else 0
  }

  /**
   * Between the two worlds `value` has gone from `from` to `to`, and nonces have gone up as `bumps` says; no code,
   * no storage, nothing else of an account and nobody else's account has changed.
   */
  ghost predicate Moved(w: World, w': World, from: Address, to: Address, value: int, bumps: Address -> int) {
    && w'.state.code == w.state.code && w'.state.storage == w.state.storage
    && (forall a ::
          var s, s' := AccountAt(w.state, a), AccountAt(w'.state, a);
          s' == AfterMove(s, If(a == from, value), If(a == to, value), bumps(a)))
    && (forall a | a != from && a != to :: a in w'.state.accounts <==> a in w.state.accounts)
  }

  function AfterMove(s: AccountState, paid: int, received: int, bump: int): AccountState {
    AccountState(s.nonce + bump, s.balance - paid + received, s.storageRoot, s.codeHash)
  }

  function SenderBump(caller: Address, depth: nat): Address -> int {
    a => If(a == caller && depth == 0, 1)
  }

  /** The message with no code to run. */
  function Bare(m: Message): Message {
    m.(body := NoCode)
  }

  function Value(m: Message): nat {
    if m.Call? && m.delegate then 0 else m.value
  }

  ghost predicate OnlyState(w: World, w': World) {
    w'.warm.slots == w.warm.slots && w'.always == w.always && w'.transient == w.transient
  }

  function NoBump(): Address -> int {
    a => 0
  }

  lemma {:induction false} MovedOn(w: World, w1: World, w2: World, from: Address, to: Address, v1: int, v2: int,
                                   b1: Address -> int, b2: Address -> int, bumps: Address -> int)
    requires Moved(w, w1, from, to, v1, b1) && Moved(w1, w2, from, to, v2, b2)
    requires forall a :: bumps(a) == b1(a) + b2(a)
    ensures Moved(w, w2, from, to, v1 + v2, bumps)
  {
    forall a
      ensures AccountAt(w2.state, a)
              == AfterMove(AccountAt(w.state, a), If(a == from, v1 + v2), If(a == to, v1 + v2), bumps(a))
    {
      assert AccountAt(w1.state, a) == AfterMove(AccountAt(w.state, a), If(a == from, v1), If(a == to, v1), b1(a));
    }
  }

  lemma {:induction false} PreludeMoves(c: Config, w: World, caller: Address, m: Message, depth: nat)
    ensures Moved(w, Prelude(c, w, caller, m, depth), caller, m.to, 0, SenderBump(caller, depth))
    ensures m.Call? ==> OnlyState(w, Prelude(c, w, caller, m, depth))
    ensures Prelude(c, w, caller, m, depth).warm.touched == w.warm.touched + Someone(depth == 0, caller)
  {
  }

  lemma {:induction false} TransferMoves(w: World, caller: Address, to: Address, value: nat)
    ensures var r, s, t := Transfer(w, caller, to, value), AccountAt(w.state, caller), AccountAt(w.state, to);
            && (r.1 <==> s.balance >= value && t.balance + If(caller != to, value) <= MAX_INTEGER)
            && (r.1 ==> Moved(w, r.0, caller, to, value, NoBump()) && OnlyState(w, r.0))
            && (r.1 ==> r.0.warm.touched == w.warm.touched + {caller, to})
  {
  }

  /**
   * A call without code pays its callee, exactly when the sender has the value and the callee has room for it. A
   * delegate call pays nothing.
   */
  lemma {:induction false} CallPays(c: Config, w: World, caller: Address, m: Message, depth: nat)
    requires m.Call?
    ensures var s, t := AccountAt(w.state, caller), AccountAt(w.state, m.to);
            var f := RunMessage(c, w, caller, Bare(m), depth);
            && f.Ended?
            && (f.ok <==> m.delegate
                          || (s.balance >= m.value && t.balance + If(caller != m.to, m.value) <= MAX_INTEGER))
            && (f.ok ==> Moved(w, f.world, caller, m.to, Value(m), SenderBump(caller, depth)) && OnlyState(w, f.world))
            && (f.ok ==> f.world.warm.touched == w.warm.touched + Someone(depth == 0 || !m.delegate, caller)
                                                 + Someone(!m.delegate, m.to))
  {
    var start := Prelude(c, w, caller, Bare(m), depth);
    PreludeMoves(c, w, caller, Bare(m), depth);
    TransferMoves(start, caller, m.to, m.value);
    if !m.delegate && Transfer(start, caller, m.to, m.value).1 {
      MovedOn(w, start, Transfer(start, caller, m.to, m.value).0, caller, m.to, 0, m.value,
              SenderBump(caller, depth), NoBump(), SenderBump(caller, depth));
    }
    CallEnds(c, w, caller, Bare(m), depth);
  }

  lemma {:induction false} CallEnds(c: Config, w: World, caller: Address, m: Message, depth: nat)
    requires m.Call? && m.body.NoCode?
    ensures var start := Prelude(c, w, caller, m, depth);
            var (w1, ok) := if m.delegate then (start, true) else Transfer(start, caller, m.to, m.value);
            RunMessage(c, w, caller, m, depth) == if ok then Ended(w1, true) else Ended(Undone(start, w1), false)
  {
    var start := Prelude(c, w, caller, m, depth);
    var (w1, ok) := if m.delegate then (start, true) else Transfer(start, caller, m.to, m.value);
    assert FrameOf(c, start, caller, m, depth) == CallFrame(c, start, caller, m, depth) == Ended(w1, ok);
  }

  // ----- what a failure leaves ------------------------------------------------------------------

  /** A message that fails leaves the sender's nonce, and the address to create warm, and no more. */
  lemma {:induction false} FailureLeaves(c: Config, w: World, caller: Address, m: Message, depth: nat)
    requires var f := RunMessage(c, w, caller, m, depth); f.Ended? && !f.ok
    ensures var w' := RunMessage(c, w, caller, m, depth).world;
            && Moved(w, w', caller, m.to, 0, SenderBump(caller, depth)) && w'.transient == w.transient
            && (forall a :: a in w'.warm.slots <==> a in w.warm.slots || (m.Create? && c.eip2929 && a == m.to))
            && (forall a | a in w.warm.slots :: w'.warm.slots[a] == w.warm.slots[a])
            && (forall a | a in w'.warm.touched ::
                  a in w.warm.touched || a == RIPEMD160_ADDRESS || (a == caller && depth == 0))
  {
    PreludeMoves(c, w, caller, m, depth);
    var start := Prelude(c, w, caller, m, depth);
    assert RunMessage(c, w, caller, m, depth).world == Undone(start, FrameOf(c, start, caller, m, depth).world);
  }

  // ----- where code runs --------------------------------------------------------------------------

  /** The operations have run at the address, and then a transaction's own frame has cleared transient storage. */
  ghost predicate Ran(c: Config, w: World, w': World, self: Address, depth: nat, ops: seq<Op>) {
    var w1 := RunOps(c, w, self, depth, ops);
    && w'.state == w1.state && w'.warm == w1.warm && w'.always == w1.always
    && TransientAfter(c, w1, w', depth)
  }

  ghost predicate TransientAfter(c: Config, w: World, w': World, depth: nat) {
    if depth == 0 && c.eip1153 then forall p: StorageKey :: p in w'.transient && w'.transient[p] == ZERO
    else w'.transient == w.transient
  }

  /** A call with code runs it in the world in which the callee has been paid; the failure of either is its own. */
  lemma {:induction false} CodeRuns(c: Config, w: World, caller: Address, m: Message, depth: nat)
    requires m.Call? && m.body.Code?
    ensures var f, g := RunMessage(c, w, caller, m, depth), RunMessage(c, w, caller, Bare(m), depth);
            && f.Ended? && g.Ended? && (f.ok <==> g.ok && m.body.ok)
            && (f.ok ==> Ran(c, g.world, f.world, m.to, depth, m.body.ops))
            && (g.ok ==> f.world.always == RunOps(c, g.world, m.to, depth, m.body.ops).always)
  {
    var start := Prelude(c, w, caller, m, depth);
    CallEnds(c, w, caller, Bare(m), depth);
    assert FrameOf(c, start, caller, m, depth) == CallFrame(c, start, caller, m, depth);
  }

  // ----- creations ----------------------------------------------------------------------------------

  function CreatorBump(c: Config, caller: Address, to: Address, depth: nat): Address -> int {
    a => If(a == caller && depth == 0, 1) + If(a == to && c.spuriousDragon, 1)
  }

  function NewBump(c: Config, to: Address): Address -> int {
    a => If(a == to && c.spuriousDragon, 1)
  }

  lemma {:induction false} ReduceMoves(w: World, caller: Address, value: nat)
    requires AccountAt(w.state, caller).balance >= value
    ensures var (w1, paid) := Reduce(w, caller, value);
            && paid && OnlyState(w, w1) && w1.warm.touched == w.warm.touched + {caller}
            && w1.state.code == w.state.code && w1.state.storage == w.state.storage
            && (forall a :: AccountAt(w1.state, a) == AfterMove(AccountAt(w.state, a), If(a == caller, value), 0, 0))
            && (forall a | a != caller :: a in w1.state.accounts <==> a in w.state.accounts)
  {
  }

  lemma {:induction false} NewMoves(c: Config, w: World, caller: Address, to: Address, value: nat)
    requires AccountAt(w.state, caller).balance >= value
    ensures var w1 := Reduce(w, caller, value).0; var r := Add(NewContract(c, w1, to), to, value);
            && AccountAt(w1.state, to) == AfterMove(AccountAt(w.state, to), If(caller == to, value), 0, 0)
            && (r.1 <==> AccountAt(w.state, to).balance + If(caller != to, value) <= MAX_INTEGER)
            && (r.1 ==> Moved(w, r.0, caller, to, value, NewBump(c, to)) && OnlyState(w, r.0))
            && (r.1 ==> r.0.warm.touched == w.warm.touched + {caller} + {to})
  {
    ReduceMoves(w, caller, value);
    var w1 := Reduce(w, caller, value).0;
    NewPaid(c, w1, to, value);
  }

  lemma {:induction false} NewPaid(c: Config, w: World, to: Address, value: nat)
    ensures var r, s := Add(NewContract(c, w, to), to, value), AccountAt(w.state, to);
            && (r.1 <==> s.balance + value <= MAX_INTEGER)
            && (r.1 ==>
                  && OnlyState(w, r.0) && r.0.state.code == w.state.code && r.0.state.storage == w.state.storage
                  && r.0.warm.touched == w.warm.touched + {to}
                  && r.0.state.accounts
                     == w.state.accounts[to := AfterMove(s, 0, value, If(c.spuriousDragon, 1))])
  {
  }

  lemma {:induction false} CreateEnds(c: Config, w: World, caller: Address, m: Message, depth: nat)
    requires m.Create? && m.body.NoCode? && AccountAt(w.state, caller).balance >= m.value
    ensures var start := Prelude(c, w, caller, m, depth); var w1 := Reduce(start, caller, m.value).0;
            var r := Add(NewContract(c, w1, m.to), m.to, m.value);
            RunMessage(c, w, caller, m, depth)
            == if m.initTooLarge || Collides(AccountAt(w1.state, m.to)) then Ended(Undone(start, w1), false)
               else if r.1 then Ended(r.0, true) else Ended(Undone(start, r.0), false)
  {
    var start := Prelude(c, w, caller, m, depth);
    var w1 := Reduce(start, caller, m.value).0;
    assert FrameOf(c, start, caller, m, depth) == CreateFrame(c, start, caller, m, depth);
    assert NewFrame(c, w1, m, depth).Ended?;
  }

  /** A creation without code succeeds exactly when the new address is free and has room for the value. */
  lemma {:induction false} CreateSucceeds(c: Config, w: World, caller: Address, m: Message, depth: nat)
    requires m.Create? && AccountAt(w.state, caller).balance >= m.value
    ensures var f, t := RunMessage(c, w, caller, Bare(m), depth), AccountAt(w.state, m.to);
            && f.Ended?
            && (f.ok <==> && !m.initTooLarge && t.nonce + If(caller == m.to && depth == 0, 1) <= 0
                          && t.codeHash == KECCAK256_NULL && t.storageRoot == KECCAK256_RLP
                          && t.balance + If(caller != m.to, m.value) <= MAX_INTEGER)
  {
    var start := Prelude(c, w, caller, Bare(m), depth);
    PreludeMoves(c, w, caller, Bare(m), depth);
    NewMoves(c, start, caller, m.to, m.value);
    CreateEnds(c, w, caller, Bare(m), depth);
  }

  lemma {:induction false} CreatedFrom(c: Config, w: World, caller: Address, m: Message, depth: nat)
    requires m.Create? && AccountAt(w.state, caller).balance >= m.value
    requires var f := RunMessage(c, w, caller, Bare(m), depth); f.Ended? && f.ok
    ensures var start, w' := Prelude(c, w, caller, Bare(m), depth), RunMessage(c, w, caller, Bare(m), depth).world;
            && Moved(start, w', caller, m.to, m.value, NewBump(c, m.to)) && OnlyState(start, w')
            && w'.warm.touched == start.warm.touched + {caller} + {m.to}
  {
    var start := Prelude(c, w, caller, Bare(m), depth);
    PreludeMoves(c, w, caller, Bare(m), depth);
    NewMoves(c, start, caller, m.to, m.value);
    CreateEnds(c, w, caller, Bare(m), depth);
  }

  /** It then pays the new address, whose nonce starts at 1 from Spurious Dragon on. */
  lemma {:induction false} CreatePays(c: Config, w: World, caller: Address, m: Message, depth: nat)
    requires m.Create? && AccountAt(w.state, caller).balance >= m.value
    requires var f := RunMessage(c, w, caller, Bare(m), depth); f.Ended? && f.ok
    ensures var w' := RunMessage(c, w, caller, Bare(m), depth).world;
            && Moved(w, w', caller, m.to, m.value, CreatorBump(c, caller, m.to, depth))
            && w'.always == w.always && w'.transient == w.transient
            && (m.to in w'.warm.slots <==> c.eip2929 || m.to in w.warm.slots)
            && w'.warm.touched == w.warm.touched + {caller, m.to}
  {
    var start, w1 := Prelude(c, w, caller, Bare(m), depth), RunMessage(c, w, caller, Bare(m), depth).world;
    PreludeMoves(c, w, caller, Bare(m), depth);
    CreatedFrom(c, w, caller, m, depth);
    MovedOn(w, start, w1, caller, m.to, 0, m.value, SenderBump(caller, depth), NewBump(c, m.to),
            CreatorBump(c, caller, m.to, depth));
  }

  /** What is stored for the code that a creation returned. */
  ghost predicate CodeStored(c: Config, w: World, w': World, to: Address, code: Data) {
    && w'.state.storage == w.state.storage && w'.state.code == w.state.code[to := code]
    && forall a ::
         var s := AccountAt(w.state, a);
         AccountAt(w'.state, a) == if a == to then s.(codeHash := c.keccak256(code)) else s
  }

  ghost predicate SameState(w: World, w': World) {
    && w'.state.storage == w.state.storage && w'.state.code == w.state.code
    && forall a :: AccountAt(w'.state, a) == AccountAt(w.state, a)
  }

  /** The fate of the returned code. */
  ghost predicate CodeKept(c: Config, w: World, w': World, m: Message)
    requires m.Create?
  {
    && w'.warm.slots == w.warm.slots && w'.always == w.always
    && if m.deposit.Deployed? && m.deposit.code != NO_BYTES then CodeStored(c, w, w', m.to, m.deposit.code)
       else SameState(w, w')
  }

  lemma {:induction false} DepositKeeps(c: Config, w: World, m: Message)
    requires m.Create? && m.body.Code?
    ensures var (w', ok) := Deposited(c, w, m);
            && (ok <==> m.body.ok && (m.deposit.Deployed? || (m.deposit.CannotPay? && c.chainstart)))
            && (ok ==> CodeKept(c, w, w', m) && w'.transient == w.transient)
  {
  }

  /** A creation with code is the one without, then its code, then its deposit. */
  lemma {:induction false} InitEnds(c: Config, w: World, caller: Address, m: Message, depth: nat)
    requires m.Create? && m.body.Code? && AccountAt(w.state, caller).balance >= m.value
    requires RunMessage(c, w, caller, Bare(m), depth).Ended?
    ensures var f, g := RunMessage(c, w, caller, m, depth), RunMessage(c, w, caller, Bare(m), depth);
            && f.Ended? && (!g.ok ==> !f.ok)
            && (g.ok ==>
                  var d := Deposited(c, RunOps(c, g.world, m.to, depth, m.body.ops), m);
                  f.ok == d.1 && (f.ok ==> f.world == Cleaned(c, d.0, depth)))
  {
    var start := Prelude(c, w, caller, m, depth);
    var w1 := Reduce(start, caller, m.value).0;
    var r := Add(NewContract(c, w1, m.to), m.to, m.value);
    CreateEnds(c, w, caller, Bare(m), depth);
    CodeEnds(c, w, caller, m, depth);
  }

  lemma {:induction false} CodeEnds(c: Config, w: World, caller: Address, m: Message, depth: nat)
    requires m.Create? && m.body.Code? && AccountAt(w.state, caller).balance >= m.value
    ensures var start, f := Prelude(c, w, caller, m, depth), RunMessage(c, w, caller, m, depth);
            var w1 := Reduce(start, caller, m.value).0;
            var r := Add(NewContract(c, w1, m.to), m.to, m.value);
            if m.initTooLarge || Collides(AccountAt(w1.state, m.to)) || !r.1 then f.Ended? && !f.ok
            else
              var d := Deposited(c, RunOps(c, r.0, m.to, depth, m.body.ops), m);
              f == if d.1 then Ended(Cleaned(c, d.0, depth), true)
                else Ended(Undone(start, Cleaned(c, d.0, depth)), false)
  {
    var start := Prelude(c, w, caller, m, depth);
    var w1 := Reduce(start, caller, m.value).0;
    var r := Add(NewContract(c, w1, m.to), m.to, m.value);
    assert FrameOf(c, start, caller, m, depth) == CreateFrame(c, start, caller, m, depth);
    assert NewFrame(c, w1, m, depth) == if r.1 then InitFrame(c, r.0, m, depth) else Ended(r.0, false);
  }

  /**
   * A creation with code runs it in the world in which the new address has been paid, and stores what it returns
   * under that address; on Frontier alone it succeeds without, if it cannot pay for the code.
   */
  lemma {:induction false} InitCodeRuns(c: Config, w: World, caller: Address, m: Message, depth: nat)
    requires m.Create? && m.body.Code? && AccountAt(w.state, caller).balance >= m.value
    ensures var f, g := RunMessage(c, w, caller, m, depth), RunMessage(c, w, caller, Bare(m), depth);
            && f.Ended? && g.Ended?
            && (f.ok <==> g.ok && m.body.ok && (m.deposit.Deployed? || (m.deposit.CannotPay? && c.chainstart)))
            && (f.ok ==> var w1 := RunOps(c, g.world, m.to, depth, m.body.ops);
                         CodeKept(c, w1, f.world, m) && TransientAfter(c, w1, f.world, depth))
  {
    CreateSucceeds(c, w, caller, m, depth);
    InitEnds(c, w, caller, m, depth);
    var g := RunMessage(c, w, caller, Bare(m), depth);
    DepositKeeps(c, RunOps(c, g.world, m.to, depth, m.body.ops), m);
  }

  // ----- messages sent by code -------------------------------------------------------------------

  function SendsBump(self: Address, m: Message): Address -> int {
    a => If(a == self && m.Create?, 1)
  }

  /** What the interpreter does not send does nothing: too deep, not paid for, or by an account out of nonces. */
  lemma {:induction false} NotSent(c: Config, w: World, self: Address, depth: nat, m: Message)
    requires || depth >= c.stackLimit
             || (!(m.Call? && m.delegate) && AccountAt(w.state, self).balance < m.value)
             || (m.Create? && AccountAt(w.state, self).nonce >= MAX_UINT64)
    ensures RunOp(c, w, self, depth, Send(m)) == w
  {
  }

  /** What it sends is a message of the running contract, one level deeper, whose nonce goes up for a creation. */
  lemma {:induction false} Sent(c: Config, w: World, self: Address, depth: nat, m: Message)
    requires depth < c.stackLimit
    requires (m.Call? && m.delegate) || AccountAt(w.state, self).balance >= m.value
    requires m.Create? ==> AccountAt(w.state, self).nonce < MAX_UINT64
    ensures exists w1 :: && Moved(w, w1, self, self, 0, SendsBump(self, m)) && OnlyState(w, w1)
                         && RunOp(c, w, self, depth, Send(m))
                            == if m.Create? && m.initTooLarge then w1 else RunMessage(c, w1, self, m, depth + 1).world
  {
    var w1 := Sending(w, self, m);
    assert Moved(w, w1, self, self, 0, SendsBump(self, m)) && OnlyState(w, w1);
  }

  // ----- how deep messages go -----------------------------------------------------------------------

  /** The operations without the messages more than `n` levels below. */
  function PrunedOps(ops: seq<Op>, n: nat): seq<Op>
    decreases ops
  {
    if ops == [] then [] else PrunedOps(ops[..|ops| - 1], n) + PrunedOp(ops[|ops| - 1], n)
  }

  function PrunedOp(op: Op, n: nat): seq<Op>
    decreases op
  {
    if !op.Send? then [op] else if n == 0 then [] else [Send(Pruned(op.message, n - 1))]
  }

  function Pruned(m: Message, n: nat): Message
    decreases m
  {
    if m.body.NoCode? then m else m.(body := Code(PrunedOps(m.body.ops, n), m.body.ok))
  }

  /** Levels left below a frame of the given depth. */
  function Levels(c: Config, depth: nat): nat {
    if c.stackLimit > depth then c.stackLimit - depth else 0
  }

  lemma {:induction false} RunLast(c: Config, w: World, self: Address, depth: nat, ops: seq<Op>, op: Op)
    ensures RunOps(c, w, self, depth, ops + [op]) == RunOp(c, RunOps(c, w, self, depth, ops), self, depth, op)
  {
    assert (ops + [op])[..|ops|] == ops;
  }

  /** Nothing below the stack limit is ever run: a message does what it does without all that is deeper. */
  lemma {:induction false} NothingBelowLimit(c: Config, w: World, caller: Address, m: Message, depth: nat)
    ensures RunMessage(c, w, caller, Pruned(m, Levels(c, depth)), depth) == RunMessage(c, w, caller, m, depth)
    decreases m, 1
  {
    var start, p := Prelude(c, w, caller, m, depth), Pruned(m, Levels(c, depth));
    if m.body.Code? {
      forall w1
        ensures RunOps(c, w1, m.to, depth, p.body.ops) == RunOps(c, w1, m.to, depth, m.body.ops)
      {
        OpsPruned(c, w1, m.to, depth, m.body.ops);
      }
      if m.Call? {
        assert CallFrame(c, start, caller, p, depth) == CallFrame(c, start, caller, m, depth);
      } else {
        NewPruned(c, Reduce(start, caller, m.value).0, m, p, depth);
        assert CreateFrame(c, start, caller, p, depth) == CreateFrame(c, start, caller, m, depth);
      }
      assert FrameOf(c, start, caller, p, depth) == FrameOf(c, start, caller, m, depth);
    }
  }

  lemma {:induction false} NewPruned(c: Config, w: World, m: Message, p: Message, depth: nat)
    requires m.Create? && m.body.Code? && p.body.Code? && p == m.(body := p.body) && p.body.ok == m.body.ok
    requires forall w1 :: RunOps(c, w1, m.to, depth, p.body.ops) == RunOps(c, w1, m.to, depth, m.body.ops)
    ensures NewFrame(c, w, p, depth) == NewFrame(c, w, m, depth)
  {
    var r := Add(NewContract(c, w, m.to), m.to, m.value);
    var w1 := RunOps(c, r.0, m.to, depth, m.body.ops);
    assert Deposited(c, w1, p) == Deposited(c, w1, m);
    assert InitFrame(c, r.0, p, depth) == InitFrame(c, r.0, m, depth);
  }

  lemma {:induction false} OpsPruned(c: Config, w: World, self: Address, depth: nat, ops: seq<Op>)
    ensures RunOps(c, w, self, depth, PrunedOps(ops, Levels(c, depth))) == RunOps(c, w, self, depth, ops)
    decreases ops, 1
  {
    if ops != [] {
      OpsPruned(c, w, self, depth, ops[..|ops| - 1]);
      OpPruned(c, RunOps(c, w, self, depth, ops[..|ops| - 1]), self, depth, ops[|ops| - 1]);
      var rest, last := PrunedOps(ops[..|ops| - 1], Levels(c, depth)), PrunedOp(ops[|ops| - 1], Levels(c, depth));
      if last != [] {
        RunLast(c, w, self, depth, rest, last[0]);
        assert last == [last[0]];
      } else {
        assert rest + last == rest;
      }
    }
  }

  lemma {:induction false} OpPruned(c: Config, w: World, self: Address, depth: nat, op: Op)
    ensures var p := PrunedOp(op, Levels(c, depth));
            |p| <= 1 && RunOp(c, w, self, depth, op) == if p == [] then w else RunOp(c, w, self, depth, p[0])
    decreases op
  {
    if op.Send? && Levels(c, depth) > 0 {
      assert Levels(c, depth) - 1 == Levels(c, depth + 1);
      NothingBelowLimit(c, Sending(w, self, op.message), self, op.message, depth + 1);
    }
  }

  // ----- what operations write ----------------------------------------------------------------------

  /** No operation sends a message. */
  predicate Quiet(ops: seq<Op>) {
    forall op | op in ops :: !op.Send?
  }

  /** The value that the operations last store in a slot, or else the one it had. */
  ghost function LastStored(ops: seq<Op>, a: Address, key: Data, was: Option<Data>): Option<Data> {
    if ops == [] then was
    else
      var op := ops[|ops| - 1];
      if op.Store? && op.address == a && op.key == key then Some(op.value)
      else LastStored(ops[..|ops| - 1], a, key, was)
  }

  /** The same for transient storage, where a key or value of the wrong length is refused. */
  ghost function LastStoredTransient(ops: seq<Op>, p: StorageKey, was: Option<Data>): Option<Data> {
    if ops == [] then was
    else
      var op := ops[|ops| - 1];
      if op.StoreTransient? && (op.address, op.key) == p && |op.key.bytes| == 32 && |op.value.bytes| <= 32 then
        Some(op.value)
      else LastStoredTransient(ops[..|ops| - 1], p, was)
  }

  ghost function StoredAt(w: World, a: Address, key: Data): Option<Data> {
    if (a, key) in w.state.storage then Some(w.state.storage[(a, key)]) else None
  }

  ghost function TransientAt(w: World, p: StorageKey): Option<Data> {
    if p in w.transient then Some(w.transient[p]) else None
  }

  predicate Accesses(op: Op, a: Address) {
    (op.WarmAddress? || op.WarmSlot?) && op.address == a
  }

  /** Operations that send nothing write the slots they say, last value last, and no account. */
  lemma {:induction false} OpsStore(c: Config, w: World, self: Address, depth: nat, ops: seq<Op>, a: Address, key: Data)
    requires Quiet(ops)
    ensures var w' := RunOps(c, w, self, depth, ops);
            && w'.state.accounts == w.state.accounts && w'.state.code == w.state.code
            && StoredAt(w', a, key) == LastStored(ops, a, key, StoredAt(w, a, key))
  {
    if ops != [] {
      OpsStore(c, w, self, depth, ops[..|ops| - 1], a, key);
      assert !ops[|ops| - 1].Send?;
    }
  }

  lemma {:induction false} OpsStoreTransient(c: Config, w: World, self: Address, depth: nat, ops: seq<Op>,
                                             p: StorageKey)
    requires Quiet(ops)
    ensures TransientAt(RunOps(c, w, self, depth, ops), p)
            == if c.eip1153 then LastStoredTransient(ops, p, TransientAt(w, p)) else TransientAt(w, p)
  {
    if ops != [] {
      OpsStoreTransient(c, w, self, depth, ops[..|ops| - 1], p);
      assert !ops[|ops| - 1].Send?;
    }
  }

  /** An address is warm when it was or an operation has accessed it. */
  lemma {:induction false} OpsAccess(c: Config, w: World, self: Address, depth: nat, ops: seq<Op>, a: Address)
    requires Quiet(ops)
    ensures var w' := RunOps(c, w, self, depth, ops);
            && w'.warm.touched == w.warm.touched
            && (a in w'.warm.slots <==> a in w.warm.slots || exists op :: op in ops && Accesses(op, a))
  {
    if ops != [] {
      var before, op := ops[..|ops| - 1], ops[|ops| - 1];
      OpsAccess(c, w, self, depth, before, a);
      assert ops == before + [op] && !op.Send?;
      assert (exists x :: x in ops && Accesses(x, a)) <==>
        (exists x :: x in before && Accesses(x, a)) || Accesses(op, a);
    }
  }

  /** A slot is warm when it was or an operation has accessed it, and always warm when one has made it so. */
  lemma {:induction false} OpsWarm(c: Config, w: World, self: Address, depth: nat, ops: seq<Op>, a: Address, slot: Slot)
    requires Quiet(ops)
    ensures var w' := RunOps(c, w, self, depth, ops);
            && (a in w'.warm.slots && slot in w'.warm.slots[a]
                <==> (a in w.warm.slots && slot in w.warm.slots[a]) || WarmSlot(a, slot) in ops)
            && (a in w'.always && slot in w'.always[a]
                <==> (a in w.always && slot in w.always[a]) || AlwaysWarm(a, slot) in ops)
  {
    if ops != [] {
      var before, op := ops[..|ops| - 1], ops[|ops| - 1];
      OpsWarm(c, w, self, depth, before, a, slot);
      assert ops == before + [op];
      assert !op.Send?;
    }
  }
}
