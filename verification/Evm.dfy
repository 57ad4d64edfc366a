/**
 * Message execution over the journal, the stack of state maps and the transient storage log
 * (packages/evm/src/evm.ts, packages/evm/src/interpreter.ts).
 */
module Execution {
  import opened StateManager
  import opened AccessJournal
  import opened Transient
  import opened Frames

  /** What the three undo mechanisms have saved at the open checkpoints. */
  datatype Snapshots = Snapshots(levels: seq<Level>, warm: seq<Warmth>, transient: seq<Seen>, indices: seq<int>)

  ghost function Opened(c: Config, s: Snapshots, w: World, index: int): Snapshots {
    if c.eip1153 then
      Snapshots(s.levels + [w.state], s.warm + [w.warm], s.transient + [w.transient], s.indices + [index])
    else s.(levels := s.levels + [w.state], warm := s.warm + [w.warm])
  }

  /** Nothing but what one more checkpoint saved. */
  ghost predicate OneMore(c: Config, s: Snapshots, s': Snapshots, w: World) {
    exists index :: s' == Opened(c, s, w, index)
  }

  class Evm {
    const c: Config
    const state: SimpleStateManager
    const journal: Journal
    const transient: TransientStorage

    ghost predicate Valid()
      reads state, state.view.held.Keys, journal, transient
    {
      && journal.stateManager == state && state.keccak256 == c.keccak256
      && state.Valid() && journal.Valid() && transient.Valid()
    }

    ghost function Now(): World
      reads state, journal, transient
    {
      World(state.view.top, journal.Now(), journal.alwaysWarmJournal, transient.Now())
    }

    ghost function Saved(): Snapshots
      reads state, journal, transient
    {
      Snapshots(state.view.saved, journal.past.snapshots, transient.snapshots, transient.indices)
    }

    /** No change of transient storage can be undone: so it is between transactions. */
    ghost predicate Idle()
      reads transient
    {
      transient.changeJournal == [] && forall i | 0 <= i < |transient.indices| :: transient.indices[i] == 0
    }

    constructor (c: Config)
      ensures Valid() && this.c == c && Idle()
      ensures Now() == World(Level(map[], map[], map[]), Warmth(map[], {}), map[], Reads(map[]))
    {
      this.c := c;
      var stateManager := new SimpleStateManager(c.keccak256);
      state := stateManager;
      journal := new Journal(stateManager);
      transient := new TransientStorage();
    }

    // ----- checkpoints ------------------------------------------------------------------------

    method Checkpoint()
      requires Valid()
      modifies state, journal, transient
      ensures Valid() && Now() == old(Now()) && fresh(state.Owned() - old(state.Owned()))
      ensures state.Owned() >= old(state.Owned())
      ensures Saved() == Opened(c, old(Saved()), old(Now()), |transient.changeJournal|)
      ensures transient.changeJournal == old(transient.changeJournal)
    {
      journal.Checkpoint();
      if c.eip1153 {
        transient.Checkpoint();
      }
    }

    /** Ends a frame that succeeded. */
    method Commit(ghost s: Snapshots, ghost w: World, ghost index: int)
      requires Valid() && Saved() == Opened(c, s, w, index)
      modifies state, journal, transient
      ensures Valid() && Now() == old(Now()) && Saved() == s && state.Owned() == old(state.Owned())
      ensures transient.changeJournal == old(transient.changeJournal)
    {
      journal.Commit();
      if c.eip1153 {
        var ok := transient.Commit();
      }
    }

    /** Ends a frame that failed. */
    method Revert(ghost s: Snapshots, ghost w: World, ghost index: int)
      requires Valid() && Saved() == Opened(c, s, w, index)
      requires !c.eip1153 ==> transient.Now() == w.transient
      modifies state, journal, transient
      ensures Valid() && Now() == Undone(w, old(Now())) && Saved() == s && state.Owned() == old(state.Owned())
      ensures |transient.changeJournal| <= |old(transient.changeJournal)|
      ensures !c.eip1153 ==> transient.changeJournal == old(transient.changeJournal)
    {
      journal.Revert();
      if c.eip1153 {
        var ok := transient.Revert();
      }
    }

    // ----- accounts --------------------------------------------------------------------------

    /** The account object is the one held for the address, or a new one where there is none. */
    ghost predicate Has(address: Address, account: Account)
      reads state
    {
      state.Holds(address, account)
    }

    method GetAccount(address: Address) returns (account: Account)
      requires Valid()
      ensures Valid() && Has(address, account) && account.State() == AccountAt(Now().state, address)
      ensures account in state.Owned() || fresh(account)
    {
      account := state.AccountOrNew(address);
    }

    method SetBalance(ghost address: Address, account: Account, balance: int)
      requires Valid() && Has(address, account)
      modifies state, account`balance
      ensures Valid() && Has(address, account) && account.State() == old(account.State()).(balance := balance)
      ensures Saved() == old(Saved()) && state.Owned() == old(state.Owned())
      ensures Now() == WithObject(old(Now()), address, account.State())
    {
      state.SetBalance(address, account, balance);
    }

    method SetNonce(ghost address: Address, account: Account, nonce: int)
      requires Valid() && Has(address, account)
      modifies state, account`nonce
      ensures Valid() && Has(address, account) && account.State() == old(account.State()).(nonce := nonce)
      ensures Saved() == old(Saved()) && state.Owned() == old(state.Owned())
      ensures Now() == WithObject(old(Now()), address, account.State())
    {
      state.SetNonce(address, account, nonce);
    }

    method PutAccount(address: Address, account: Account)
      requires Valid() && Has(address, account)
      modifies state, journal
      ensures Valid() && Has(address, account)
      ensures Saved() == old(Saved()) && state.Owned() == old(state.Owned()) + {account}
      ensures Now() == PutState(old(Now()), address, account.State())
    {
      journal.PutAccount(address, account);
    }

    method ReduceSenderBalance(account: Account, caller: Address, value: nat) returns (ok: bool)
      requires Valid() && Has(caller, account) && account.State() == AccountAt(Now().state, caller)
      modifies state, journal, account
      ensures Valid() && Saved() == old(Saved()) && state.Owned() <= old(state.Owned()) + {account}
      ensures Now() == Reduce(old(Now()), caller, value).0 && ok == Reduce(old(Now()), caller, value).1
    {
      SetBalance(caller, account, account.balance - value);
      if account.balance < 0 {
        return false;
      }
      PutAccount(caller, account);
      PutAfterWrite(old(Now()), caller, account.State());
      ok := true;
    }

    method AddToBalance(toAccount: Account, to: Address, value: nat) returns (ok: bool)
      requires Valid() && Has(to, toAccount) && toAccount.State() == AccountAt(Now().state, to)
      modifies state, journal, toAccount
      ensures Valid() && Saved() == old(Saved()) && state.Owned() <= old(state.Owned()) + {toAccount}
      ensures Now() == Add(old(Now()), to, value).0 && ok == Add(old(Now()), to, value).1
    {
      var newBalance := toAccount.balance + value;
      if newBalance > MAX_INTEGER {
        return false;
      }
      SetBalance(to, toAccount, newBalance);
      PutAccount(to, toAccount);
      AddedAfterWrite(old(Now()), to, value, toAccount.State());
      ok := true;
    }

    // ----- messages ------------------------------------------------------------------------------

    /** Takes the value from the sender and gives it to the callee; either can fail. */
    method TransferValue(caller: Address, to: Address, value: nat) returns (ok: bool)
      requires Valid()
      modifies state, journal, state.Owned()
      ensures Valid() && Saved() == old(Saved()) && fresh(state.Owned() - old(state.Owned()))
      ensures Now() == Transfer(old(Now()), caller, to, value).0 && ok == Transfer(old(Now()), caller, to, value).1
    {
      var paid := ReduceSender(caller, value);
      var added := AddTo(to, value);
      ok := paid && added;
    }

    method AddTo(to: Address, value: nat) returns (ok: bool)
      requires Valid()
      modifies state, journal, state.Owned()
      ensures Valid() && Saved() == old(Saved()) && fresh(state.Owned() - old(state.Owned()))
      ensures Now() == Add(old(Now()), to, value).0 && ok == Add(old(Now()), to, value).1
    {
      var toAccount := GetAccount(to);
      ok := AddToBalance(toAccount, to, value);
    }

    /** A transaction's own frame ends by clearing transient storage. */
    method PostMessageCleanup(depth: nat)
      requires Valid() && (depth == 0 ==> AllZero())
      modifies transient
      ensures Valid() && Now() == Cleaned(c, old(Now()), depth) && Saved() == old(Saved())
      ensures depth == 0 && c.eip1153 ==> transient.changeJournal == []
      ensures depth > 0 || !c.eip1153 ==> transient.changeJournal == old(transient.changeJournal)
    {
      state.Unfold();
      if depth == 0 && c.eip1153 {
        transient.Clear();
      }
    }

    ghost predicate AllZero()
      reads transient
    {
      forall i | 0 <= i < |transient.indices| :: transient.indices[i] == 0
    }

    /** The method's results are those of the frame. */
    static ghost predicate FrameResult(f: Frame, now: World, ok: bool, thrown: bool) {
      f == if thrown then Thrown(now) else Ended(now, ok)
    }

    /**
     * Runs a message between a checkpoint and a commit or revert. All three undo mechanisms end as deep as
     * they began, and the world is as the tree of messages says. A creation whose sender lacks the value
     * is thrown out of here with its checkpoint still open.
     */
    method RunCall(caller: Address, m: Message, depth: nat) returns (ok: bool, thrown: bool)
      requires Valid() && (depth == 0 ==> Idle())
      modifies state, journal, transient, state.Owned()
      ensures Valid() && fresh(state.Owned() - old(state.Owned()))
      ensures FrameResult(RunMessage(c, old(Now()), caller, m, depth), Now(), ok, thrown)
      ensures if thrown then OneMore(c, old(Saved()), Saved(), Prelude(c, old(Now()), caller, m, depth))
              else Saved() == old(Saved())
      ensures depth == 0 ==> transient.changeJournal == []
      ensures !c.eip1153 ==> transient.changeJournal == old(transient.changeJournal)
      decreases m, 3
    {
      BeforeCheckpoint(caller, m, depth);
      ok, thrown := RunFrame(caller, m, depth);
    }

    /** A message's frame, from the checkpoint on. */
    method RunFrame(caller: Address, m: Message, depth: nat) returns (ok: bool, thrown: bool)
      requires Valid() && (depth == 0 ==> Idle())
      modifies state, journal, transient, state.Owned()
      ensures Valid() && fresh(state.Owned() - old(state.Owned()))
      ensures FrameResult(RunFrom(c, old(Now()), caller, m, depth), Now(), ok, thrown)
      ensures if thrown then OneMore(c, old(Saved()), Saved(), old(Now())) else Saved() == old(Saved())
      ensures depth == 0 ==> transient.changeJournal == []
      ensures !c.eip1153 ==> transient.changeJournal == old(transient.changeJournal)
      decreases m, 2, 1
    {
      ghost var start, s, index := Now(), Saved(), |transient.changeJournal|;
      Checkpoint();
      ok, thrown := Execute(caller, m, depth);
      if !c.eip1153 {
        FrameWithoutTransient(c, start, caller, m, depth);
      }
      EndFrame(ok, thrown, s, start, index);
    }

    method Execute(caller: Address, m: Message, depth: nat) returns (ok: bool, thrown: bool)
      requires Valid() && (depth == 0 ==> Idle())
      modifies state, journal, transient, state.Owned()
      ensures Valid() && Saved() == old(Saved()) && fresh(state.Owned() - old(state.Owned()))
      ensures FrameResult(FrameOf(c, old(Now()), caller, m, depth), Now(), ok, thrown)
      ensures depth == 0 ==> transient.changeJournal == []
      ensures !c.eip1153 ==> transient.changeJournal == old(transient.changeJournal)
      decreases m, 2, 0
    {
      thrown := false;
      if m.Call? {
        ok := ExecuteCall(caller, m, depth);
      } else {
        ok, thrown := ExecuteCreate(caller, m, depth);
      }
    }

    method ExecuteCall(caller: Address, m: Message, depth: nat) returns (ok: bool)
      requires Valid() && m.Call? && (depth == 0 ==> Idle())
      modifies state, journal, transient, state.Owned()
      ensures Valid() && Saved() == old(Saved()) && fresh(state.Owned() - old(state.Owned()))
      ensures CallFrame(c, old(Now()), caller, m, depth) == Ended(Now(), ok)
      ensures depth == 0 ==> transient.changeJournal == []
      ensures !c.eip1153 ==> transient.changeJournal == old(transient.changeJournal)
      decreases m, 1
    {
      ok := true;
      if !m.delegate {
        ok := TransferValue(caller, m.to, m.value);
      }
      if m.body.NoCode? || !ok {
        return;
      }
      RunCode(m.to, depth, m.body.ops);
      ok := m.body.ok;
    }

    method RunCode(self: Address, depth: nat, ops: seq<Op>)
      requires Valid() && (depth == 0 ==> AllZero())
      modifies state, journal, transient, state.Owned()
      ensures Valid() && Saved() == old(Saved()) && fresh(state.Owned() - old(state.Owned()))
      ensures Now() == Cleaned(c, RunOps(c, old(Now()), self, depth, ops), depth)
      ensures depth == 0 && c.eip1153 ==> transient.changeJournal == []
      ensures !c.eip1153 ==> transient.changeJournal == old(transient.changeJournal)
      decreases ops, 1
    {
      RunInterpreter(self, depth, ops);
      PostMessageCleanup(depth);
    }

    method ExecuteCreate(caller: Address, m: Message, depth: nat) returns (ok: bool, thrown: bool)
      requires Valid() && m.Create? && (depth == 0 ==> Idle())
      modifies state, journal, transient, state.Owned()
      ensures Valid() && Saved() == old(Saved()) && fresh(state.Owned() - old(state.Owned()))
      ensures CreateFrame(c, old(Now()), caller, m, depth) == if thrown then Thrown(Now()) else Ended(Now(), ok)
      ensures depth == 0 ==> transient.changeJournal == []
      ensures !c.eip1153 ==> transient.changeJournal == old(transient.changeJournal)
      decreases m, 1
    {
      thrown := false;
      var paid := ReduceSender(caller, m.value);
      if !paid {
        return false, true;
      }
      var collides := CollidesAt(m.to);
      if m.initTooLarge || collides {
        return false, false;
      }
      ok := CreateContract(m, depth);
    }

    method CreateContract(m: Message, depth: nat) returns (ok: bool)
      requires Valid() && m.Create? && (depth == 0 ==> Idle())
      modifies state, journal, transient, state.Owned()
      ensures Valid() && Saved() == old(Saved()) && fresh(state.Owned() - old(state.Owned()))
      ensures NewFrame(c, old(Now()), m, depth) == Ended(Now(), ok)
      ensures depth == 0 ==> transient.changeJournal == []
      ensures !c.eip1153 ==> transient.changeJournal == old(transient.changeJournal)
      decreases m, 0, 2
    {
      ok := StartContract(m.to, m.value);
      if m.body.NoCode? || !ok {
        return;
      }
      ok := RunInitCode(m, depth);
    }

    method RunInitCode(m: Message, depth: nat) returns (ok: bool)
      requires Valid() && m.Create? && m.body.Code? && (depth == 0 ==> AllZero())
      modifies state, journal, transient, state.Owned()
      ensures Valid() && Saved() == old(Saved()) && fresh(state.Owned() - old(state.Owned()))
      ensures InitFrame(c, old(Now()), m, depth) == Ended(Now(), ok)
      ensures depth == 0 && c.eip1153 ==> transient.changeJournal == []
      ensures !c.eip1153 ==> transient.changeJournal == old(transient.changeJournal)
      decreases m, 0, 1
    {
      RunInterpreter(m.to, depth, m.body.ops);
      ok := FinishCreate(m, depth);
    }

    method FinishCreate(m: Message, depth: nat) returns (ok: bool)
      requires Valid() && m.Create? && m.body.Code? && (depth == 0 ==> AllZero())
      modifies state, journal, transient, state.Owned()
      ensures Valid() && Saved() == old(Saved()) && fresh(state.Owned() - old(state.Owned()))
      ensures Now() == Cleaned(c, Deposited(c, old(Now()), m).0, depth) && ok == Deposited(c, old(Now()), m).1
      ensures depth == 0 && c.eip1153 ==> transient.changeJournal == []
      ensures depth > 0 || !c.eip1153 ==> transient.changeJournal == old(transient.changeJournal)
    {
      ok := DepositCode(m);
      PostMessageCleanup(depth);
    }

    method ReduceSender(caller: Address, value: nat) returns (ok: bool)
      requires Valid()
      modifies state, journal, state.Owned()
      ensures Valid() && Saved() == old(Saved()) && fresh(state.Owned() - old(state.Owned()))
      ensures Now() == Reduce(old(Now()), caller, value).0 && ok == Reduce(old(Now()), caller, value).1
    {
      var account := GetAccount(caller);
      ok := ReduceSenderBalance(account, caller, value);
    }

    method CollidesAt(to: Address) returns (collides: bool)
      requires Valid()
      ensures Valid() && collides == Collides(AccountAt(Now().state, to))
    {
      var toAccount := GetAccount(to);
      collides := toAccount.nonce > 0 || toAccount.codeHash != KECCAK256_NULL || toAccount.storageRoot != KECCAK256_RLP;
    }

    /** Puts the new contract's account and gives it the value. */
    method StartContract(to: Address, value: nat) returns (added: bool)
      requires Valid()
      modifies state, journal, state.Owned()
      ensures Valid() && Saved() == old(Saved()) && fresh(state.Owned() - old(state.Owned()))
      ensures var r := Add(NewContract(c, old(Now()), to), to, value); Now() == r.0 && added == r.1
    {
      MakeContract(to);
      added := AddTo(to, value);
    }

    method MakeContract(to: Address)
      requires Valid()
      modifies state, journal, state.Owned()
      ensures Valid() && Saved() == old(Saved()) && fresh(state.Owned() - old(state.Owned()))
      ensures Now() == NewContract(c, old(Now()), to)
    {
      var toAccount := GetAccount(to);
      PutNew(to, toAccount);
    }

    method PutNew(to: Address, toAccount: Account)
      requires Valid() && Has(to, toAccount) && toAccount.State() == AccountAt(Now().state, to)
      modifies state, journal, toAccount
      ensures Valid() && Saved() == old(Saved()) && state.Owned() <= old(state.Owned()) + {toAccount}
      ensures Now() == NewContract(c, old(Now()), to)
    {
      PutAccount(to, toAccount);
      if c.spuriousDragon {
        SetNonce(to, toAccount, toAccount.nonce + 1);
      }
    }

    method PutContract(to: Address)
      requires Valid()
      modifies state, journal
      ensures Valid() && Saved() == old(Saved()) && fresh(state.Owned() - old(state.Owned()))
      ensures Now() == PutState(old(Now()), to, AccountAt(old(Now()).state, to))
    {
      var toAccount := GetAccount(to);
      PutAccount(to, toAccount);
    }

    /** What becomes of the code that the creation returned. */
    method DepositCode(m: Message) returns (ok: bool)
      requires Valid() && m.Create? && m.body.Code?
      modifies state, journal, state.Owned()
      ensures Valid() && Saved() == old(Saved()) && fresh(state.Owned() - old(state.Owned()))
      ensures Now() == Deposited(c, old(Now()), m).0 && ok == Deposited(c, old(Now()), m).1
    {
      if !m.body.ok || m.deposit.Refused? {
        return false;
      }
      if m.deposit.CannotPay? {
        if c.chainstart {
          PutContract(m.to);
        }
        return c.chainstart;
      }
      if m.deposit.code != NO_BYTES {
        state.PutCode(m.to, m.deposit.code);
      }
      ok := true;
    }

    // ----- the interpreter ------------------------------------------------------------------------

    method RunInterpreter(self: Address, depth: nat, ops: seq<Op>)
      requires Valid()
      modifies state, journal, transient, state.Owned()
      ensures Valid() && Saved() == old(Saved()) && fresh(state.Owned() - old(state.Owned()))
      ensures Now() == RunOps(c, old(Now()), self, depth, ops)
      ensures !c.eip1153 ==> transient.changeJournal == old(transient.changeJournal)
      decreases ops, 0
    {
      var pc := 0;
      while pc < |ops|
        invariant 0 <= pc <= |ops|
        invariant Valid() && Saved() == old(Saved()) && fresh(state.Owned() - old(state.Owned()))
        invariant Now() == RunOps(c, old(Now()), self, depth, ops[..pc])
        invariant !c.eip1153 ==> transient.changeJournal == old(transient.changeJournal)
      {
        assert ops[..pc + 1][..pc] == ops[..pc];
        Step(self, depth, ops[pc]);
        pc := pc + 1;
      }
      assert ops[..|ops|] == ops;
    }

    method Step(self: Address, depth: nat, op: Op)
      requires Valid()
      modifies state, journal, transient, state.Owned()
      ensures Valid() && Saved() == old(Saved()) && fresh(state.Owned() - old(state.Owned()))
      ensures Now() == RunOp(c, old(Now()), self, depth, op)
      ensures !c.eip1153 ==> transient.changeJournal == old(transient.changeJournal)
      decreases op
    {
      match op
      case WarmAddress(a) => journal.AddWarmedAddress(a);
      case WarmSlot(a, slot) => journal.AddWarmedStorage(a, slot);
      case AlwaysWarm(a, slot) => journal.AddAlwaysWarmSlot(a, slot);
      case Store(a, key, value) => state.PutStorage(a, key, value);
      case StoreTransient(a, key, value) =>
        if c.eip1153 {
          var ok := transient.Put(a, key, value);
        }
      case Send(m) => BaseCall(self, depth, m);
    }

    /** The interpreter's own checks, before the message is sent. */
    method BaseCall(self: Address, depth: nat, m: Message)
      requires Valid()
      modifies state, journal, transient, state.Owned()
      ensures Valid() && Saved() == old(Saved()) && fresh(state.Owned() - old(state.Owned()))
      ensures Now() == RunOp(c, old(Now()), self, depth, Send(m))
      ensures !c.eip1153 ==> transient.changeJournal == old(transient.changeJournal)
      decreases m, 4
    {
      var refused := CannotSend(self, depth, m);
      if refused {
        return;
      }
      BeforeSending(self, m);
      if m.Create? && m.initTooLarge {
        return;
      }
      NestedEnds(c, old(Now()), self, m, depth);
      var ok, thrown := RunCall(self, m, depth + 1);
    }

    method CannotSend(self: Address, depth: nat, m: Message) returns (refused: bool)
      requires Valid()
      ensures Valid() && refused == Refuses(c, Now(), self, depth, m)
    {
      var contract := GetAccount(self);
      refused := depth >= c.stackLimit || (!(m.Call? && m.delegate) && contract.balance < m.value)
        || (m.Create? && contract.nonce >= MAX_UINT64);
    }

    method BeforeSending(self: Address, m: Message)
      requires Valid()
      modifies state, journal, state.Owned()
      ensures Valid() && Saved() == old(Saved()) && fresh(state.Owned() - old(state.Owned()))
      ensures Now() == Sending(old(Now()), self, m)
    {
      if m.Create? {
        BumpNonce(self);
      }
    }

    method BumpNonce(address: Address)
      requires Valid()
      modifies state, journal, state.Owned()
      ensures Valid() && Saved() == old(Saved()) && fresh(state.Owned() - old(state.Owned()))
      ensures var s := AccountAt(old(Now()).state, address);
              Now() == PutState(old(Now()), address, s.(nonce := s.nonce + 1))
    {
      var account := GetAccount(address);
      WriteNonce(address, account, account.nonce + 1);
    }

    method WriteNonce(address: Address, account: Account, nonce: int)
      requires Valid() && Has(address, account)
      modifies state, journal, account
      ensures Valid() && Saved() == old(Saved()) && state.Owned() <= old(state.Owned()) + {account}
      ensures Now() == PutState(old(Now()), address, old(account.State()).(nonce := nonce))
    {
      SetNonce(address, account, nonce);
      PutAccount(address, account);
      PutAfterWrite(old(Now()), address, account.State());
    }

    method BeforeCheckpoint(caller: Address, m: Message, depth: nat)
      requires Valid()
      modifies state, journal, state.Owned()
      ensures Valid() && Saved() == old(Saved()) && fresh(state.Owned() - old(state.Owned()))
      ensures Now() == Prelude(c, old(Now()), caller, m, depth)
    {
      if depth == 0 {
        BumpNonce(caller);
      }
      if m.Create? && c.eip2929 {
        journal.AddWarmedAddress(m.to);
      }
    }

    /** Commits or reverts, unless the frame was left by an exception. */
    method EndFrame(ok: bool, thrown: bool, ghost s: Snapshots, ghost start: World, ghost index: int)
      requires Valid() && Saved() == Opened(c, s, start, index)
      requires !c.eip1153 ==> transient.Now() == start.transient
      modifies state, journal, transient
      ensures Valid() && state.Owned() == old(state.Owned())
      ensures Now() == if thrown || ok then old(Now()) else Undone(start, old(Now()))
      ensures if thrown then OneMore(c, s, Saved(), start) else Saved() == s
      ensures |transient.changeJournal| <= |old(transient.changeJournal)|
      ensures thrown || ok || !c.eip1153 ==> transient.changeJournal == old(transient.changeJournal)
    {
      if thrown {
        return;
      }
      if ok {
        Commit(s, start, index);
      } else {
        Revert(s, start, index);
      }
    }
  }

  /** The world after a write to an account object: it shows where the object is held. */
  ghost function WithObject(w: World, address: Address, s: AccountState): World {
    if address in w.state.accounts then w.(state := SetAccount(w.state, address, s)) else w
  }

  lemma {:induction false} PutAfterWrite(w: World, address: Address, s: AccountState)
    ensures PutState(WithObject(w, address, s), address, s) == PutState(w, address, s)
  {
    SetTwice(w.state, address, s, s);
  }

  lemma {:induction false} AddedAfterWrite(w: World, to: Address, value: int, s: AccountState)
    requires var account := AccountAt(w.state, to);
             account.balance + value <= MAX_INTEGER && s == account.(balance := account.balance + value)
    ensures Add(w, to, value) == (PutState(WithObject(w, to, s), to, s), true)
  {
    PutAfterWrite(w, to, s);
  }
}
