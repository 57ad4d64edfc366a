/**
 * Accounts and the stack of state maps (packages/utils/src/account.ts,
 * packages/state-manager/src/simpleStateManager.ts).
 */
module StateManager {
  import Bytes

  datatype Address = Address(value: int)

  type Hash = int

  /** A byte string as a stored value. */
  datatype Data = Data(bytes: Bytes.Bytes)

  const NO_BYTES := Data([])

  const KECCAK256_NULL: Hash := 0xc5d2460186f7233c927e7db2dcc703c0e500b653ca82273b7bfad8045d85a470
  const KECCAK256_RLP: Hash := 0x56e81f171bcc55a6ff8345e692c0f86e5b48e01b996cadc001622fb5e363b421

  datatype AccountState = AccountState(nonce: int, balance: int, storageRoot: Hash, codeHash: Hash)

  const EMPTY_ACCOUNT := AccountState(0, 0, KECCAK256_RLP, KECCAK256_NULL)

  /** An account is an object that its holders write in place. */
  class Account {
    var nonce: int
    var balance: int
    var storageRoot: Hash
    var codeHash: Hash

    function State(): AccountState
      reads this
    {
      AccountState(nonce, balance, storageRoot, codeHash)
    }

    constructor ()
      ensures State() == EMPTY_ACCOUNT
    {
      nonce, balance, storageRoot, codeHash := 0, 0, KECCAK256_RLP, KECCAK256_NULL;
    }

    constructor CopyOf(account: Account)
      ensures State() == account.State()
    {
      nonce, balance, storageRoot, codeHash := account.nonce, account.balance, account.storageRoot, account.codeHash;
    }
  }

  type AccountMap = map<Address, Account?>
  type StorageKey = (Address, Data)

  /** The state that one level of the stack stands for; an undefined account is as good as none. */
  datatype Level = Level(accounts: map<Address, AccountState>, code: map<Address, Data>, storage: map<StorageKey, Data>)

  function AccountAt(l: Level, address: Address): AccountState {
    if address in l.accounts then l.accounts[address] else EMPTY_ACCOUNT
  }

  function SetAccount(l: Level, address: Address, state: AccountState): Level {
    l.(accounts := l.accounts[address := state])
  }

  lemma {:induction false} SetTwice(l: Level, address: Address, first: AccountState, then': AccountState)
    ensures SetAccount(SetAccount(l, address, first), address, then') == SetAccount(l, address, then')
  {
    var m := l.accounts;
    assert m[address := first][address := then'] == m[address := then'];
  }

  lemma {:induction false} SetSame(l: Level, address: Address)
    requires address in l.accounts
    ensures SetAccount(l, address, l.accounts[address]) == l
  {
    var m := l.accounts;
    assert m[address := m[address]] == m;
  }

  function WithCode(l: Level, address: Address, value: Data, codeHash: Hash): Level {
    SetAccount(l.(code := l.code[address := value]), address, AccountAt(l, address).(codeHash := codeHash))
  }

  // ----- the stack and what it stands for ----------------------------------------------------

  /** Where an account object is held, at one level of the stack and under one address, and its state. */
  datatype Held = Held(level: int, address: Address, state: AccountState)

  /** The account objects in the maps, the state now, and the states that the levels below the top stand for. */
  datatype View = View(held: map<Account, Held>, top: Level, saved: seq<Level>)

  /** The maps of a stack, level by level. */
  datatype Stacks = Stacks(accounts: seq<AccountMap>, code: seq<map<Address, Data>>,
                           storage: seq<map<StorageKey, Data>>)

  /** Every object in the map is held there and nowhere else, and `v` has their states. */
  ghost predicate HeldAt(m: AccountMap, i: int, v: map<Address, AccountState>, held: map<Account, Held>) {
    && (forall a :: a in v <==> a in m && m[a] != null)
    && (forall a | a in v :: m[a] in held && held[m[a]] == Held(i, a, v[a]))
  }

  ghost predicate LevelIs(s: Stacks, i: int, l: Level, held: map<Account, Held>) {
    && 0 <= i < |s.accounts| && i < |s.code| && i < |s.storage|
    && HeldAt(s.accounts[i], i, l.accounts, held) && l.code == s.code[i] && l.storage == s.storage[i]
  }

  /** The first `n` levels hold their own objects and stand for the saved states. */
  ghost predicate Below(s: Stacks, held: map<Account, Held>, saved: seq<Level>, n: nat) {
    n == 0 || (n <= |saved| && Below(s, held, saved, n - 1) && LevelIs(s, n - 1, saved[n - 1], held))
  }

  ghost predicate StackOk(s: Stacks, v: View) {
    && |s.accounts| == |s.code| == |s.storage| == |v.saved| + 1
    && LevelIs(s, |v.saved|, v.top, v.held) && Below(s, v.held, v.saved, |v.saved|)
  }

  /** The objects held at one level alone decide what it stands for. */
  lemma {:induction false} HeldKept(m: AccountMap, i: int, v: map<Address, AccountState>, held: map<Account, Held>,
                                    held': map<Account, Held>)
    requires HeldAt(m, i, v, held)
    requires forall o | o in held && held[o].level == i :: o in held' && held'[o] == held[o]
    ensures HeldAt(m, i, v, held')
  {
  }

  /** The first `n` levels are the same in both stacks. */
  ghost predicate SameBelow(s: Stacks, s': Stacks, n: nat) {
    && n <= |s.accounts| && n <= |s.code| && n <= |s.storage|
    && n <= |s'.accounts| && n <= |s'.code| && n <= |s'.storage|
    && (forall i | 0 <= i < n :: s'.accounts[i] == s.accounts[i])
    && (forall i | 0 <= i < n :: s'.code[i] == s.code[i])
    && (forall i | 0 <= i < n :: s'.storage[i] == s.storage[i])
  }

  lemma {:induction false} BelowKept(s: Stacks, held: map<Account, Held>, saved: seq<Level>, s': Stacks,
                                     held': map<Account, Held>, saved': seq<Level>, n: nat)
    requires Below(s, held, saved, n) && SameBelow(s, s', n)
    requires n <= |saved'| && n <= |saved| && forall i | 0 <= i < n :: saved'[i] == saved[i]
    requires forall o | o in held && held[o].level < n :: o in held' && held'[o] == held[o]
    ensures Below(s', held', saved', n)
  {
    if n > 0 {
      BelowKept(s, held, saved, s', held', saved', n - 1);
      HeldKept(s.accounts[n - 1], n - 1, saved[n - 1].accounts, held, held');
    }
  }

  lemma {:induction false} HeldPut(m: AccountMap, i: int, v: map<Address, AccountState>, held: map<Account, Held>,
                                   address: Address, account: Account, state: AccountState, m': AccountMap)
    requires HeldAt(m, i, v, held) && m' == m[address := account]
    requires account in held ==> held[account].level == i && held[account].address == address
    ensures HeldAt(m', i, v[address := state], held[account := Held(i, address, state)])
  {
  }

  ghost function Put(v: View, address: Address, account: Account, state: AccountState): View {
    View(v.held[account := Held(|v.saved|, address, state)], SetAccount(v.top, address, state), v.saved)
  }

  lemma {:induction false} PutTwice(v: View, address: Address, account: Account, first: AccountState,
                                    then': AccountState)
    ensures Put(Put(v, address, account, first), address, account, then') == Put(v, address, account, then')
  {
    SetTwice(v.top, address, first, then');
    var h := Held(|v.saved|, address, first);
    assert v.held[account := h][account := h.(state := then')] == v.held[account := h.(state := then')];
  }

  /** Putting an object into the top map, or changing the one that is there. */
  lemma {:induction false} PutOk(s: Stacks, v: View, s': Stacks, address: Address, account: Account,
                                 state: AccountState)
    requires StackOk(s, v) && SameBelow(s, s', |v.saved|)
    requires |s'.accounts| == |s.accounts| && s'.code == s.code && s'.storage == s.storage
    requires s'.accounts[|v.saved|] == s.accounts[|v.saved|][address := account]
    requires account in v.held ==> v.held[account].level == |v.saved| && v.held[account].address == address
    ensures StackOk(s', Put(v, address, account, state))
  {
    var n := |v.saved|;
    HeldPut(s.accounts[n], n, v.top.accounts, v.held, address, account, state, s'.accounts[n]);
    BelowKept(s, v.held, v.saved, s', Put(v, address, account, state).held, v.saved, n);
  }

  /** Any other change to the top level. */
  lemma {:induction false} TopOk(s: Stacks, v: View, s': Stacks, top: Level)
    requires StackOk(s, v) && LevelIs(s', |v.saved|, top, v.held) && SameBelow(s, s', |v.saved|)
    requires |s'.accounts| == |s'.code| == |s'.storage| == |v.saved| + 1
    ensures StackOk(s', v.(top := top))
  {
    BelowKept(s, v.held, v.saved, s', v.held, v.saved, |v.saved|);
  }

  ghost function Pushed(v: View, held: map<Account, Held>): View {
    View(held, v.top, v.saved + [v.top])
  }

  lemma {:induction false} PushOk(s: Stacks, v: View, s': Stacks, held: map<Account, Held>)
    requires StackOk(s, v) && SameBelow(s, s', |v.saved| + 1) && LevelIs(s', |v.saved| + 1, v.top, held)
    requires |s'.accounts| == |s'.code| == |s'.storage| == |v.saved| + 2
    requires forall o | o in v.held :: o in held && held[o] == v.held[o]
    ensures StackOk(s', Pushed(v, held))
  {
    var n := |v.saved|;
    BelowKept(s, v.held, v.saved, s', held, v.saved + [v.top], n);
    HeldKept(s.accounts[n], n, v.top.accounts, v.held, held);
    assert LevelIs(s', n, (v.saved + [v.top])[n], held);
  }

  ghost function Lowered(held: map<Account, Held>, i: int): map<Account, Held> {
    map o | o in held :: if held[o].level == i then held[o].(level := i - 1) else held[o]
  }

  lemma {:induction false} HeldDown(m: AccountMap, i: int, v: map<Address, AccountState>, held: map<Account, Held>)
    requires HeldAt(m, i, v, held)
    ensures HeldAt(m, i - 1, v, Lowered(held, i))
  {
  }

  ghost function Committed(v: View): View
    requires v.saved != []
  {
    View(Lowered(v.held, |v.saved|), v.top, v.saved[..|v.saved| - 1])
  }

  lemma {:induction false} CommitOk(s: Stacks, v: View, s': Stacks)
    requires StackOk(s, v) && v.saved != [] && SameBelow(s, s', |v.saved| - 1)
    requires |s'.accounts| == |s'.code| == |s'.storage| == |v.saved|
    requires var n := |v.saved|;
             s'.accounts[n - 1] == s.accounts[n] && s'.code[n - 1] == s.code[n] && s'.storage[n - 1] == s.storage[n]
    ensures StackOk(s', Committed(v))
  {
    var n := |v.saved|;
    HeldDown(s.accounts[n], n, v.top.accounts, v.held);
    BelowKept(s, v.held, v.saved, s', Lowered(v.held, n), v.saved[..n - 1], n - 1);
  }

  ghost function Reverted(v: View): View
    requires v.saved != []
  {
    View(v.held, v.saved[|v.saved| - 1], v.saved[..|v.saved| - 1])
  }

  lemma {:induction false} RevertOk(s: Stacks, v: View, s': Stacks)
    requires StackOk(s, v) && v.saved != [] && SameBelow(s, s', |v.saved|)
    requires |s'.accounts| == |s'.code| == |s'.storage| == |v.saved|
    ensures StackOk(s', Reverted(v))
  {
    var n := |v.saved|;
    BelowKept(s, v.held, v.saved, s', v.held, v.saved[..n - 1], n - 1);
  }

  class SimpleStateManager {
    const keccak256: Data -> Hash

    var accountStack: seq<AccountMap>
    var codeStack: seq<map<Address, Data>>
    var storageStack: seq<map<StorageKey, Data>>
    ghost var view: View

    ghost function All(): Stacks
      reads this
    {
      Stacks(accountStack, codeStack, storageStack)
    }

    ghost predicate Consistent()
      reads this, view.held.Keys
    {
      && StackOk(All(), view)
      && forall o | o in view.held :: view.held[o].state == o.State()
    }

    /**
     * The same, but folded away from those who only need to know that it holds: see `Unfold`. The verifier opens
     * a recursive predicate twice at the most, so of three layers one stays shut; a length before the three keeps
     * the number from being a literal, of which it would open every layer.
     */
    ghost predicate Valid()
      reads this, view.held.Keys
    {
      Folded(|accountStack| + 3)
    }

    ghost predicate Folded(layers: nat)
      reads this, view.held.Keys
    {
      if layers == 0 then Consistent() else Folded(layers - 1)
    }

    lemma {:induction false} Unfold()
      ensures Valid() <==> Consistent()
    {
      UnfoldLayers(|accountStack| + 3);
    }

    lemma {:induction false} UnfoldLayers(layers: nat)
      ensures Folded(layers) <==> Consistent()
    {
      if layers > 0 {
        UnfoldLayers(layers - 1);
      }
    }

    ghost function Owned(): set<Account>
      reads this
    {
      view.held.Keys
    }

    function TopAccountStack(): AccountMap
      requires accountStack != []
      reads this
    {
      accountStack[|accountStack| - 1]
    }

    /** The object is the one the top map holds for the address, or a new one where it holds none. */
    ghost predicate Holds(address: Address, account: Account)
      reads this
    {
      if address in view.top.accounts then
        accountStack != [] && address in TopAccountStack() && TopAccountStack()[address] == account
      else account !in view.held
    }

    constructor (keccak256: Data -> Hash)
      ensures Valid() && view == View(map[], Level(map[], map[], map[]), [])
      ensures this.keccak256 == keccak256
    {
      this.keccak256 := keccak256;
      accountStack, codeStack, storageStack := [map[]], [map[]], [map[]];
      view := View(map[], Level(map[], map[], map[]), []);
      new;
      Unfold();
    }

    // ----- checkpoints ------------------------------------------------------------------------

    /** Copies of all accounts, each a new object. */
    static method CopyAccounts(m: AccountMap) returns (c: AccountMap, ghost where: map<Account, Address>)
      ensures c.Keys == m.Keys
      ensures forall a | a in m :: (m[a] == null <==> c[a] == null) && (c[a] != null ==> c[a].State() == m[a].State())
      ensures forall a | a in c && c[a] != null :: c[a] in where && where[c[a]] == a
      ensures forall o | o in where :: fresh(o)
    {
      c, where := m, map[];
      var todo := m.Keys;
      while todo != {}
        invariant todo <= m.Keys == c.Keys
        invariant forall a | a in todo :: c[a] == m[a]
        invariant forall a | a in m && a !in todo ::
                    (m[a] == null <==> c[a] == null) && (c[a] != null ==> c[a].State() == m[a].State())
        invariant forall a | a in c && a !in todo && c[a] != null :: c[a] in where && where[c[a]] == a
        invariant forall o | o in where :: fresh(o)
      {
        var a :| a in todo;
        if m[a] != null {
          var copy := new Account.CopyOf(m[a]);
          c, where := c[a := copy], where[copy := a];
        }
        todo := todo - {a};
      }
    }

    /** A level more, with copies of the accounts and of the maps. */
    method Checkpoint()
      requires Valid()
      modifies this
      ensures Valid() && fresh(Owned() - old(Owned())) && Owned() >= old(Owned())
      ensures view.top == old(view).top && view.saved == old(view).saved + [old(view).top]
    {
      Unfold();
      ghost var where;
      var newTop;
      newTop, where := CopyAccounts(TopAccountStack());
      Push(newTop, view.held + (map o | o in where :: Held(|accountStack|, where[o], o.State())));
      Unfold();
    }

    method Push(newTop: AccountMap, ghost held: map<Account, Held>)
      requires Valid() && HeldAt(newTop, |accountStack|, view.top.accounts, held)
      requires forall o | o in held :: held[o].state == o.State()
      requires forall o | o in view.held :: o in held && held[o] == view.held[o]
      modifies this
      ensures Valid() && view == Pushed(old(view), held)
    {
      Unfold();
      var n := |accountStack| - 1;
      accountStack := accountStack + [newTop];
      codeStack := codeStack + [codeStack[n]];
      storageStack := storageStack + [storageStack[n]];
      PushOk(old(All()), view, All(), held);
      view := Pushed(view, held);
      Unfold();
    }

    /** Drops the level below the top. */
    method Commit()
      requires Valid() && view.saved != []
      modifies this
      ensures Valid() && view == Committed(old(view))
    {
      Unfold();
      var n := |accountStack|;
      accountStack := accountStack[..n - 2] + accountStack[n - 1..];
      codeStack := codeStack[..n - 2] + codeStack[n - 1..];
      storageStack := storageStack[..n - 2] + storageStack[n - 1..];
      CommitOk(old(All()), view, All());
      view := Committed(view);
      Unfold();
    }

    /** Drops the top level. */
    method Revert()
      requires Valid() && view.saved != []
      modifies this
      ensures Valid() && view == Reverted(old(view))
    {
      Unfold();
      var n := |accountStack| - 1;
      accountStack := accountStack[..n];
      codeStack := codeStack[..n];
      storageStack := storageStack[..n];
      RevertOk(old(All()), view, All());
      view := Reverted(view);
      Unfold();
    }

    // ----- accounts ------------------------------------------------------------------------------

    method GetAccount(address: Address) returns (account: Account?)
      requires Valid()
      ensures account == null <==> address !in view.top.accounts
      ensures account != null ==>
                account in view.held && Holds(address, account) && account.State() == view.top.accounts[address]
    {
      Unfold();
      var m := TopAccountStack();
      account := if address in m then m[address] else null;
    }

    /** The account, or a new empty one. */
    method AccountOrNew(address: Address) returns (account: Account)
      requires Valid()
      ensures Valid() && Holds(address, account) && account.State() == AccountAt(view.top, address)
      ensures account in view.held || fresh(account)
    {
      Unfold();
      var found := GetAccount(address);
      if found == null {
        account := new Account();
      } else {
        account := found;
      }
      Unfold();
    }

    /** The ghost side of a write to an account object in the top map. */
    ghost method Written(address: Address, account: Account)
      requires StackOk(All(), view) && Holds(address, account)
      requires forall o | o in view.held && o != account :: view.held[o].state == o.State()
      modifies this`view
      ensures Valid() && Holds(address, account) && Owned() == old(Owned())
      ensures view == if address in old(view).top.accounts then Put(old(view), address, account, account.State())
                else old(view)
    {
      if address in view.top.accounts {
        PutOk(All(), view, All(), address, account, account.State());
        view := Put(view, address, account, account.State());
      }
      Unfold();
    }

    /** Writing an account object in place reaches the top map only. */
    method SetBalance(ghost address: Address, account: Account, balance: int)
      requires Valid() && Holds(address, account)
      modifies this`view, account`balance
      ensures Valid() && Holds(address, account) && Owned() == old(Owned())
      ensures account.State() == old(account.State()).(balance := balance)
      ensures view == if address in old(view).top.accounts then Put(old(view), address, account, account.State())
                else old(view)
    {
      Unfold();
      account.balance := balance;
      Written(address, account);
      Unfold();
    }

    method SetNonce(ghost address: Address, account: Account, nonce: int)
      requires Valid() && Holds(address, account)
      modifies this`view, account`nonce
      ensures Valid() && Holds(address, account) && Owned() == old(Owned())
      ensures account.State() == old(account.State()).(nonce := nonce)
      ensures view == if address in old(view).top.accounts then Put(old(view), address, account, account.State())
                else old(view)
    {
      Unfold();
      account.nonce := nonce;
      Written(address, account);
      Unfold();
    }

    method SetCodeHash(ghost address: Address, account: Account, codeHash: Hash)
      requires Valid() && Holds(address, account)
      modifies this`view, account`codeHash
      ensures Valid() && Holds(address, account) && Owned() == old(Owned())
      ensures account.State() == old(account.State()).(codeHash := codeHash)
      ensures view == if address in old(view).top.accounts then Put(old(view), address, account, account.State())
                else old(view)
    {
      Unfold();
      account.codeHash := codeHash;
      Written(address, account);
      Unfold();
    }

    method PutAccount(address: Address, account: Account)
      requires Valid() && Holds(address, account)
      modifies this
      ensures Valid() && Holds(address, account) && view == Put(old(view), address, account, account.State())
    {
      Unfold();
      var n := |accountStack| - 1;
      var newTop: AccountMap := TopAccountStack()[address := account];
      accountStack := accountStack[n := newTop];
      PutOk(old(All()), view, All(), address, account, account.State());
      view := Put(view, address, account, account.State());
      Unfold();
    }

    method DeleteAccount(address: Address)
      requires Valid()
      modifies this
      ensures Valid() && view == old(view).(top := old(view).top.(accounts := old(view).top.accounts - {address}))
    {
      Unfold();
      var n := |accountStack| - 1;
      var newTop: AccountMap := TopAccountStack()[address := null];
      accountStack := accountStack[n := newTop];
      SetTop(view.top.(accounts := view.top.accounts - {address}), old(All()));
      Unfold();
    }

    ghost method SetTop(top: Level, s: Stacks)
      requires StackOk(s, view) && LevelIs(All(), |view.saved|, top, view.held) && SameBelow(s, All(), |view.saved|)
      requires |accountStack| == |codeStack| == |storageStack| == |view.saved| + 1
      requires forall o | o in view.held :: view.held[o].state == o.State()
      modifies this`view
      ensures Valid() && view == old(view).(top := top)
    {
      TopOk(s, view, All(), top);
      view := view.(top := top);
      Unfold();
    }

    // ----- code and storage ------------------------------------------------------------------

    method GetCode(address: Address) returns (code: Data)
      requires Valid()
      ensures code == if address in view.top.code then view.top.code[address] else NO_BYTES
    {
      Unfold();
      var m := codeStack[|codeStack| - 1];
      code := if address in m then m[address] else NO_BYTES;
    }

    /** Sets the code and, on the account, its hash; an account that was not there is made. */
    method PutCode(address: Address, value: Data)
      requires Valid()
      modifies this, Owned()
      ensures Valid() && fresh(Owned() - old(Owned())) && Owned() >= old(Owned())
      ensures view.saved == old(view).saved && view.top == WithCode(old(view).top, address, value, keccak256(value))
    {
      Unfold();
      SetCode(address, value);
      ghost var l := view.top;
      MakeAccount(address);
      ModifyCodeHash(address, keccak256(value));
      SetTwice(l, address, AccountAt(l, address), AccountAt(l, address).(codeHash := keccak256(value)));
      Unfold();
    }

    method SetCode(address: Address, value: Data)
      requires Valid()
      modifies this
      ensures Valid() && view == old(view).(top := old(view).top.(code := old(view).top.code[address := value]))
    {
      Unfold();
      var n := |codeStack| - 1;
      var newTop: map<Address, Data> := codeStack[n][address := value];
      codeStack := codeStack[n := newTop];
      SetTop(view.top.(code := newTop), old(All()));
      Unfold();
    }

    method MakeAccount(address: Address)
      requires Valid()
      modifies this
      ensures Valid() && fresh(Owned() - old(Owned())) && Owned() >= old(Owned())
      ensures view.saved == old(view).saved
      ensures view.top == SetAccount(old(view).top, address, AccountAt(old(view).top, address))
    {
      Unfold();
      var account := GetAccount(address);
      if account == null {
        account := new Account();
        PutAccount(address, account);
      } else {
        SetSame(view.top, address);
      }
      Unfold();
    }

    /** The code hash of an account, which is made if it is not there. */
    method ModifyCodeHash(address: Address, codeHash: Hash)
      requires Valid()
      modifies this, Owned()
      ensures Valid() && fresh(Owned() - old(Owned())) && Owned() >= old(Owned())
      ensures view.saved == old(view).saved
      ensures view.top == SetAccount(old(view).top, address, AccountAt(old(view).top, address).(codeHash := codeHash))
    {
      Unfold();
      var account := AccountOrNew(address);
      SetCodeHash(address, account, codeHash);
      PutAccount(address, account);
      PutTwice(old(view), address, account, account.State(), account.State());
      assert view == Put(old(view), address, account, account.State());
      Unfold();
    }

    method GetStorage(address: Address, key: Data) returns (value: Data)
      requires Valid()
      ensures value == if (address, key) in view.top.storage then view.top.storage[(address, key)] else NO_BYTES
    {
      Unfold();
      var m := storageStack[|storageStack| - 1];
      value := if (address, key) in m then m[(address, key)] else NO_BYTES;
    }

    method PutStorage(address: Address, key: Data, value: Data)
      requires Valid()
      modifies this
      ensures Valid()
      ensures view == old(view).(top := old(view).top.(storage := old(view).top.storage[(address, key) := value]))
    {
      Unfold();
      var n := |storageStack| - 1;
      var newTop: map<StorageKey, Data> := storageStack[n][(address, key) := value];
      storageStack := storageStack[n := newTop];
      SetTop(view.top.(storage := newTop), old(All()));
      Unfold();
    }
  }
}
