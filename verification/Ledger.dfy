/** The local ledger of `zyphra/src/ledger.rs`: its operations as state transformers and the
    laws of sequential runs. */
module LedgerSpec {
  import opened Common

  const ADDRESS_LEN := 20

  type Address = a: seq<byte> | |a| == ADDRESS_LEN witness seq(ADDRESS_LEN, _ => 0)

  datatype AccountState = AccountState(balance: u64, nonce: u64)

  type Accounts = map<Address, AccountState>

  datatype LedgerError =
    | InsufficientBalance(have: u64, need: u64)
    | InvalidNonce(expected: u64, got: u64)
    | AddressNotFound(address: Address)
    | SelfTransfer
    | ZeroValue

  /** One call of a mutating ledger method. */
  datatype Op =
    | Register(address: Address, initial: u64)
    | Credit(address: Address, amount: u64)
    | Transfer(from: Address, to: Address, amount: u64, nonce: u64)

  datatype Outcome =
    | Registered(created: bool)
    | Credited
    | Accepted
    | Rejected(error: LedgerError)

  /** Add to an entry, creating it with nonce 0 when it is absent. */
  function AddTo(accounts: Accounts, a: Address, amount: u64): Accounts {
    if a in accounts
    then accounts[a := accounts[a].(balance := WrapAdd(accounts[a].balance, amount))]
    else accounts[a := AccountState(amount, 0)]
  }

  /** The checks `transfer` makes before it takes any lock. */
  function PreCheck(op: Op): Option<LedgerError>
    requires op.Transfer?
  {
    if op.from == op.to then Some(SelfTransfer)
    else if op.amount == 0 then Some(ZeroValue)
    else None
  }

  /** The checks `transfer` makes on the sender's entry. */
  function SenderCheck(accounts: Accounts, op: Op): Option<LedgerError>
    requires op.Transfer?
  {
    if op.from !in accounts then Some(AddressNotFound(op.from))
    else if accounts[op.from].nonce != op.nonce then
      Some(InvalidNonce(accounts[op.from].nonce, op.nonce))
    else if accounts[op.from].balance < op.amount then
      Some(InsufficientBalance(accounts[op.from].balance, op.amount))
    else None
  }

  function Debit(accounts: Accounts, op: Op): Accounts
    requires op.Transfer? && op.from in accounts && op.amount <= accounts[op.from].balance
  {
    var sender := accounts[op.from];
    accounts[op.from := AccountState(sender.balance - op.amount, WrapAdd(sender.nonce, 1))]
  }

  /** The whole effect of one operation when nothing runs beside it. */
  function Apply(op: Op, accounts: Accounts): (Accounts, Outcome) {
    match op
    case Register(a, initial) =>
      if a in accounts then (accounts, Registered(false))
      else (accounts[a := AccountState(initial, 0)], Registered(true))
    case Credit(a, amount) =>
      (AddTo(accounts, a, amount), Credited)
    case Transfer(_, to, amount, _) =>
      if PreCheck(op).Some? then (accounts, Rejected(PreCheck(op).value))
      else if SenderCheck(accounts, op).Some? then (accounts, Rejected(SenderCheck(accounts, op).value))
      else (AddTo(Debit(accounts, op), to, amount), Accepted)
  }

  /** Which error a refused transfer gets: its checks in their order, each with what it found. */
  lemma RefusalExact(accounts: Accounts, from: Address, to: Address, amount: u64, nonce: u64)
    ensures var r := Apply(Transfer(from, to, amount, nonce), accounts).1;
            var passed := from != to && 0 < amount;
            && (r == Rejected(SelfTransfer) <==> from == to)
            && (r == Rejected(ZeroValue) <==> from != to && amount == 0)
            && (r == Rejected(AddressNotFound(from)) <==> passed && from !in accounts)
            && (passed && from in accounts ==>
                  var sender := accounts[from];
                  && (r == Rejected(InvalidNonce(sender.nonce, nonce)) <==> sender.nonce != nonce)
                  && (r == Rejected(InsufficientBalance(sender.balance, amount)) <==>
                        sender.nonce == nonce && sender.balance < amount)
                  && (r == Accepted <==> sender.nonce == nonce && amount <= sender.balance))
  {
  }

  /** A transfer that was accepted is refused for its nonce when it is done again at once, whatever
      is left in the account. */
  lemma ReplayRefused(accounts: Accounts, op: Op)
    requires op.Transfer? && Apply(op, accounts).1 == Accepted
    ensures var after := Apply(op, accounts).0;
            Apply(op, after) == (after, Rejected(InvalidNonce(WrapAdd(op.nonce, 1), op.nonce)))
  {
    var after := Apply(op, accounts).0;
    assert after[op.from].nonce == WrapAdd(op.nonce, 1) != op.nonce;
  }

  /** An operation with the thread that ran it and the result it was given. */
  datatype Event = Event(tid: nat, op: Op, outcome: Outcome)

  /** The accounts after the logged operations ran one after the other. */
  function After(start: Accounts, log: seq<Event>): Accounts {
    if log == [] then start
    else Apply(log[|log| - 1].op, After(start, log[..|log| - 1])).0
  }

  /** Every logged result is the one the sequential run gives. */
  predicate Legal(start: Accounts, log: seq<Event>) {
    log == [] ||
    (var n := |log| - 1;
     Legal(start, log[..n]) && log[n].outcome == Apply(log[n].op, After(start, log[..n])).1)
  }

  ghost function Balances(accounts: Accounts): map<Address, int> {
    map a | a in accounts :: accounts[a].balance
  }

  /** The sum of all balances. */
  ghost function Total(accounts: Accounts): int {
    SumMap(Balances(accounts))
  }

  /** What one operation mints: a registration that created the account, or a credit. */
  function Mint(e: Event): nat {
    match e.op
    case Register(_, initial) => if e.outcome == Registered(true) then initial else 0
    case Credit(_, amount) => amount
    case Transfer(_, _, _, _) => 0
  }

  function Minted(log: seq<Event>): nat {
    if log == [] then 0 else Minted(log[..|log| - 1]) + Mint(log[|log| - 1])
  }

  lemma TotalPut(accounts: Accounts, a: Address, v: AccountState)
    ensures Total(accounts[a := v]) ==
            Total(accounts) - (if a in accounts then accounts[a].balance else 0) + v.balance
  {
    assert Balances(accounts[a := v]) == Balances(accounts)[a := v.balance];
    SumMapUpdate(Balances(accounts), a, v.balance);
  }

  lemma BalanceBound(accounts: Accounts)
    ensures 0 <= Total(accounts)
    ensures forall a :: a in accounts ==> accounts[a].balance <= Total(accounts)
  {
    SumMapNonNegative(Balances(accounts));
    forall a | a in accounts ensures accounts[a].balance <= Total(accounts) {
      SumMapBound(Balances(accounts), a);
    }
  }

  /** Adding to this entry does not fit in a `u64`. */
  predicate Overflows(accounts: Accounts, a: Address, amount: u64) {
    a in accounts && U64_MODULUS <= accounts[a].balance + amount
  }

  /** The operation makes an addition that wraps: a credit or an accepted transfer to an entry
      that is too full for it. */
  predicate WrapsAt(op: Op, accounts: Accounts) {
    match op
    case Register(_, _) => false
    case Credit(a, amount) => Overflows(accounts, a, amount)
    case Transfer(_, to, amount, _) => Apply(op, accounts).1 == Accepted && Overflows(accounts, to, amount)
  }

  /** How many operations of a sequential run wrap. */
  function Wraps(start: Accounts, log: seq<Event>): nat {
    if log == [] then 0
    else
      var n := |log| - 1;
      Wraps(start, log[..n]) + if WrapsAt(log[n].op, After(start, log[..n])) then 1 else 0
  }

  lemma AddToTotal(accounts: Accounts, a: Address, amount: u64)
    ensures Total(AddTo(accounts, a, amount)) ==
            Total(accounts) + amount - if Overflows(accounts, a, amount) then U64_MODULUS else 0
  {
    TotalPut(accounts, a, AddTo(accounts, a, amount)[a]);
  }

  lemma DebitTotal(accounts: Accounts, op: Op)
    requires op.Transfer? && op.from in accounts && op.amount <= accounts[op.from].balance
    ensures Total(Debit(accounts, op)) == Total(accounts) - op.amount
  {
    TotalPut(accounts, op.from, Debit(accounts, op)[op.from]);
  }

  /** One whole operation changes the total by exactly what it mints, less 2^64 if it wraps. */
  lemma ApplyTotal(op: Op, accounts: Accounts, tid: nat)
    ensures Total(Apply(op, accounts).0) ==
            Total(accounts) + Mint(Event(tid, op, Apply(op, accounts).1)) -
            if WrapsAt(op, accounts) then U64_MODULUS else 0
  {
    hide Total;
    match op
    case Register(a, initial) =>
      TotalPut(accounts, a, AccountState(initial, 0));
    case Credit(a, amount) =>
      AddToTotal(accounts, a, amount);
    case Transfer(from, to, amount, nonce) =>
      if PreCheck(op).None? && SenderCheck(accounts, op).None? {
        DebitTotal(accounts, op);
        AddToTotal(Debit(accounts, op), to, amount);
      }
  }

  /** The exact total over every sequential run: what there was and what was minted, less 2^64 for
      every addition that wrapped. */
  lemma {:induction false} SequentialTotal(start: Accounts, log: seq<Event>)
    requires Legal(start, log)
    ensures Total(After(start, log)) == Total(start) + Minted(log) - U64_MODULUS * Wraps(start, log)
  {
    if log != [] {
      var n := |log| - 1;
      SequentialTotal(start, log[..n]);
      ApplyTotal(log[n].op, After(start, log[..n]), log[n].tid);
      assert Event(log[n].tid, log[n].op, log[n].outcome) == log[n];
    }
  }

  /** So a run conserves exactly when none of its additions wraps, and none does as long as the
      minted total fits in a `u64`. */
  lemma SequentialConservation(start: Accounts, log: seq<Event>)
    requires Legal(start, log)
    ensures Total(After(start, log)) == Total(start) + Minted(log) <==> Wraps(start, log) == 0
    ensures Total(start) + Minted(log) < U64_MODULUS ==> Wraps(start, log) == 0
  {
    SequentialTotal(start, log);
    BalanceBound(After(start, log));
  }

  /** Wrapping is real: the smallest minted total over the bound can lose the whole balance. */
  lemma ConservationFailsOnOverflow(a: Address)
    ensures var log := [Event(0, Register(a, U64_MODULUS - 1), Registered(true)), Event(0, Credit(a, 1), Credited)];
            && Legal(map[], log) && Minted(log) == U64_MODULUS && Wraps(map[], log) == 1
            && Total(After(map[], log)) == 0
  {
    var first := Event(0, Register(a, U64_MODULUS - 1), Registered(true));
    var log := [first, Event(0, Credit(a, 1), Credited)];
    assert log[..1] == [first] && [first][..0] == [];
    assert After(map[], [first]) == map[a := AccountState(U64_MODULUS - 1, 0)];
    assert After(map[], log) == map[a := AccountState(0, 0)];
    assert Minted([first]) == U64_MODULUS - 1;
    TotalPut(map[], a, AccountState(0, 0));
    assert Balances(map[]) == map[];
    SequentialTotal(map[], log);
  }

  // ---------------------------------------------------------------- nonces

  function NonceOf(accounts: Accounts, a: Address): u64 {
    if a in accounts then accounts[a].nonce else 0
  }

  predicate AcceptedFrom(e: Event, a: Address) {
    e.op.Transfer? && e.op.from == a && e.outcome == Accepted
  }

  /** The nonces of the accepted transfers from `a`, in log order. */
  function AcceptedNonces(log: seq<Event>, a: Address): seq<u64> {
    if log == [] then []
    else
      var n := |log| - 1;
      AcceptedNonces(log[..n], a) + if AcceptedFrom(log[n], a) then [log[n].op.nonce] else []
  }

  /** A sequence of consecutive nonces modulo 2^64. */
  predicate CountsFrom(nonces: seq<u64>, first: u64) {
    forall i :: 0 <= i < |nonces| ==> nonces[i] == (first + i) % U64_MODULUS
  }

  lemma ApplyNonce(op: Op, accounts: Accounts, a: Address, tid: nat)
    ensures var (accounts', r) := Apply(op, accounts);
            if AcceptedFrom(Event(tid, op, r), a)
            then op.nonce == NonceOf(accounts, a) && NonceOf(accounts', a) == WrapAdd(NonceOf(accounts, a), 1)
            else NonceOf(accounts', a) == NonceOf(accounts, a)
  {
  }

  /** Replay protection over every run: whatever registrations, credits and auto-creations lie
      between them, the accepted transfers from an account carry consecutive nonces, and the
      stored nonce is the next one (counting modulo 2^64, as the field does). */
  lemma {:induction false} NonceOrder(start: Accounts, log: seq<Event>, a: Address)
    requires Legal(start, log)
    ensures NonceOf(After(start, log), a) == (NonceOf(start, a) + |AcceptedNonces(log, a)|) % U64_MODULUS
    ensures CountsFrom(AcceptedNonces(log, a), NonceOf(start, a))
  {
    hide Apply, NonceOf, WrapAdd;
    if log != [] {
      var n := |log| - 1;
      NonceOrder(start, log[..n], a);
      ApplyNonce(log[n].op, After(start, log[..n]), a, log[n].tid);
      assert log[n] == Event(log[n].tid, log[n].op, log[n].outcome);
      WrapSuccessor(NonceOf(start, a) + |AcceptedNonces(log[..n], a)|);
    }
  }

  predicate NoTwoEqual(nonces: seq<u64>) {
    forall i, j :: 0 <= i < j < |nonces| ==> nonces[i] != nonces[j]
  }

  /** Consecutive nonces are pairwise different exactly until the counter has gone once round. */
  lemma CountsDistinct(nonces: seq<u64>, first: u64)
    requires CountsFrom(nonces, first)
    ensures NoTwoEqual(nonces) <==> |nonces| <= U64_MODULUS
  {
    if |nonces| <= U64_MODULUS {
      forall i, j | 0 <= i < j < |nonces| ensures nonces[i] != nonces[j] {
        WrapDistinct(first + i, first + j);
      }
    } else {
      assert nonces[0] == nonces[U64_MODULUS] == first;
    }
  }

  /** No (sender, nonce) pair is accepted twice, exactly as long as the nonce has not come round. */
  lemma NoReplay(start: Accounts, log: seq<Event>, a: Address)
    requires Legal(start, log)
    ensures NoTwoEqual(AcceptedNonces(log, a)) <==> |AcceptedNonces(log, a)| <= U64_MODULUS
  {
    NonceOrder(start, log, a);
    CountsDistinct(AcceptedNonces(log, a), NonceOf(start, a));
  }
}
