/** The transfer node of `zyphra/src/main.rs`: what a local send, a gossip delivery, a direct
    delivery and a connection event do to the ledger, the transaction cache and the peer set,
    and what every run of such events keeps. */
module Node {
  import opened Common
  import opened LedgerSpec
  import opened Transaction
  import opened TxScheme

  type PeerId = nat

  datatype NodeState = NodeState(accounts: Accounts, cache: set<string>, peers: set<PeerId>)

  datatype Input =
    | Send(toHex: string, amount: u64, now: u64)
    | Gossip(data: seq<byte>)
    | Direct(data: seq<byte>)
    | Connected(pid: PeerId)
    | Disconnected(pid: PeerId)

  /** What the node made of an input. */
  datatype Effect =
    | BadAddress
    | SelfCheckFailed
    | SendRejected(error: LedgerError)
    | Sent(tx: SignedTransaction)
    | Malformed
    | Duplicate
    | Unverified
    | NotOurs
    | Witnessed
    | Received(tx: SignedTransaction)
    | PeersChanged

  /** A node that has just registered its own account. */
  function Fresh(x: Scheme, w: Wallet, balance: u64): NodeState {
    NodeState(map[x.address(w) := AccountState(balance, 0)], {}, {})
  }

  function ReactSend(x: Scheme, w: Wallet, s: NodeState, to: Address, amount: u64, now: u64): (NodeState, Effect) {
    var self := x.address(w);
    var nonce := NonceOf(s.accounts, self);
    var tx := Build(x, w, to, amount, nonce, now);
    if !x.verified(tx) then (s, SelfCheckFailed)
    else
      match Apply(Transfer(self, to, amount, nonce), s.accounts)
      case (_, Rejected(e)) => (s, SendRejected(e))
      case (accounts, _) => (s.(accounts := accounts, cache := s.cache + {x.id(tx)}), Sent(tx))
  }

  function AcceptCredit(x: Scheme, s: NodeState, tx: SignedTransaction): (NodeState, Effect) {
    (s.(accounts := AddTo(s.accounts, tx.body.to, tx.body.amount), cache := s.cache + {x.id(tx)}), Received(tx))
  }

  function ReactGossip(x: Scheme, w: Wallet, s: NodeState, tx: SignedTransaction): (NodeState, Effect) {
    if x.id(tx) in s.cache then (s, Duplicate)
    else if !x.verified(tx) then (s, Unverified)
    else if tx.body.to == x.address(w) then AcceptCredit(x, s, tx)
    else (s.(cache := s.cache + {x.id(tx)}), Witnessed)
  }

  /** The direct branch does not look at the cache. */
  function ReactDirect(x: Scheme, w: Wallet, s: NodeState, tx: SignedTransaction): (NodeState, Effect) {
    if !x.verified(tx) then (s, Unverified)
    else if tx.body.to != x.address(w) then (s, NotOurs)
    else AcceptCredit(x, s, tx)
  }

  function React(x: Scheme, w: Wallet, s: NodeState, e: Input): (NodeState, Effect) {
    match e
    case Send(toHex, amount, now) =>
      (match x.parseAddress(toHex)
       case None => (s, BadAddress)
       case Some(to) => ReactSend(x, w, s, to, amount, now))
    case Gossip(data) =>
      if x.decode(data).None? then (s, Malformed) else ReactGossip(x, w, s, x.decode(data).value)
    case Direct(data) =>
      if x.decode(data).None? then (s, Malformed) else ReactDirect(x, w, s, x.decode(data).value)
    case Connected(pid) => (s.(peers := s.peers + {pid}), PeersChanged)
    case Disconnected(pid) => (s.(peers := s.peers - {pid}), PeersChanged)
  }

  // ---------------------------------------------------------------- runs of one node

  function RunNode(x: Scheme, w: Wallet, s: NodeState, events: seq<Input>): NodeState {
    if events == [] then s
    else React(x, w, RunNode(x, w, s, events[..|events| - 1]), events[|events| - 1]).0
  }

  /** The effect of the last event of a run. */
  function LastEffect(x: Scheme, w: Wallet, s: NodeState, events: seq<Input>): Effect
    requires events != []
  {
    React(x, w, RunNode(x, w, s, events[..|events| - 1]), events[|events| - 1]).1
  }

  /** The transactions the node sent, in order. */
  function SentTxs(x: Scheme, w: Wallet, s: NodeState, events: seq<Input>): seq<SignedTransaction> {
    if events == [] then []
    else
      SentTxs(x, w, s, events[..|events| - 1]) +
      match LastEffect(x, w, s, events) case Sent(tx) => [tx] case _ => []
  }

  /** The transactions the node credited itself with, in order and with repetition. */
  function ReceivedTxs(x: Scheme, w: Wallet, s: NodeState, events: seq<Input>): seq<SignedTransaction> {
    if events == [] then []
    else
      ReceivedTxs(x, w, s, events[..|events| - 1]) +
      match LastEffect(x, w, s, events) case Received(tx) => [tx] case _ => []
  }

  predicate Carries(x: Scheme, e: Input, tx: SignedTransaction) {
    (e.Gossip? || e.Direct?) && x.decode(e.data) == Some(tx)
  }

  predicate CarriedIn(x: Scheme, events: seq<Input>, tx: SignedTransaction) {
    exists i :: 0 <= i < |events| && Carries(x, events[i], tx)
  }

  function DirectCount(x: Scheme, events: seq<Input>, tx: SignedTransaction): nat {
    if events == [] then 0
    else
      var e := events[|events| - 1];
      DirectCount(x, events[..|events| - 1], tx) + if e.Direct? && Carries(x, e, tx) then 1 else 0
  }

  /** The first event that carries the transaction is a gossip delivery. */
  predicate FirstIsGossip(x: Scheme, events: seq<Input>, tx: SignedTransaction) {
    exists i :: 0 <= i < |events| && events[i].Gossip? && Carries(x, events[i], tx) && !CarriedIn(x, events[..i], tx)
  }

  lemma FirstIsGossipSnoc(x: Scheme, events: seq<Input>, e: Input, tx: SignedTransaction)
    ensures CarriedIn(x, events + [e], tx) <==> CarriedIn(x, events, tx) || Carries(x, e, tx)
    ensures FirstIsGossip(x, events + [e], tx) <==>
              FirstIsGossip(x, events, tx) || (!CarriedIn(x, events, tx) && e.Gossip? && Carries(x, e, tx))
    ensures FirstIsGossip(x, events, tx) ==> CarriedIn(x, events, tx)
  {
    var more := events + [e];
    assert more[|events|] == e && more[..|events|] == events;
    if i :| 0 <= i < |events| && Carries(x, events[i], tx) {
      assert Carries(x, more[i], tx);
    }
    if i :| 0 <= i < |events| && events[i].Gossip? && Carries(x, events[i], tx) && !CarriedIn(x, events[..i], tx) {
      assert more[i] == events[i] && more[..i] == events[..i];
    }
    if i :| 0 <= i < |more| && more[i].Gossip? && Carries(x, more[i], tx) && !CarriedIn(x, more[..i], tx) {
      if i < |events| {
        assert more[i] == events[i] && more[..i] == events[..i];
      }
    }
  }

  // ---------------------------------------------------------------- the connected peers

  predicate About(e: Input, pid: PeerId) {
    e == Connected(pid) || e == Disconnected(pid)
  }

  /** The last connection event about a peer is that it connected, or there is none and it was
      connected before. */
  predicate Linked(events: seq<Input>, pid: PeerId, before: bool) {
    || (exists i :: 0 <= i < |events| && events[i] == Connected(pid) &&
          forall j :: i < j < |events| ==> !About(events[j], pid))
    || (before && forall j :: 0 <= j < |events| ==> !About(events[j], pid))
  }

  lemma LinkedSnoc(events: seq<Input>, e: Input, pid: PeerId, before: bool)
    ensures Linked(events + [e], pid, before) <==>
            if About(e, pid) then e == Connected(pid) else Linked(events, pid, before)
  {
    var more := events + [e];
    assert more[|events|] == e;
    if !About(e, pid) {
      if i :| 0 <= i < |events| && events[i] == Connected(pid) &&
              forall j :: i < j < |events| ==> !About(events[j], pid) {
        assert more[i] == Connected(pid);
      }
      if i :| 0 <= i < |more| && more[i] == Connected(pid) && forall j :: i < j < |more| ==> !About(more[j], pid) {
        assert i < |events| && events[i] == Connected(pid);
        assert forall j :: i < j < |events| ==> events[j] == more[j];
      }
      if forall j :: 0 <= j < |more| ==> !About(more[j], pid) {
        assert forall j :: 0 <= j < |events| ==> events[j] == more[j];
      }
    }
  }

  /** The peer set after every run: exactly the peers whose last connection event opened one. */
  lemma {:induction false} PeersAreHistory(x: Scheme, w: Wallet, s: NodeState, events: seq<Input>, pid: PeerId)
    ensures pid in RunNode(x, w, s, events).peers <==> Linked(events, pid, pid in s.peers)
  {
    if events != [] {
      hide Linked;
      var n := |events| - 1;
      assert events == events[..n] + [events[n]];
      PeersAreHistory(x, w, s, events[..n], pid);
      LinkedSnoc(events[..n], events[n], pid, pid in s.peers);
      ReactPeers(x, w, RunNode(x, w, s, events[..n]), events[n], pid);
    }
  }

  lemma ReactPeers(x: Scheme, w: Wallet, s: NodeState, e: Input, pid: PeerId)
    ensures pid in React(x, w, s, e).0.peers <==> if About(e, pid) then e == Connected(pid) else pid in s.peers
  {
  }

  /** One event's effect on the cached status and the credits of a transaction addressed to us. */
  lemma ReactToOwn(x: Scheme, w: Wallet, s: NodeState, e: Input, tx: SignedTransaction)
    requires Laws(x) && x.verified(tx) && tx.body.to == x.address(w)
    ensures x.id(tx) in React(x, w, s, e).0.cache <==> x.id(tx) in s.cache || Carries(x, e, tx)
    ensures React(x, w, s, e).1 == Received(tx) <==>
              Carries(x, e, tx) && (e.Direct? || x.id(tx) !in s.cache)
  {
    var (s', effect) := React(x, w, s, e);
    if e.Send? && effect.Sent? && x.id(effect.tx) == x.id(tx) {
      assert effect.tx == tx;
    }
    if (e.Gossip? || e.Direct?) && x.decode(e.data).Some? && x.id(x.decode(e.data).value) == x.id(tx) {
      assert x.decode(e.data).value == tx;
    }
  }

  lemma ReceivedSnoc(x: Scheme, w: Wallet, s: NodeState, events: seq<Input>, tx: SignedTransaction)
    requires events != []
    ensures multiset(ReceivedTxs(x, w, s, events))[tx] ==
            multiset(ReceivedTxs(x, w, s, events[..|events| - 1]))[tx] +
            if LastEffect(x, w, s, events) == Received(tx) then 1 else 0
  {
  }

  /** The exact number of credits of a verified transaction addressed to this node, over every
      run: one for each direct delivery, and one more exactly when it was not known at the start
      and the first delivery that carried it came by gossip. */
  lemma {:induction false} CreditCount(x: Scheme, w: Wallet, s: NodeState, events: seq<Input>, tx: SignedTransaction)
    requires Laws(x) && x.verified(tx) && tx.body.to == x.address(w)
    ensures multiset(ReceivedTxs(x, w, s, events))[tx] ==
            DirectCount(x, events, tx) + if x.id(tx) !in s.cache && FirstIsGossip(x, events, tx) then 1 else 0
    ensures x.id(tx) in RunNode(x, w, s, events).cache <==> x.id(tx) in s.cache || CarriedIn(x, events, tx)
  {
    if events != [] {
      var n := |events| - 1;
      var front, e := events[..n], events[n];
      assert events == front + [e];
      CreditCount(x, w, s, front, tx);
      FirstIsGossipSnoc(x, front, e, tx);
      ReactToOwn(x, w, RunNode(x, w, s, front), e, tx);
      ReceivedSnoc(x, w, s, events, tx);
      CarriesKind(x, e, tx);
    }
  }

  /** Crediting at most once, which the cache is for, fails: a node that hears of a transaction by
      gossip and is then handed it directly credits it twice. */
  lemma GossipThenDirectCreditsTwice(x: Scheme, w: Wallet, balance: u64, tx: SignedTransaction)
    requires Laws(x) && x.verified(tx) && tx.body.to == x.address(w)
    ensures var events := [Gossip(x.encode(tx)), Direct(x.encode(tx))];
            multiset(ReceivedTxs(x, w, Fresh(x, w, balance), events))[tx] == 2
  {
    hide ReceivedTxs, RunNode, FirstIsGossip;
    var gossip, direct := Gossip(x.encode(tx)), Direct(x.encode(tx));
    assert x.decode(x.encode(tx)) == Some(tx);
    assert [gossip, direct] == [gossip] + [direct] && [gossip] == [] + [gossip];
    FirstIsGossipSnoc(x, [], gossip, tx);
    FirstIsGossipSnoc(x, [gossip], direct, tx);
    var events := [gossip, direct];
    assert events[..|events| - 1] == [gossip] && [gossip][..0] == [];
    assert DirectCount(x, [gossip], tx) == 0;
    assert Carries(x, direct, tx) && events[|events| - 1] == direct;
    assert DirectCount(x, events, tx) == DirectCount(x, [gossip], tx) + 1;
    CreditCount(x, w, Fresh(x, w, balance), events, tx);
  }

  /** Exactly when a transaction unknown at the start is credited at most once. */
  lemma AtMostOnceIff(x: Scheme, w: Wallet, s: NodeState, events: seq<Input>, tx: SignedTransaction)
    requires Laws(x) && x.verified(tx) && tx.body.to == x.address(w) && x.id(tx) !in s.cache
    ensures multiset(ReceivedTxs(x, w, s, events))[tx] <= 1 <==>
            DirectCount(x, events, tx) == 0 || (DirectCount(x, events, tx) == 1 && !FirstIsGossip(x, events, tx))
  {
    CreditCount(x, w, s, events, tx);
  }

  lemma CarriesKind(x: Scheme, e: Input, tx: SignedTransaction)
    ensures Carries(x, e, tx) ==> e.Gossip? || e.Direct?
  {
  }

  // ---------------------------------------------------------------- the ledger as a function of history

  function SumAmounts(txs: seq<SignedTransaction>): nat {
    if txs == [] then 0 else SumAmounts(txs[..|txs| - 1]) + txs[|txs| - 1].body.amount
  }

  lemma SumAmountsSnoc(txs: seq<SignedTransaction>, tx: SignedTransaction)
    ensures SumAmounts(txs + [tx]) == SumAmounts(txs) + tx.body.amount
  {
    assert (txs + [tx])[..|txs|] == txs;
  }

  /** Those of the transactions that go to `a`. */
  function SentTo(txs: seq<SignedTransaction>, a: Address): seq<SignedTransaction> {
    if txs == [] then []
    else SentTo(txs[..|txs| - 1], a) + if txs[|txs| - 1].body.to == a then [txs[|txs| - 1]] else []
  }

  lemma SentToSnoc(txs: seq<SignedTransaction>, tx: SignedTransaction, a: Address)
    ensures SentTo(txs + [tx], a) == SentTo(txs, a) + if tx.body.to == a then [tx] else []
    ensures SumAmounts(SentTo(txs + [tx], a)) ==
            SumAmounts(SentTo(txs, a)) + if tx.body.to == a then tx.body.amount else 0
  {
    assert (txs + [tx])[..|txs|] == txs;
    SumAmountsSnoc(SentTo(txs, a), tx);
    assert SentTo(txs, a) + [] == SentTo(txs, a);
  }

  ghost predicate OwnEntry(self: Address, balance: u64, sent: seq<SignedTransaction>,
                           received: seq<SignedTransaction>, accounts: Accounts)
  {
    && self in accounts
    && accounts[self].balance == (balance - SumAmounts(sent) + SumAmounts(received)) % U64_MODULUS
    && accounts[self].nonce == |sent| % U64_MODULUS
  }

  ghost predicate OtherEntry(a: Address, sent: seq<SignedTransaction>, accounts: Accounts) {
    && (a in accounts <==> SentTo(sent, a) != [])
    && (a in accounts ==> accounts[a] == AccountState(SumAmounts(SentTo(sent, a)) % U64_MODULUS, 0))
  }

  ghost predicate SendOrder(self: Address, sent: seq<SignedTransaction>) {
    forall i :: 0 <= i < |sent| ==>
      && sent[i].body.from == self && sent[i].body.to != self
      && sent[i].body.nonce == i % U64_MODULUS && 0 < sent[i].body.amount
  }

  /** The ledger that a history of sends and credits leaves behind. */
  ghost predicate LedgerOf(self: Address, balance: u64, sent: seq<SignedTransaction>,
                           received: seq<SignedTransaction>, accounts: Accounts)
  {
    && OwnEntry(self, balance, sent, received, accounts)
    && (forall a: Address :: a != self ==> OtherEntry(a, sent, accounts))
    && SendOrder(self, sent)
  }

  lemma WrapAddMod(x: int, y: u64)
    ensures WrapAdd(x % U64_MODULUS, y) == (x + y) % U64_MODULUS
    ensures y <= x % U64_MODULUS ==> x % U64_MODULUS - y == (x - y) % U64_MODULUS
  {
    ModAdd(x, y);
    var m: int := y;
    ModAdd(x, -m);
  }

  /** An accepted send, entry by entry. */
  lemma SendKeepsOthers(self: Address, sent: seq<SignedTransaction>, accounts: Accounts,
                        tx: SignedTransaction, nonce: u64, a: Address)
    requires OtherEntry(a, sent, accounts) && a != self
    requires Apply(Transfer(self, tx.body.to, tx.body.amount, nonce), accounts).1 == Accepted
    ensures OtherEntry(a, sent + [tx], Apply(Transfer(self, tx.body.to, tx.body.amount, nonce), accounts).0)
  {
    SentToSnoc(sent, tx, a);
    WrapAddMod(SumAmounts(SentTo(sent, a)), tx.body.amount);
    if SentTo(sent, a) == [] {
      assert SumAmounts(SentTo(sent, a)) == 0;
    }
  }

  lemma SendKeepsOwn(self: Address, balance: u64, sent: seq<SignedTransaction>, received: seq<SignedTransaction>,
                     accounts: Accounts, tx: SignedTransaction, nonce: u64)
    requires OwnEntry(self, balance, sent, received, accounts) && nonce == NonceOf(accounts, self)
    requires Apply(Transfer(self, tx.body.to, tx.body.amount, nonce), accounts).1 == Accepted
    ensures OwnEntry(self, balance, sent + [tx], received,
                     Apply(Transfer(self, tx.body.to, tx.body.amount, nonce), accounts).0)
  {
    SumAmountsSnoc(sent, tx);
    WrapAddMod(balance - SumAmounts(sent) + SumAmounts(received), tx.body.amount);
    WrapSuccessor(|sent|);
  }

  lemma SendKeepsLedger(self: Address, balance: u64, sent: seq<SignedTransaction>, received: seq<SignedTransaction>,
                        accounts: Accounts, tx: SignedTransaction)
    requires LedgerOf(self, balance, sent, received, accounts)
    requires tx.body.from == self && tx.body.nonce == NonceOf(accounts, self)
    requires Apply(Transfer(self, tx.body.to, tx.body.amount, tx.body.nonce), accounts).1 == Accepted
    ensures LedgerOf(self, balance, sent + [tx], received,
                     Apply(Transfer(self, tx.body.to, tx.body.amount, tx.body.nonce), accounts).0)
  {
    SendKeepsOwn(self, balance, sent, received, accounts, tx, tx.body.nonce);
    var accounts' := Apply(Transfer(self, tx.body.to, tx.body.amount, tx.body.nonce), accounts).0;
    forall a: Address | a != self ensures OtherEntry(a, sent + [tx], accounts') {
      SendKeepsOthers(self, sent, accounts, tx, tx.body.nonce, a);
    }
    NextNonce(self, balance, sent, received, accounts);
  }

  lemma NextNonce(self: Address, balance: u64, sent: seq<SignedTransaction>, received: seq<SignedTransaction>,
                  accounts: Accounts)
    requires LedgerOf(self, balance, sent, received, accounts)
    ensures NonceOf(accounts, self) == |sent| % U64_MODULUS
  {
  }

  lemma CreditKeepsLedger(self: Address, balance: u64, sent: seq<SignedTransaction>, received: seq<SignedTransaction>,
                          accounts: Accounts, tx: SignedTransaction)
    requires LedgerOf(self, balance, sent, received, accounts) && tx.body.to == self
    ensures LedgerOf(self, balance, sent, received + [tx], AddTo(accounts, self, tx.body.amount))
  {
    SumAmountsSnoc(received, tx);
    WrapAddMod(balance - SumAmounts(sent) + SumAmounts(received), tx.body.amount);
    forall a: Address | a != self ensures OtherEntry(a, sent, AddTo(accounts, self, tx.body.amount)) {
      assert OtherEntry(a, sent, accounts);
    }
  }

  lemma FreshLedger(self: Address, balance: u64)
    ensures LedgerOf(self, balance, [], [], map[self := AccountState(balance, 0)])
  {
  }

  /** What an event does to the accounts, by its effect. */
  lemma ReactAccounts(x: Scheme, w: Wallet, s: NodeState, e: Input)
    ensures var (s', effect) := React(x, w, s, e);
            var self := x.address(w);
            match effect
            case Sent(tx) =>
              && tx.body.from == self && tx.body.nonce == NonceOf(s.accounts, self)
              && Apply(Transfer(self, tx.body.to, tx.body.amount, tx.body.nonce), s.accounts) == (s'.accounts, Accepted)
            case Received(tx) => tx.body.to == self && s'.accounts == AddTo(s.accounts, self, tx.body.amount)
            case _ => s'.accounts == s.accounts
  {
  }

  /** In every reachable state the ledger is an exact function of history: the own balance is the
      initial one less the sends plus the credits, the own nonce counts the sends, and any other
      account exists exactly when this node has sent to it and holds just what it was sent. All
      of it modulo 2^64, as the fields count. The sends carry the nonces 0, 1, 2, ... in order. */
  lemma {:induction false} LedgerIsHistory(x: Scheme, w: Wallet, balance: u64, events: seq<Input>)
    ensures var s := Fresh(x, w, balance);
            LedgerOf(x.address(w), balance, SentTxs(x, w, s, events), ReceivedTxs(x, w, s, events),
                     RunNode(x, w, s, events).accounts)
  {
    var s := Fresh(x, w, balance);
    var self := x.address(w);
    if events == [] {
      FreshLedger(self, balance);
    } else {
      var n := |events| - 1;
      var front, e := events[..n], events[n];
      LedgerIsHistory(x, w, balance, front);
      var mid := RunNode(x, w, s, front);
      var sent, received := SentTxs(x, w, s, front), ReceivedTxs(x, w, s, front);
      assert sent + [] == sent && received + [] == received;
      var effect := LastEffect(x, w, s, events);
      ReactAccounts(x, w, mid, e);
      if effect.Sent? {
        SendKeepsLedger(self, balance, sent, received, mid.accounts, effect.tx);
      } else if effect.Received? {
        CreditKeepsLedger(self, balance, sent, received, mid.accounts, effect.tx);
      }
    }
  }

  lemma SendInState(x: Scheme, w: Wallet, s: NodeState, to: Address, amount: u64, now: u64)
    requires Laws(x) && x.address(w) in s.accounts
    ensures var self := x.address(w);
            ReactSend(x, w, s, to, amount, now).1 ==
            if to == self then SendRejected(SelfTransfer)
            else if amount == 0 then SendRejected(ZeroValue)
            else if s.accounts[self].balance < amount then
              SendRejected(InsufficientBalance(s.accounts[self].balance, amount))
            else Sent(Build(x, w, to, amount, s.accounts[self].nonce, now))
  {
    assert x.verified(Build(x, w, to, amount, NonceOf(s.accounts, x.address(w)), now));
  }

  /** A `send` in a reachable state is refused for an address that does not parse and for exactly
      three more reasons, checked in this order; it never fails on its nonce, on a missing account
      or on its own signature. What is accepted carries the next nonce. */
  lemma SendOutcome(x: Scheme, w: Wallet, balance: u64, events: seq<Input>, toHex: string, amount: u64, now: u64)
    requires Laws(x)
    ensures var s := Fresh(x, w, balance);
            var mid := RunNode(x, w, s, events);
            var self, to := x.address(w), x.parseAddress(toHex);
            var effect := React(x, w, mid, Send(toHex, amount, now)).1;
            && self in mid.accounts
            && effect ==
               (if to.None? then BadAddress
                else if to.value == self then SendRejected(SelfTransfer)
                else if amount == 0 then SendRejected(ZeroValue)
                else if mid.accounts[self].balance < amount then
                  SendRejected(InsufficientBalance(mid.accounts[self].balance, amount))
                else Sent(Build(x, w, to.value, amount, |SentTxs(x, w, s, events)| % U64_MODULUS, now)))
  {
    LedgerIsHistory(x, w, balance, events);
    var mid := RunNode(x, w, Fresh(x, w, balance), events);
    assert mid.accounts[x.address(w)].nonce == |SentTxs(x, w, Fresh(x, w, balance), events)| % U64_MODULUS;
    if x.parseAddress(toHex).Some? {
      SendInState(x, w, mid, x.parseAddress(toHex).value, amount, now);
    }
  }

  /** Whatever the clock returns, the transactions a node broadcasts have pairwise different
      encodings and ids, until the nonce has gone once round. */
  lemma SentAreDistinct(x: Scheme, w: Wallet, balance: u64, events: seq<Input>, i: nat, j: nat)
    requires Laws(x)
    requires i < j < |SentTxs(x, w, Fresh(x, w, balance), events)| && j < i + U64_MODULUS
    ensures var sent := SentTxs(x, w, Fresh(x, w, balance), events);
            x.encode(sent[i]) != x.encode(sent[j]) && x.id(sent[i]) != x.id(sent[j])
  {
    var sent := SentTxs(x, w, Fresh(x, w, balance), events);
    LedgerIsHistory(x, w, balance, events);
    WrapDistinct(i, j);
    assert sent[i].body.nonce != sent[j].body.nonce;
    assert x.decode(x.encode(sent[i])) == Some(sent[i]) && x.decode(x.encode(sent[j])) == Some(sent[j]);
  }

  // ---------------------------------------------------------------- gossip-only runs

  predicate GossipOnly(events: seq<Input>) {
    forall i :: 0 <= i < |events| ==> events[i].Gossip?
  }

  /** The verified transactions a run delivers. */
  function Delivered(x: Scheme, events: seq<Input>): set<SignedTransaction> {
    if events == [] then {}
    else
      var e := events[|events| - 1];
      Delivered(x, events[..|events| - 1]) +
      if (e.Gossip? || e.Direct?) && x.decode(e.data).Some? && x.verified(x.decode(e.data).value)
      then {x.decode(e.data).value} else {}
  }

  ghost function AmountsTo(txs: set<SignedTransaction>, a: Address): map<SignedTransaction, int> {
    map tx | tx in txs && tx.body.to == a :: tx.body.amount
  }

  ghost function Ids(x: Scheme, txs: set<SignedTransaction>): set<string> {
    set tx | tx in txs :: x.id(tx)
  }

  /** The delivered transactions that were not known at the start. */
  ghost function News(x: Scheme, s: NodeState, txs: set<SignedTransaction>): set<SignedTransaction> {
    set tx | tx in txs && x.id(tx) !in s.cache
  }

  /** The state that gossip leaves, as a function of the set of transactions delivered. */
  ghost function AfterGossip(x: Scheme, w: Wallet, s: NodeState, txs: set<SignedTransaction>): NodeState {
    var self := x.address(w);
    var amounts := AmountsTo(News(x, s, txs), self);
    NodeState(if amounts == map[] then s.accounts else AddTo(s.accounts, self, SumMap(amounts) % U64_MODULUS),
              s.cache + Ids(x, txs), s.peers)
  }

  lemma AddToTwice(accounts: Accounts, a: Address, x: int, y: u64)
    ensures AddTo(AddTo(accounts, a, x % U64_MODULUS), a, y) == AddTo(accounts, a, (x + y) % U64_MODULUS)
  {
    var b := if a in accounts then accounts[a].balance else 0;
    ModAdd(x, y);
    ModAdd(x, b);
    ModAdd(x + b, y);
    ModAdd(x + y, b);
    assert WrapAdd(WrapAdd(b, x % U64_MODULUS), y) == (x + b + y) % U64_MODULUS == WrapAdd(b, (x + y) % U64_MODULUS);
  }

  /** Delivering one more verified transaction by gossip. */
  lemma GossipOneMore(x: Scheme, w: Wallet, s: NodeState, txs: set<SignedTransaction>, tx: SignedTransaction)
    requires Laws(x) && x.verified(tx)
    ensures ReactGossip(x, w, AfterGossip(x, w, s, txs), tx).0 == AfterGossip(x, w, s, txs + {tx})
  {
    hide AddTo, SumMap, Laws;
    SumMapEmpty<SignedTransaction>();
    var self := x.address(w);
    var before := AfterGossip(x, w, s, txs);
    assert Ids(x, txs + {tx}) == Ids(x, txs) + {x.id(tx)};
    var amounts := AmountsTo(News(x, s, txs), self);
    if x.id(tx) in before.cache {
      if x.id(tx) in Ids(x, txs) {
        var other :| other in txs && x.id(other) == x.id(tx);
        IdInjective(x, other, tx);
        assert txs + {tx} == txs;
      } else {
        assert News(x, s, txs + {tx}) == News(x, s, txs);
      }
    } else {
      assert tx !in txs;
      assert News(x, s, txs + {tx}) == News(x, s, txs) + {tx};
      if tx.body.to == self {
        assert AmountsTo(News(x, s, txs + {tx}), self) == amounts[tx := tx.body.amount];
        SumMapUpdate(amounts, tx, tx.body.amount);
        AddToTwice(s.accounts, self, SumMap(amounts), tx.body.amount);
      } else {
        assert AmountsTo(News(x, s, txs + {tx}), self) == amounts;
      }
    }
  }

  /** A gossip-only run ends in the state given by the set of transactions it delivered. */
  lemma {:induction false} GossipRun(x: Scheme, w: Wallet, s: NodeState, events: seq<Input>)
    requires Laws(x) && GossipOnly(events)
    ensures RunNode(x, w, s, events) == AfterGossip(x, w, s, Delivered(x, events))
  {
    if events == [] {
      assert AmountsTo(News(x, s, {}), x.address(w)) == map[];
      assert s.cache + Ids(x, {}) == s.cache;
    } else {
      var n := |events| - 1;
      var front, e := events[..n], events[n];
      GossipRun(x, w, s, front);
      if x.decode(e.data).Some? && x.verified(x.decode(e.data).value) {
        GossipOneMore(x, w, s, Delivered(x, front), x.decode(e.data).value);
      } else {
        assert Delivered(x, events) == Delivered(x, front);
      }
    }
  }

  // ---------------------------------------------------------------- the cache as a function of history

  /** The transactions a run makes known: verified ones heard by gossip, whoever they are for, and
      verified ones handed over directly that are for this node. */
  function Heard(x: Scheme, w: Wallet, events: seq<Input>): set<SignedTransaction> {
    if events == [] then {}
    else
      var e := events[|events| - 1];
      Heard(x, w, events[..|events| - 1]) +
      if (e.Gossip? || e.Direct?) && x.decode(e.data).Some? && x.verified(x.decode(e.data).value) &&
         (e.Gossip? || x.decode(e.data).value.body.to == x.address(w))
      then {x.decode(e.data).value} else {}
  }

  ghost function AsSet(txs: seq<SignedTransaction>): set<SignedTransaction> {
    set tx | tx in txs
  }

  lemma IdsUnion(x: Scheme, some: set<SignedTransaction>, more: set<SignedTransaction>)
    ensures Ids(x, some + more) == Ids(x, some) + Ids(x, more)
  {
  }

  lemma IdsSingle(x: Scheme, tx: SignedTransaction)
    ensures Ids(x, {tx}) == {x.id(tx)} && Ids(x, {}) == {}
  {
  }

  /** What one event adds to the cache. */
  lemma ReactCache(x: Scheme, w: Wallet, s: NodeState, e: Input)
    ensures React(x, w, s, e).0.cache == s.cache +
              (match React(x, w, s, e).1 case Sent(tx) => {x.id(tx)} case _ => {}) + Ids(x, Heard(x, w, [e]))
  {
    var heard := Heard(x, w, [e]);
    assert [e][..0] == [] && Heard(x, w, []) == {};
    var (s', effect) := React(x, w, s, e);
    IdsSingle(x, if effect.Sent? then effect.tx else Build(x, w, x.address(w), 0, 0, 0));
    if heard != {} {
      var tx := x.decode(e.data).value;
      IdsSingle(x, tx);
      assert heard == {tx} && effect != Sent(tx);
      assert s'.cache == s.cache + {x.id(tx)};
    } else {
      assert Ids(x, heard) == {};
      assert s'.cache == s.cache + (match effect case Sent(tx) => {x.id(tx)} case _ => {});
    }
  }

  /** In every state the cache holds exactly the ids of what was known at the start, what this node
      sent and what it heard; refused, damaged and foreign direct deliveries leave no trace in it. */
  lemma {:induction false} CacheIsHistory(x: Scheme, w: Wallet, s: NodeState, events: seq<Input>)
    ensures RunNode(x, w, s, events).cache ==
            s.cache + Ids(x, AsSet(SentTxs(x, w, s, events))) + Ids(x, Heard(x, w, events))
  {
    if events == [] {
      assert AsSet([]) == {};
      IdsSingle(x, Build(x, w, x.address(w), 0, 0, 0));
    } else {
      var n := |events| - 1;
      var front, e := events[..n], events[n];
      CacheIsHistory(x, w, s, front);
      ReactCache(x, w, RunNode(x, w, s, front), e);
      assert [e][..0] == [] && Heard(x, w, []) == {};
      assert Heard(x, w, events) == Heard(x, w, front) + Heard(x, w, [e]);
      IdsUnion(x, Heard(x, w, front), Heard(x, w, [e]));
      var sent := SentTxs(x, w, s, front);
      match LastEffect(x, w, s, events)
      case Sent(tx) =>
        assert AsSet(sent + [tx]) == AsSet(sent) + {tx};
        IdsUnion(x, AsSet(sent), {tx});
        IdsSingle(x, tx);
      case _ =>
        assert sent + [] == sent;
    }
  }

  /** Two gossip-only runs from the same state that deliver the same transactions, in any order,
      with any repetition and padding, end in the same state. */
  lemma GossipConfluence(x: Scheme, w: Wallet, s: NodeState, events: seq<Input>, events': seq<Input>)
    requires Laws(x) && GossipOnly(events) && GossipOnly(events')
    requires Delivered(x, events) == Delivered(x, events')
    ensures RunNode(x, w, s, events) == RunNode(x, w, s, events')
  {
    GossipRun(x, w, s, events);
    GossipRun(x, w, s, events');
  }
}
