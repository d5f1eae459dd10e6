/** A network of transfer nodes. A run is any sequence of inputs to any of the nodes, so messages
    may be lost, reordered, repeated, damaged, and made up: anyone with a key can hand a node a
    transaction that verifies. */
module Network {
  import opened Common
  import opened LedgerSpec
  import opened Transaction
  import opened TxScheme
  import opened Node

  datatype Net = Net(x: Scheme, wallets: seq<Wallet>, balances: seq<u64>)

  datatype Action = Action(node: nat, input: Input)

  function Self(net: Net, i: nat): Address
    requires i < |net.wallets|
  {
    net.x.address(net.wallets[i])
  }

  /** Lawful primitives and nodes with distinct addresses. */
  ghost predicate Valid(net: Net) {
    && Laws(net.x) && |net.wallets| == |net.balances|
    && forall i, j :: 0 <= i < j < |net.wallets| ==> Self(net, i) != Self(net, j)
  }

  predicate InNet(net: Net, actions: seq<Action>) {
    |net.wallets| == |net.balances| && forall k :: 0 <= k < |actions| ==> actions[k].node < |net.wallets|
  }

  /** What node `i` sees of a run. */
  function Local(actions: seq<Action>, i: nat): seq<Input> {
    if actions == [] then []
    else
      var n := |actions| - 1;
      Local(actions[..n], i) + if actions[n].node == i then [actions[n].input] else []
  }

  function Start(net: Net, i: nat): NodeState
    requires i < |net.wallets| == |net.balances|
  {
    Fresh(net.x, net.wallets[i], net.balances[i])
  }

  function StateOf(net: Net, actions: seq<Action>, i: nat): NodeState
    requires i < |net.wallets| == |net.balances|
  {
    RunNode(net.x, net.wallets[i], Start(net, i), Local(actions, i))
  }

  function SentBy(net: Net, actions: seq<Action>, i: nat): seq<SignedTransaction>
    requires i < |net.wallets| == |net.balances|
  {
    SentTxs(net.x, net.wallets[i], Start(net, i), Local(actions, i))
  }

  function ReceivedBy(net: Net, actions: seq<Action>, i: nat): seq<SignedTransaction>
    requires i < |net.wallets| == |net.balances|
  {
    ReceivedTxs(net.x, net.wallets[i], Start(net, i), Local(actions, i))
  }

  /** The effect of the last action of a run. */
  function NetEffect(net: Net, actions: seq<Action>): Effect
    requires InNet(net, actions) && actions != []
  {
    var n := |actions| - 1;
    var i := actions[n].node;
    React(net.x, net.wallets[i], StateOf(net, actions[..n], i), actions[n].input).1
  }

  /** Everything sent in the network, in order. */
  function NetSent(net: Net, actions: seq<Action>): seq<SignedTransaction>
    requires InNet(net, actions)
  {
    if actions == [] then []
    else
      NetSent(net, actions[..|actions| - 1]) +
      match NetEffect(net, actions) case Sent(tx) => [tx] case _ => []
  }

  /** Everything credited in the network, in order and with repetition. */
  function NetReceived(net: Net, actions: seq<Action>): seq<SignedTransaction>
    requires InNet(net, actions)
  {
    if actions == [] then []
    else
      NetReceived(net, actions[..|actions| - 1]) +
      match NetEffect(net, actions) case Received(tx) => [tx] case _ => []
  }

  /** No node has sent more often than its nonce field can count. */
  ghost predicate NoncesFresh(net: Net, actions: seq<Action>)
    requires InNet(net, actions)
  {
    forall i :: 0 <= i < |net.wallets| ==> |SentBy(net, actions, i)| <= U64_MODULUS
  }

  // ---------------------------------------------------------------- one action, node by node

  lemma LocalSnoc(net: Net, actions: seq<Action>, i: nat)
    requires InNet(net, actions) && actions != [] && i < |net.wallets|
    ensures var n := |actions| - 1;
            var front := actions[..n];
            if actions[n].node == i then
              && Local(actions, i) == Local(front, i) + [actions[n].input]
              && StateOf(net, actions, i) == React(net.x, net.wallets[i], StateOf(net, front, i), actions[n].input).0
              && SentBy(net, actions, i) == SentBy(net, front, i) +
                   (match NetEffect(net, actions) case Sent(tx) => [tx] case _ => [])
              && ReceivedBy(net, actions, i) == ReceivedBy(net, front, i) +
                   (match NetEffect(net, actions) case Received(tx) => [tx] case _ => [])
            else
              Local(actions, i) == Local(front, i)
  {
    var n := |actions| - 1;
    var front := Local(actions[..n], i);
    if actions[n].node == i {
      assert (front + [actions[n].input])[..|front|] == front;
    } else {
      assert front + [] == front;
    }
  }

  function OwnBalance(net: Net, actions: seq<Action>, i: nat): u64
    requires i < |net.wallets| == |net.balances|
  {
    var accounts := StateOf(net, actions, i).accounts;
    if Self(net, i) in accounts then accounts[Self(net, i)].balance else 0
  }

  /** What an effect does to the balance of the node it happens at. */
  lemma OwnStep(x: Scheme, w: Wallet, s: NodeState, e: Input)
    requires x.address(w) in s.accounts
    ensures var (s', effect) := React(x, w, s, e);
            var self := x.address(w);
            && self in s'.accounts
            && match effect
               case Sent(tx) =>
                 && tx.body.from == self && tx.body.nonce == s.accounts[self].nonce && 0 < tx.body.amount
                 && s'.accounts[self].balance == s.accounts[self].balance - tx.body.amount
               case Received(tx) =>
                 && tx.body.to == self && Carries(x, e, tx) && x.verified(tx)
                 && s'.accounts[self].balance == WrapAdd(s.accounts[self].balance, tx.body.amount)
               case _ => s'.accounts[self].balance == s.accounts[self].balance
  {
  }

  lemma OwnPresent(net: Net, actions: seq<Action>, i: nat)
    requires i < |net.wallets| == |net.balances|
    ensures Self(net, i) in StateOf(net, actions, i).accounts
    ensures StateOf(net, actions, i).accounts[Self(net, i)].nonce == |SentBy(net, actions, i)| % U64_MODULUS
    ensures SendOrder(Self(net, i), SentBy(net, actions, i))
  {
    LedgerIsHistory(net.x, net.wallets[i], net.balances[i], Local(actions, i));
  }

  // ---------------------------------------------------------------- sums over the nodes

  function SumOwn(net: Net, actions: seq<Action>, n: nat): int
    requires n <= |net.wallets| == |net.balances|
  {
    if n == 0 then 0 else SumOwn(net, actions, n - 1) + OwnBalance(net, actions, n - 1)
  }

  function SumInitial(net: Net, n: nat): int
    requires n <= |net.wallets| == |net.balances|
  {
    if n == 0 then 0 else SumInitial(net, n - 1) + net.balances[n - 1]
  }

  lemma {:induction false} SumOwnChange(net: Net, front: seq<Action>, actions: seq<Action>, j: nat, n: nat)
    requires n <= |net.wallets| == |net.balances| && j < |net.wallets|
    requires forall i :: 0 <= i < |net.wallets| && i != j ==> OwnBalance(net, actions, i) == OwnBalance(net, front, i)
    ensures SumOwn(net, actions, n) - SumOwn(net, front, n) ==
            if j < n then OwnBalance(net, actions, j) - OwnBalance(net, front, j) else 0
  {
    hide OwnBalance;
    if n != 0 {
      SumOwnChange(net, front, actions, j, n - 1);
    }
  }

  lemma {:induction false} SumOwnBound(net: Net, actions: seq<Action>, j: nat, n: nat)
    requires n <= |net.wallets| == |net.balances|
    ensures 0 <= SumOwn(net, actions, n)
    ensures j < n ==> OwnBalance(net, actions, j) <= SumOwn(net, actions, n)
  {
    hide StateOf;
    if n != 0 {
      SumOwnBound(net, actions, j, n - 1);
    }
  }

  lemma {:induction false} SumOwnStart(net: Net, n: nat)
    requires n <= |net.wallets| == |net.balances|
    ensures SumOwn(net, [], n) == SumInitial(net, n)
  {
    if n != 0 {
      SumOwnStart(net, n - 1);
    }
  }

  /** One action moves only the balance of its node, by what its effect says. */
  lemma NetStep(net: Net, actions: seq<Action>)
    requires InNet(net, actions) && actions != []
    ensures var n, all := |actions| - 1, |net.wallets|;
            var front, j := actions[..n], actions[n].node;
            SumOwn(net, actions, all) == SumOwn(net, front, all) +
              match NetEffect(net, actions)
              case Sent(tx) => -(tx.body.amount as int)
              case Received(tx) => WrapAdd(OwnBalance(net, front, j), tx.body.amount) - OwnBalance(net, front, j)
              case _ => 0
  {
    var n := |actions| - 1;
    var front, j := actions[..n], actions[n].node;
    forall i | 0 <= i < |net.wallets| && i != j ensures OwnBalance(net, actions, i) == OwnBalance(net, front, i) {
      LocalSnoc(net, actions, i);
    }
    LocalSnoc(net, actions, j);
    OwnPresent(net, front, j);
    OwnStep(net.x, net.wallets[j], StateOf(net, front, j), actions[n].input);
    SumOwnChange(net, front, actions, j, |net.wallets|);
  }

  /** What a run has done to the sum of own balances, before any wrapping. */
  function Expected(net: Net, actions: seq<Action>): int
    requires InNet(net, actions)
  {
    SumInitial(net, |net.wallets|) - SumAmounts(NetSent(net, actions)) + SumAmounts(NetReceived(net, actions))
  }

  lemma ExpectedStep(net: Net, actions: seq<Action>)
    requires InNet(net, actions) && actions != []
    ensures Expected(net, actions) == Expected(net, actions[..|actions| - 1]) +
              match NetEffect(net, actions)
              case Sent(tx) => -(tx.body.amount as int)
              case Received(tx) => tx.body.amount as int
              case _ => 0
  {
    var sent, received := NetSent(net, actions[..|actions| - 1]), NetReceived(net, actions[..|actions| - 1]);
    assert sent + [] == sent && received + [] == received;
    match NetEffect(net, actions)
    case Sent(tx) => SumAmountsSnoc(sent, tx);
    case Received(tx) => SumAmountsSnoc(received, tx);
    case _ =>
  }

  /** The last action of a run is a credit that wraps. */
  predicate LastWraps(net: Net, actions: seq<Action>)
    requires InNet(net, actions) && actions != []
  {
    var n := |actions| - 1;
    match NetEffect(net, actions)
    case Received(tx) => U64_MODULUS <= OwnBalance(net, actions[..n], actions[n].node) + tx.body.amount
    case _ => false
  }

  /** How many credits of a run wrap. */
  function NetWraps(net: Net, actions: seq<Action>): nat
    requires InNet(net, actions)
  {
    if actions == [] then 0
    else NetWraps(net, actions[..|actions| - 1]) + if LastWraps(net, actions) then 1 else 0
  }

  /** The exact sum of own balances after every run at all, with nothing assumed of deliveries or
      sizes: what the nodes started with, less everything sent, plus everything credited, less
      2^64 for every credit that wrapped. */
  lemma {:induction false} NetTotal(net: Net, actions: seq<Action>)
    requires InNet(net, actions)
    ensures SumOwn(net, actions, |net.wallets|) == Expected(net, actions) - U64_MODULUS * NetWraps(net, actions)
  {
    hide LastWraps, SumOwn, Expected;
    if actions == [] {
      NetTotalStart(net);
    } else {
      NetTotal(net, actions[..|actions| - 1]);
      NetTotalStep(net, actions);
    }
  }

  lemma NetTotalStart(net: Net)
    requires InNet(net, [])
    ensures SumOwn(net, [], |net.wallets|) == Expected(net, [])
  {
    SumOwnStart(net, |net.wallets|);
  }

  lemma NetTotalStep(net: Net, actions: seq<Action>)
    requires InNet(net, actions) && actions != []
    ensures var front, all := actions[..|actions| - 1], |net.wallets|;
            SumOwn(net, actions, all) - SumOwn(net, front, all) ==
            Expected(net, actions) - Expected(net, front) - if LastWraps(net, actions) then U64_MODULUS else 0
  {
    hide NetEffect, OwnBalance, SumOwn, Expected;
    NetStep(net, actions);
    ExpectedStep(net, actions);
  }

  /** Modulo 2^64 the wraps make no difference. */
  lemma ConservationModulo(net: Net, actions: seq<Action>)
    requires InNet(net, actions)
    ensures Congruent(SumOwn(net, actions, |net.wallets|), Expected(net, actions))
  {
    hide SumOwn, Expected, NetWraps, Congruent;
    NetTotal(net, actions);
    CongruentTurns(Expected(net, actions), NetWraps(net, actions));
  }

  // ---------------------------------------------------------------- the balance sheet

  /** The amounts of those occurrences in `a` that have no counterpart in `b`. */
  function Surplus(a: seq<SignedTransaction>, b: seq<SignedTransaction>): nat {
    if a == [] then 0
    else
      var n := |a| - 1;
      Surplus(a[..n], b) + if multiset(a)[a[n]] > multiset(b)[a[n]] then a[n].body.amount else 0
  }

  lemma SurplusSnoc(a: seq<SignedTransaction>, tx: SignedTransaction, b: seq<SignedTransaction>)
    ensures Surplus(a + [tx], b) ==
            Surplus(a, b) + if multiset(a)[tx] >= multiset(b)[tx] then tx.body.amount else 0
  {
    assert (a + [tx])[..|a|] == a;
  }

  lemma {:induction false} SurplusAgainst(a: seq<SignedTransaction>, b: seq<SignedTransaction>, tx: SignedTransaction)
    ensures Surplus(a, b + [tx]) ==
            Surplus(a, b) - if multiset(a)[tx] > multiset(b)[tx] then tx.body.amount else 0
  {
    if a != [] {
      var n := |a| - 1;
      SurplusAgainst(a[..n], b, tx);
      assert a == a[..n] + [a[n]];
    }
  }

  /** Two lists of transactions differ in total by what either has beyond the other. */
  lemma {:induction false} SurplusBalance(a: seq<SignedTransaction>, b: seq<SignedTransaction>)
    ensures SumAmounts(a) + Surplus(b, a) == SumAmounts(b) + Surplus(a, b)
    decreases |a| + |b|
  {
    if a != [] {
      var n := |a| - 1;
      assert a == a[..n] + [a[n]];
      SurplusBalance(a[..n], b);
      SumAmountsSnoc(a[..n], a[n]);
      SurplusSnoc(a[..n], a[n], b);
      SurplusAgainst(b, a[..n], a[n]);
    } else if b != [] {
      var n := |b| - 1;
      assert b == b[..n] + [b[n]];
      SurplusBalance(a, b[..n]);
      SumAmountsSnoc(b[..n], b[n]);
      SurplusSnoc(b[..n], b[n], a);
      SurplusAgainst(a, b[..n], b[n]);
    }
  }

  lemma {:induction false} SurplusZero(a: seq<SignedTransaction>, b: seq<SignedTransaction>)
    ensures Surplus(a, b) == 0 <==>
            forall tx :: tx in a && 0 < tx.body.amount ==> multiset(a)[tx] <= multiset(b)[tx]
  {
    if a != [] {
      var n := |a| - 1;
      var front, last := a[..n], a[n];
      assert a == front + [last];
      SurplusZero(front, b);
      assert forall tx :: multiset(a)[tx] == multiset(front)[tx] + if tx == last then 1 else 0;
      if multiset(a)[last] <= multiset(b)[last] || last.body.amount == 0 {
        forall tx | tx in a && 0 < tx.body.amount && (tx in front ==> multiset(front)[tx] <= multiset(b)[tx])
          ensures multiset(a)[tx] <= multiset(b)[tx]
        {
        }
      } else {
        assert last in a;
      }
    }
  }

  /** The balance sheet of every run at all: what the nodes own, and what was sent beyond what was
      credited, is what they started with, and what was credited beyond what was sent, less 2^64
      for every credit that wrapped. */
  lemma BalanceSheet(net: Net, actions: seq<Action>)
    requires InNet(net, actions)
    ensures var sent, received := NetSent(net, actions), NetReceived(net, actions);
            SumOwn(net, actions, |net.wallets|) + Surplus(sent, received) ==
            SumInitial(net, |net.wallets|) + Surplus(received, sent) - U64_MODULUS * NetWraps(net, actions)
  {
    NetTotal(net, actions);
    SurplusBalance(NetSent(net, actions), NetReceived(net, actions));
  }

  // ---------------------------------------------------------------- no transaction is sent twice

  predicate Distinct<T(==)>(s: seq<T>) {
    forall i, j :: 0 <= i < j < |s| ==> s[i] != s[j]
  }

  /** The transactions in the network are pairwise different, and each was sent by a node. */
  ghost predicate Tracked(net: Net, actions: seq<Action>)
    requires InNet(net, actions)
  {
    var sent := NetSent(net, actions);
    && Distinct(sent)
    && (forall tx :: tx in sent ==> exists i :: 0 <= i < |net.wallets| && tx in SentBy(net, actions, i))
  }

  /** A transaction that is just being sent is not among those sent before. */
  lemma SentIsFresh(net: Net, actions: seq<Action>, tx: SignedTransaction)
    requires Valid(net) && InNet(net, actions) && actions != [] && NoncesFresh(net, actions)
    requires Tracked(net, actions[..|actions| - 1]) && NetEffect(net, actions) == Sent(tx)
    ensures tx !in NetSent(net, actions[..|actions| - 1])
  {
    var n := |actions| - 1;
    var front, j := actions[..n], actions[n].node;
    LocalSnoc(net, actions, j);
    OwnPresent(net, front, j);
    OwnStep(net.x, net.wallets[j], StateOf(net, front, j), actions[n].input);
    var mine := SentBy(net, front, j);
    assert |SentBy(net, actions, j)| == |mine| + 1;
    if tx in NetSent(net, front) {
      var i :| 0 <= i < |net.wallets| && tx in SentBy(net, front, i);
      OwnPresent(net, front, i);
      assert i == j;
      var k :| 0 <= k < |mine| && mine[k] == tx;
      WrapDistinct(k, |mine|);
      assert false;
    }
  }

  lemma SendersTrackedStep(net: Net, actions: seq<Action>, tx: SignedTransaction)
    requires InNet(net, actions) && actions != [] && tx in NetSent(net, actions)
    requires Tracked(net, actions[..|actions| - 1])
    ensures exists i :: 0 <= i < |net.wallets| && tx in SentBy(net, actions, i)
  {
    var front, j := actions[..|actions| - 1], actions[|actions| - 1].node;
    if tx in NetSent(net, front) {
      var i :| 0 <= i < |net.wallets| && tx in SentBy(net, front, i);
      SentByGrows(net, actions, i);
      assert tx in SentBy(net, actions, i);
    } else {
      LocalSnoc(net, actions, j);
      assert tx in SentBy(net, actions, j);
    }
  }

  lemma TrackedStep(net: Net, actions: seq<Action>)
    requires Valid(net) && InNet(net, actions) && actions != [] && NoncesFresh(net, actions)
    requires Tracked(net, actions[..|actions| - 1])
    ensures Tracked(net, actions)
  {
    var front := actions[..|actions| - 1];
    forall tx | tx in NetSent(net, actions)
      ensures exists i :: 0 <= i < |net.wallets| && tx in SentBy(net, actions, i)
    {
      SendersTrackedStep(net, actions, tx);
    }
    match NetEffect(net, actions)
    case Sent(tx) =>
      SentIsFresh(net, actions, tx);
      assert NetSent(net, actions) == NetSent(net, front) + [tx];
    case _ =>
  }

  lemma SentByGrows(net: Net, actions: seq<Action>, i: nat)
    requires InNet(net, actions) && actions != [] && i < |net.wallets|
    ensures SentBy(net, actions[..|actions| - 1], i) <= SentBy(net, actions, i)
  {
    LocalSnoc(net, actions, i);
  }

  lemma NoncesFreshBefore(net: Net, actions: seq<Action>)
    requires InNet(net, actions) && actions != [] && NoncesFresh(net, actions)
    ensures NoncesFresh(net, actions[..|actions| - 1])
  {
    var front := actions[..|actions| - 1];
    forall i | 0 <= i < |net.wallets| ensures |SentBy(net, front, i)| <= U64_MODULUS {
      SentByGrows(net, actions, i);
    }
  }

  lemma TrackedStart(net: Net)
    requires InNet(net, [])
    ensures Tracked(net, [])
  {
  }

  lemma {:induction false} TrackedRun(net: Net, actions: seq<Action>)
    requires Valid(net) && InNet(net, actions) && NoncesFresh(net, actions)
    ensures Tracked(net, actions)
  {
    if actions == [] {
      TrackedStart(net);
    } else {
      NoncesFreshBefore(net, actions);
      TrackedRun(net, actions[..|actions| - 1]);
      TrackedStep(net, actions);
    }
  }

  // ---------------------------------------------------------------- the items of the balance sheet

  /** The amounts sent but not credited. */
  function Uncredited(sent: seq<SignedTransaction>, received: seq<SignedTransaction>): nat {
    if sent == [] then 0
    else
      var n := |sent| - 1;
      Uncredited(sent[..n], received) + if sent[n] in received then 0 else sent[n].body.amount
  }

  /** The amounts of sent transactions that were credited again after a first credit. */
  function Repeated(sent: seq<SignedTransaction>, received: seq<SignedTransaction>): nat {
    if received == [] then 0
    else
      var n := |received| - 1;
      Repeated(sent, received[..n]) +
      if received[n] in sent && received[n] in received[..n] then received[n].body.amount else 0
  }

  /** The amounts credited for transactions that no node of the network sent. */
  function Foreign(sent: seq<SignedTransaction>, received: seq<SignedTransaction>): nat {
    if received == [] then 0
    else
      var n := |received| - 1;
      Foreign(sent, received[..n]) + if received[n] in sent then 0 else received[n].body.amount
  }

  lemma {:induction false} DistinctCount(s: seq<SignedTransaction>, tx: SignedTransaction)
    requires Distinct(s)
    ensures multiset(s)[tx] == if tx in s then 1 else 0
  {
    if s != [] {
      var n := |s| - 1;
      assert s == s[..n] + [s[n]];
      DistinctCount(s[..n], tx);
    }
  }

  lemma {:induction false} SurplusSent(sent: seq<SignedTransaction>, received: seq<SignedTransaction>)
    requires Distinct(sent)
    ensures Surplus(sent, received) == Uncredited(sent, received)
  {
    if sent != [] {
      var n := |sent| - 1;
      SurplusSent(sent[..n], received);
      DistinctCount(sent, sent[n]);
    }
  }

  lemma {:induction false} SurplusReceived(sent: seq<SignedTransaction>, received: seq<SignedTransaction>)
    requires Distinct(sent)
    ensures Surplus(received, sent) == Repeated(sent, received) + Foreign(sent, received)
  {
    if received != [] {
      var n := |received| - 1;
      assert received == received[..n] + [received[n]];
      SurplusReceived(sent, received[..n]);
      DistinctCount(sent, received[n]);
    }
  }

  /** The balance sheet item by item, as long as nonces tell the sent transactions apart. */
  lemma BalanceSheetItems(net: Net, actions: seq<Action>)
    requires Valid(net) && InNet(net, actions) && NoncesFresh(net, actions)
    ensures var sent, received := NetSent(net, actions), NetReceived(net, actions);
            SumOwn(net, actions, |net.wallets|) + Uncredited(sent, received) ==
            SumInitial(net, |net.wallets|) + Repeated(sent, received) + Foreign(sent, received) -
            U64_MODULUS * NetWraps(net, actions)
  {
    TrackedRun(net, actions);
    BalanceSheet(net, actions);
    SurplusSent(NetSent(net, actions), NetReceived(net, actions));
    SurplusReceived(NetSent(net, actions), NetReceived(net, actions));
  }

  // ---------------------------------------------------------------- credits and deliveries

  lemma {:induction false} SentAreVerified(net: Net, actions: seq<Action>, tx: SignedTransaction)
    requires InNet(net, actions) && tx in NetSent(net, actions)
    ensures net.x.verified(tx) && 0 < tx.body.amount
  {
    var front := actions[..|actions| - 1];
    if tx in NetSent(net, front) {
      SentAreVerified(net, front, tx);
    } else {
      var j := actions[|actions| - 1].node;
      assert NetEffect(net, actions) == Sent(tx);
      SendIsVerified(net.x, net.wallets[j], StateOf(net, front, j), actions[|actions| - 1].input);
    }
  }

  lemma SendIsVerified(x: Scheme, w: Wallet, s: NodeState, e: Input)
    ensures var effect := React(x, w, s, e).1;
            effect.Sent? ==> x.verified(effect.tx) && 0 < effect.tx.body.amount
  {
  }

  /** The credits of a transaction are made at the node it is addressed to, and nowhere else. */
  lemma {:induction false} ReceivedAtRecipient(net: Net, actions: seq<Action>, tx: SignedTransaction, i: nat)
    requires Valid(net) && InNet(net, actions) && i < |net.wallets| && Self(net, i) == tx.body.to
    ensures multiset(NetReceived(net, actions))[tx] == multiset(ReceivedBy(net, actions, i))[tx]
  {
    if actions == [] {
      assert ReceivedBy(net, [], i) == [] by { NothingReceivedYet(net, i); }
    } else {
      var front, j := actions[..|actions| - 1], actions[|actions| - 1].node;
      ReceivedAtRecipient(net, front, tx, i);
      LocalSnoc(net, actions, i);
      ReceiptIsLocal(net, actions);
      if i != j {
        SameLocal(net, front, actions, i);
      }
    }
  }

  lemma NothingReceivedYet(net: Net, i: nat)
    requires InNet(net, []) && i < |net.wallets|
    ensures ReceivedBy(net, [], i) == []
  {
  }

  lemma SameLocal(net: Net, front: seq<Action>, actions: seq<Action>, i: nat)
    requires i < |net.wallets| == |net.balances| && Local(front, i) == Local(actions, i)
    ensures ReceivedBy(net, front, i) == ReceivedBy(net, actions, i)
  {
  }

  lemma ReceiptIsLocal(net: Net, actions: seq<Action>)
    requires InNet(net, actions) && actions != []
    ensures var effect := NetEffect(net, actions);
            effect.Received? ==>
              net.x.verified(effect.tx) && effect.tx.body.to == Self(net, actions[|actions| - 1].node)
  {
    var front, j := actions[..|actions| - 1], actions[|actions| - 1].node;
    OwnPresent(net, front, j);
    OwnStep(net.x, net.wallets[j], StateOf(net, front, j), actions[|actions| - 1].input);
  }

  lemma {:induction false} ReceivedHaveRecipient(net: Net, actions: seq<Action>, tx: SignedTransaction)
    requires InNet(net, actions) && tx in NetReceived(net, actions)
    ensures net.x.verified(tx)
    ensures exists i :: 0 <= i < |net.wallets| && Self(net, i) == tx.body.to
  {
    var front := actions[..|actions| - 1];
    if tx in NetReceived(net, front) {
      ReceivedHaveRecipient(net, front, tx);
    } else {
      ReceiptIsLocal(net, actions);
    }
  }

  /** The number of credits of a verified transaction, by the delivery events its recipient saw. */
  function Credits(x: Scheme, events: seq<Input>, tx: SignedTransaction): nat {
    DirectCount(x, events, tx) + if FirstIsGossip(x, events, tx) then 1 else 0
  }

  /** The credits of a transaction in the whole network, sent by one of its nodes or not. */
  lemma NetCredits(net: Net, actions: seq<Action>, tx: SignedTransaction, i: nat)
    requires Valid(net) && InNet(net, actions) && i < |net.wallets|
    requires net.x.verified(tx) && Self(net, i) == tx.body.to
    ensures multiset(NetReceived(net, actions))[tx] == Credits(net.x, Local(actions, i), tx)
  {
    ReceivedAtRecipient(net, actions, tx, i);
    CreditCount(net.x, net.wallets[i], Start(net, i), Local(actions, i), tx);
  }

  /** A transaction is credited at all exactly when some delivery carries it. */
  lemma {:induction false} CreditsZero(x: Scheme, events: seq<Input>, tx: SignedTransaction)
    ensures Credits(x, events, tx) == 0 <==> !CarriedIn(x, events, tx)
  {
    if events != [] {
      var n := |events| - 1;
      assert events == events[..n] + [events[n]];
      CreditsZero(x, events[..n], tx);
      FirstIsGossipSnoc(x, events[..n], events[n], tx);
      CarriesKind(x, events[n], tx);
    }
  }

  /** A verified transaction worth something that is addressed to node `i`. */
  predicate Matters(net: Net, i: nat, tx: SignedTransaction)
    requires i < |net.wallets|
  {
    net.x.verified(tx) && Self(net, i) == tx.body.to && 0 < tx.body.amount
  }

  /** The deliveries credit nothing more often than it was sent. */
  ghost predicate WithinSent(net: Net, actions: seq<Action>)
    requires InNet(net, actions)
  {
    forall i, tx :: 0 <= i < |net.wallets| && Matters(net, i, tx) ==>
      Credits(net.x, Local(actions, i), tx) <= multiset(NetSent(net, actions))[tx]
  }

  /** Exactly then nothing is credited beyond what was sent, even where nonces come round. */
  lemma WithinSentIff(net: Net, actions: seq<Action>)
    requires Valid(net) && InNet(net, actions)
    ensures Surplus(NetReceived(net, actions), NetSent(net, actions)) == 0 <==> WithinSent(net, actions)
  {
    hide NetSent, NetReceived, Surplus, Credits, Local, Valid;
    var sent, received := NetSent(net, actions), NetReceived(net, actions);
    SurplusZero(received, sent);
    forall i, tx | 0 <= i < |net.wallets| && Matters(net, i, tx)
      ensures multiset(received)[tx] == Credits(net.x, Local(actions, i), tx)
    {
      NetCredits(net, actions, tx, i);
    }
    if WithinSent(net, actions) {
      forall tx | tx in received && 0 < tx.body.amount ensures multiset(received)[tx] <= multiset(sent)[tx] {
        ReceivedHaveRecipient(net, actions, tx);
        var i :| 0 <= i < |net.wallets| && Self(net, i) == tx.body.to;
        assert Matters(net, i, tx);
      }
    }
  }

  /** Every sent transaction reached its recipient by direct delivery at most once, and if so not
      after a gossip delivery there. */
  ghost predicate Disciplined(net: Net, actions: seq<Action>)
    requires InNet(net, actions)
  {
    forall i, tx :: 0 <= i < |net.wallets| && tx in NetSent(net, actions) && Self(net, i) == tx.body.to ==>
      (DirectCount(net.x, Local(actions, i), tx) == 0 ||
       (DirectCount(net.x, Local(actions, i), tx) == 1 && !FirstIsGossip(net.x, Local(actions, i), tx)))
  }

  /** No node was delivered a verified transaction worth something to it that no node sent. */
  ghost predicate NoOutsiders(net: Net, actions: seq<Action>)
    requires InNet(net, actions)
  {
    forall i, tx :: 0 <= i < |net.wallets| && Matters(net, i, tx) && CarriedIn(net.x, Local(actions, i), tx) ==>
      tx in NetSent(net, actions)
  }

  lemma WithinSentByKind(net: Net, actions: seq<Action>)
    requires Valid(net) && InNet(net, actions) && NoncesFresh(net, actions)
    ensures WithinSent(net, actions) <==> Disciplined(net, actions) && NoOutsiders(net, actions)
  {
    hide NetSent, DirectCount, FirstIsGossip, CarriedIn, Local, Valid, SentBy;
    var sent := NetSent(net, actions);
    TrackedRun(net, actions);
    forall i, tx | 0 <= i < |net.wallets|
      ensures multiset(sent)[tx] == if tx in sent then 1 else 0
      ensures tx in sent ==> (Matters(net, i, tx) <==> Self(net, i) == tx.body.to)
      ensures Credits(net.x, Local(actions, i), tx) == 0 <==> !CarriedIn(net.x, Local(actions, i), tx)
    {
      DistinctCount(sent, tx);
      CreditsZero(net.x, Local(actions, i), tx);
      if tx in sent {
        SentAreVerified(net, actions, tx);
      }
    }
    if !WithinSent(net, actions) {
      var i, tx :| 0 <= i < |net.wallets| && Matters(net, i, tx) &&
                   Credits(net.x, Local(actions, i), tx) > multiset(sent)[tx];
      assert tx in sent || CarriedIn(net.x, Local(actions, i), tx);
    } else {
      forall i, tx | 0 <= i < |net.wallets| && tx in sent && Self(net, i) == tx.body.to
        ensures Credits(net.x, Local(actions, i), tx) <= 1
      {
        assert Matters(net, i, tx);
      }
    }
  }

  // ---------------------------------------------------------------- when conservation holds

  /** The nodes' own balances and what is under way add up to what the nodes started with. */
  ghost predicate Conserves(net: Net, actions: seq<Action>)
    requires InNet(net, actions)
  {
    SumOwn(net, actions, |net.wallets|) + Uncredited(NetSent(net, actions), NetReceived(net, actions)) ==
    SumInitial(net, |net.wallets|)
  }

  /** Amounts that should not be there: credited again, or credited for transactions not sent. */
  function Excess(net: Net, actions: seq<Action>): nat
    requires InNet(net, actions)
  {
    var sent, received := NetSent(net, actions), NetReceived(net, actions);
    Repeated(sent, received) + Foreign(sent, received)
  }

  /** Exactly when the total is conserved. The deliveries give no excess exactly under the discipline
      and without outsiders; if no credit wraps, the total is conserved exactly then. In general it
      is conserved exactly when the excess is 2^64 for every credit that wrapped, and none wraps
      while the initial balances and the excess fit in a `u64`. */
  lemma ConservationIff(net: Net, actions: seq<Action>)
    requires Valid(net) && InNet(net, actions) && NoncesFresh(net, actions)
    ensures Excess(net, actions) == 0 <==> Disciplined(net, actions) && NoOutsiders(net, actions)
    ensures NetWraps(net, actions) == 0 ==>
              (Conserves(net, actions) <==> Disciplined(net, actions) && NoOutsiders(net, actions))
    ensures Conserves(net, actions) <==> Excess(net, actions) == U64_MODULUS * NetWraps(net, actions)
    ensures SumInitial(net, |net.wallets|) + Excess(net, actions) < U64_MODULUS ==> NetWraps(net, actions) == 0
  {
    hide NetSent, NetReceived, NetWraps, Disciplined, NoOutsiders, WithinSent, Valid, NoncesFresh, Repeated, Foreign;
    hide Uncredited, SumOwn, Surplus;
    BalanceSheetItems(net, actions);
    TrackedRun(net, actions);
    SurplusReceived(NetSent(net, actions), NetReceived(net, actions));
    WithinSentIff(net, actions);
    WithinSentByKind(net, actions);
    SumOwnBound(net, actions, 0, |net.wallets|);
  }

  /** Conservation in a closed network that keeps the discipline, under any loss, reordering and
      gossip duplication. */
  lemma Conservation(net: Net, actions: seq<Action>)
    requires Valid(net) && InNet(net, actions) && NoncesFresh(net, actions)
    requires Disciplined(net, actions) && NoOutsiders(net, actions) && SumInitial(net, |net.wallets|) < U64_MODULUS
    ensures Conserves(net, actions) && NetWraps(net, actions) == 0
  {
    hide Disciplined, NoOutsiders, Valid, Conserves, Excess, NetWraps;
    ConservationIff(net, actions);
  }
}
