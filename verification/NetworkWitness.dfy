/** Concrete runs of the network: a payment from outside, and one that conserves. */
module NetworkWitness {
  import opened Common
  import opened LedgerSpec
  import opened Transaction
  import opened TxScheme
  import opened Node
  import opened Network
  import Hex

  /** What a run of one action is made of. */
  lemma OneAction(net: Net, a: Action)
    requires a.node < |net.wallets| == |net.balances|
    ensures InNet(net, [a]) && NetSent(net, []) == [] && NetReceived(net, []) == [] && NetWraps(net, []) == 0
    ensures NetEffect(net, [a]) == React(net.x, net.wallets[a.node], Start(net, a.node), a.input).1
    ensures NetSent(net, [a]) == match NetEffect(net, [a]) case Sent(tx) => [tx] case _ => []
    ensures NetReceived(net, [a]) == match NetEffect(net, [a]) case Received(tx) => [tx] case _ => []
    ensures NetWraps(net, [a]) == if LastWraps(net, [a]) then 1 else 0
    ensures forall i :: 0 <= i < |net.wallets| ==> Local([a], i) == if i == a.node then [a.input] else []
  {
    hide React, LastWraps;
    assert [a][..0] == [] && Local([], a.node) == [];
    assert StateOf(net, [], a.node) == Start(net, a.node);
  }

  /** A payment signed by a wallet that belongs to no node: the receiving branches look at the
      signature and not at the sender's funds, so the recipient is credited although nothing was
      sent. Every sent transaction was delivered as the discipline asks, for there is none. */
  lemma OutsiderCredited(net: Net, outsider: Wallet, i: nat, amount: u64, now: u64)
    requires Valid(net) && i < |net.wallets| && net.balances[i] + amount < U64_MODULUS
    ensures var tx := Build(net.x, outsider, Self(net, i), amount, 0, now);
            var actions := [Action(i, Direct(net.x.encode(tx)))];
            && InNet(net, actions) && NoncesFresh(net, actions) && Disciplined(net, actions)
            && NetSent(net, actions) == [] && NetReceived(net, actions) == [tx] && NetWraps(net, actions) == 0
            && SumOwn(net, actions, |net.wallets|) == SumInitial(net, |net.wallets|) + amount
            && (NoOutsiders(net, actions) <==> amount == 0)
  {
    hide SumOwn, SumInitial, React, Start, OwnBalance, NoncesFresh, NetSent, NetReceived, NetWraps, NoOutsiders;
    var tx := Build(net.x, outsider, Self(net, i), amount, 0, now);
    var a := Action(i, Direct(net.x.encode(tx)));
    OutsiderEffect(net, outsider, i, amount, now);
    OneAction(net, a);
    assert [a][..0] == [];
    FewSends(net, [a]);
    NetTotal(net, [a]);
    SumAmountsOf(tx);
    ConservationIff(net, [a]);
  }

  lemma OutsiderEffect(net: Net, outsider: Wallet, i: nat, amount: u64, now: u64)
    requires Valid(net) && i < |net.wallets|
    ensures var tx := Build(net.x, outsider, Self(net, i), amount, 0, now);
            && React(net.x, net.wallets[i], Start(net, i), Direct(net.x.encode(tx))).1 == Received(tx)
            && tx.body.amount == amount
    ensures OwnBalance(net, [], i) == net.balances[i]
  {
    var tx := Build(net.x, outsider, Self(net, i), amount, 0, now);
    assert net.x.decode(net.x.encode(tx)) == Some(tx) && net.x.verified(tx);
  }

  lemma SumAmountsOf(tx: SignedTransaction)
    ensures SumAmounts([tx]) == tx.body.amount && SumAmounts([]) == 0
  {
    assert [tx][..0] == [];
  }

  /** A node sends at most once per action. */
  lemma FewSends(net: Net, actions: seq<Action>)
    requires InNet(net, actions) && |actions| <= U64_MODULUS
    ensures NoncesFresh(net, actions)
  {
    forall i | 0 <= i < |net.wallets| ensures |SentBy(net, actions, i)| <= U64_MODULUS {
      SentByBound(net, actions, i);
    }
  }

  lemma {:induction false} SentByBound(net: Net, actions: seq<Action>, i: nat)
    requires InNet(net, actions) && i < |net.wallets|
    ensures |SentBy(net, actions, i)| <= |actions|
  {
    if actions != [] {
      SentByBound(net, actions[..|actions| - 1], i);
      LocalSnoc(net, actions, i);
    }
  }

  /** What a run of two actions at different nodes is made of. */
  lemma TwoActions(net: Net, a: Action, b: Action)
    requires a.node < |net.wallets| == |net.balances| && b.node < |net.wallets| && a.node != b.node
    ensures InNet(net, [a]) && InNet(net, [a, b])
    ensures NetEffect(net, [a, b]) == React(net.x, net.wallets[b.node], Start(net, b.node), b.input).1
    ensures NetSent(net, [a, b]) == NetSent(net, [a]) + match NetEffect(net, [a, b]) case Sent(tx) => [tx] case _ => []
    ensures NetReceived(net, [a, b]) ==
            NetReceived(net, [a]) + match NetEffect(net, [a, b]) case Received(tx) => [tx] case _ => []
    ensures forall i :: 0 <= i < |net.wallets| ==>
              Local([a, b], i) == if i == a.node then [a.input] else if i == b.node then [b.input] else []
  {
    hide React, NetSent, NetReceived;
    OneAction(net, a);
    assert [a, b][..1] == [a];
    assert StateOf(net, [a], b.node) == Start(net, b.node);
    SentStep(net, [a, b]);
  }

  lemma SentStep(net: Net, actions: seq<Action>)
    requires InNet(net, actions) && actions != []
    ensures NetSent(net, actions) == NetSent(net, actions[..|actions| - 1]) +
              match NetEffect(net, actions) case Sent(tx) => [tx] case _ => []
    ensures NetReceived(net, actions) == NetReceived(net, actions[..|actions| - 1]) +
              match NetEffect(net, actions) case Received(tx) => [tx] case _ => []
  {
  }

  lemma PaymentEffects(net: Net, i: nat, j: nat, toHex: string, amount: u64, now: u64)
    requires Valid(net) && i < |net.wallets| && j < |net.wallets| && i != j
    requires net.x.parseAddress(toHex) == Some(Self(net, j)) && 0 < amount <= net.balances[i]
    ensures var tx := Build(net.x, net.wallets[i], Self(net, j), amount, 0, now);
            && React(net.x, net.wallets[i], Start(net, i), Send(toHex, amount, now)).1 == Sent(tx)
            && React(net.x, net.wallets[j], Start(net, j), Gossip(net.x.encode(tx))).1 == Received(tx)
  {
    var tx := Build(net.x, net.wallets[i], Self(net, j), amount, 0, now);
    assert net.x.decode(net.x.encode(tx)) == Some(tx) && net.x.verified(tx);
    assert Self(net, i) != Self(net, j) by {
      var low, high := if i < j then i else j, if i < j then j else i;
      assert Self(net, low) != Self(net, high);
    }
    SendInState(net.x, net.wallets[i], Start(net, i), Self(net, j), amount, now);
  }

  /** What conservation asks for can be met: one node pays another, which hears of it by gossip. */
  lemma PaymentConserves(net: Net, i: nat, j: nat, toHex: string, amount: u64, now: u64)
    requires Valid(net) && i < |net.wallets| && j < |net.wallets| && i != j
    requires net.x.parseAddress(toHex) == Some(Self(net, j)) && 0 < amount <= net.balances[i]
    ensures var tx := Build(net.x, net.wallets[i], Self(net, j), amount, 0, now);
            var actions := [Action(i, Send(toHex, amount, now)), Action(j, Gossip(net.x.encode(tx)))];
            && InNet(net, actions) && NoncesFresh(net, actions)
            && NetSent(net, actions) == [tx] && NetReceived(net, actions) == [tx]
            && Disciplined(net, actions) && NoOutsiders(net, actions)
  {
    hide NetSent, NetReceived, NetEffect, Local, React, Start, NoncesFresh, DirectCount, FirstIsGossip;
    var tx := Build(net.x, net.wallets[i], Self(net, j), amount, 0, now);
    var a, b := Action(i, Send(toHex, amount, now)), Action(j, Gossip(net.x.encode(tx)));
    assert net.x.decode(net.x.encode(tx)) == Some(tx);
    PaymentEffects(net, i, j, toHex, amount, now);
    OneAction(net, a);
    TwoActions(net, a, b);
    FewSends(net, [a, b]);
    assert NetSent(net, [a]) == [tx] && [tx] + [] == [tx];
    forall k | 0 <= k < |net.wallets| ensures DirectCount(net.x, Local([a, b], k), tx) == 0 {
      NoDirect(net.x, a.input, tx);
      NoDirect(net.x, b.input, tx);
    }
    forall k, other | 0 <= k < |net.wallets| && CarriedIn(net.x, Local([a, b], k), other) ensures other == tx {
    }
  }

  lemma NoDirect(x: Scheme, e: Input, tx: SignedTransaction)
    requires !e.Direct?
    ensures DirectCount(x, [e], tx) == 0 && DirectCount(x, [], tx) == 0
  {
    assert [e][..0] == [];
  }

  /** And a network to meet it in: the program's own scheme, over some lawful primitives, with two
      nodes of different addresses. */
  lemma LawfulNetwork(balance: u64, other: u64) returns (net: Net)
    ensures Valid(net) && net.balances == [balance, other] && exists c :: Lawful(c) && net.x == Zyphra(c)
    ensures net.x.parseAddress(Hex.Render(Self(net, 1))) == Some(Self(net, 1))
  {
    hide Encode, Decode, TxId, Verified, Digest, Hex.AddressFromHex, Hex.Render, Laws;
    var zeros: PublicKey, ones: PublicKey := seq(32, _ => 0), seq(32, _ => 1);
    var sig: Signature := seq(64, _ => 0);
    var c := Crypto(x => x, x => if |x| == 32 then x else zeros, x => if |x| == 32 then x else zeros,
                    (_, _) => sig, _ => true, (_, _, _) => true);
    assert Lawful(c);
    ZyphraIsLawful(c);
    net := Net(Zyphra(c), [Wallet(zeros), Wallet(ones)], [balance, other]);
    assert Self(net, 0)[0] == 0 && Self(net, 1)[0] == 1;
    Hex.AddressRoundTrip(Self(net, 1));
  }
}
