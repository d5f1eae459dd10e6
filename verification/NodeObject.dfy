/** The node process: the handlers of the event loop, working on the shared ledger object, the
    transaction cache and the set of connected peers. */
module NodeObject {
  import opened Common
  import opened LedgerSpec
  import opened LedgerObject
  import opened Transaction
  import opened TxScheme
  import opened Node
  import Hex

  /** What the node hands to the network layer. */
  datatype Message =
    | Request(pid: PeerId, txRlp: seq<byte>)
    | Publish(txRlp: seq<byte>)
    | Response(accepted: bool, txHash: string)

  /** One request to every peer and nothing else. */
  ghost predicate OnePerPeer(requests: seq<Message>, peers: set<PeerId>, data: seq<byte>) {
    && |requests| == |peers|
    && (forall p :: p in peers ==> Request(p, data) in requests)
    && (forall m :: m in requests ==> m.Request? && m.pid in peers && m.txRlp == data)
  }

  // ---------------------------------------------------------------- what a run hands over

  /** The messages that one event of a run adds. A send that goes through asks every peer connected
      at that moment and then publishes; a direct delivery is answered, favourably exactly if it
      brings a verified transaction to this node; nothing else adds any. */
  ghost predicate BatchOf(c: Crypto, w: Wallet, s: NodeState, events: seq<Input>, k: nat, batch: seq<Message>)
    requires k < |events|
  {
    var x := Zyphra(c);
    match LastEffect(x, w, s, events[..k + 1])
    case Sent(tx) =>
      && batch != [] && batch[|batch| - 1] == Publish(Encode(tx))
      && OnePerPeer(batch[..|batch| - 1], RunNode(x, w, s, events[..k]).peers, Encode(tx))
    case _ => batch == if events[k].Direct? then [Answer(c, w, events[k].data)] else []
  }

  function Answer(c: Crypto, w: Wallet, data: seq<byte>): Message {
    match Decode(data)
    case None => Response(false, "")
    case Some(tx) => Response(Verified(c, tx) && tx.body.to == AddressOf(c, w), TxId(c, tx))
  }

  /** One batch for every event, in order. */
  ghost predicate Emitted(c: Crypto, w: Wallet, s: NodeState, events: seq<Input>, batches: seq<seq<Message>>) {
    |batches| == |events| && forall k :: 0 <= k < |events| ==> BatchOf(c, w, s, events, k, batches[k])
  }

  function Flatten(batches: seq<seq<Message>>): seq<Message> {
    if batches == [] then [] else Flatten(batches[..|batches| - 1]) + batches[|batches| - 1]
  }

  /** The published encodings, in order. */
  function Published(messages: seq<Message>): seq<seq<byte>> {
    if messages == [] then []
    else
      var n := |messages| - 1;
      Published(messages[..n]) + if messages[n].Publish? then [messages[n].txRlp] else []
  }

  /** The answers, in order. */
  function Answered(messages: seq<Message>): seq<Message> {
    if messages == [] then []
    else
      var n := |messages| - 1;
      Answered(messages[..n]) + if messages[n].Response? then [messages[n]] else []
  }

  function Encodings(txs: seq<SignedTransaction>): seq<seq<byte>> {
    seq(|txs|, i requires 0 <= i < |txs| => Encode(txs[i]))
  }

  /** The answers that the direct deliveries of a run ask for, in order. */
  function Answers(c: Crypto, w: Wallet, events: seq<Input>): seq<Message> {
    if events == [] then []
    else
      var n := |events| - 1;
      Answers(c, w, events[..n]) + if events[n].Direct? then [Answer(c, w, events[n].data)] else []
  }

  lemma {:induction false} SplitMessages(a: seq<Message>, b: seq<Message>)
    ensures Published(a + b) == Published(a) + Published(b) && Answered(a + b) == Answered(a) + Answered(b)
    decreases |b|
  {
    if b == [] {
      assert a + b == a;
    } else {
      var n := |b| - 1;
      assert (a + b)[..|a + b| - 1] == a + b[..n];
      SplitMessages(a, b[..n]);
    }
  }

  lemma {:induction false} OnlyRequests(messages: seq<Message>)
    requires forall m :: m in messages ==> m.Request?
    ensures Published(messages) == [] && Answered(messages) == []
  {
    if messages != [] {
      OnlyRequests(messages[..|messages| - 1]);
      assert messages[|messages| - 1] in messages;
    }
  }

  /** What one batch adds to the publications and to the answers. */
  lemma BatchMessages(c: Crypto, w: Wallet, s: NodeState, events: seq<Input>, k: nat, batch: seq<Message>)
    requires k < |events| && BatchOf(c, w, s, events, k, batch)
    ensures var effect := LastEffect(Zyphra(c), w, s, events[..k + 1]);
            && Published(batch) == (if effect.Sent? then [Encode(effect.tx)] else [])
            && Answered(batch) == if events[k].Direct? then [Answer(c, w, events[k].data)] else []
  {
    hide RunNode, Answer, Encode, React, Published, Answered, Zyphra;
    var effect := LastEffect(Zyphra(c), w, s, events[..k + 1]);
    SentBySend(c, w, RunNode(Zyphra(c), w, s, events[..k + 1][..k]), events[k]);
    if effect.Sent? {
      var n := |batch| - 1;
      OnlyRequests(batch[..n]);
      SplitMessages(batch[..n], [batch[n]]);
      OneMessage(batch[n]);
      assert batch == batch[..n] + [batch[n]];
    } else if events[k].Direct? {
      AnswerIsResponse(c, w, events[k].data);
      OneMessage(Answer(c, w, events[k].data));
    } else {
      OnlyRequests([]);
    }
  }

  lemma OneMessage(m: Message)
    ensures Published([m]) == (if m.Publish? then [m.txRlp] else [])
    ensures Answered([m]) == if m.Response? then [m] else []
  {
    assert [m][..0] == [];
  }

  lemma AnswerIsResponse(c: Crypto, w: Wallet, data: seq<byte>)
    ensures Answer(c, w, data).Response?
  {
  }

  /** A direct delivery is credited exactly if it brings a verified transaction to this node. */
  lemma DirectCredits(c: Crypto, w: Wallet, s: NodeState, data: seq<byte>)
    ensures React(Zyphra(c), w, s, Direct(data)).1.Received? <==>
            match Decode(data) case None => false case Some(tx) => Verified(c, tx) && tx.body.to == AddressOf(c, w)
  {
    hide Decode, Verified, TxId, AddressOf;
  }

  lemma SentBySend(c: Crypto, w: Wallet, s: NodeState, e: Input)
    ensures React(Zyphra(c), w, s, e).1.Sent? ==> e.Send?
  {
    hide Zyphra;
  }

  /** What is handed to the network over a run, whatever the order of the requests: the publications
      are the encodings of the transactions sent, and the answers those of the direct deliveries,
      each in order and without any other. */
  lemma {:induction false} EmittedMessages(c: Crypto, w: Wallet, s: NodeState, events: seq<Input>,
                                           batches: seq<seq<Message>>)
    requires Emitted(c, w, s, events, batches)
    ensures Published(Flatten(batches)) == Encodings(SentTxs(Zyphra(c), w, s, events))
    ensures Answered(Flatten(batches)) == Answers(c, w, events)
  {
    hide LastEffect, BatchOf, Answer, Encode, Published, Answered, SentTxs, Encodings;
    if events == [] {
      NothingEmitted(c, w, s);
    } else {
      var n := |events| - 1;
      EmittedBefore(c, w, s, events, batches);
      EmittedMessages(c, w, s, events[..n], batches[..n]);
      assert BatchOf(c, w, s, events, n, batches[n]);
      BatchMessages(c, w, s, events, n, batches[n]);
      SplitMessages(Flatten(batches[..n]), batches[n]);
      assert events[..n + 1] == events;
      SentLast(c, w, s, events);
    }
  }

  lemma NothingEmitted(c: Crypto, w: Wallet, s: NodeState)
    ensures Published([]) == Encodings(SentTxs(Zyphra(c), w, s, [])) && Answered([]) == []
  {
    hide Zyphra;
  }

  lemma SentLast(c: Crypto, w: Wallet, s: NodeState, events: seq<Input>)
    requires events != []
    ensures var x, effect := Zyphra(c), LastEffect(Zyphra(c), w, s, events);
            Encodings(SentTxs(x, w, s, events)) ==
            Encodings(SentTxs(x, w, s, events[..|events| - 1])) + if effect.Sent? then [Encode(effect.tx)] else []
  {
    hide LastEffect, Encode, Zyphra;
  }

  /** What handling an event adds is the batch of that event in the run. */
  lemma HandledBatch(c: Crypto, w: Wallet, s: NodeState, events: seq<Input>, n: nat, effect: Effect,
                     batch: seq<Message>)
    requires n < |events|
    requires var mid := RunNode(Zyphra(c), w, s, events[..n]);
             && effect == React(Zyphra(c), w, mid, events[n]).1
             && if effect.Sent?
                then
                  && batch != [] && batch[|batch| - 1] == Publish(Encode(effect.tx))
                  && OnePerPeer(batch[..|batch| - 1], mid.peers, Encode(effect.tx))
                else batch == if events[n].Direct? then [Answer(c, w, events[n].data)] else []
    ensures BatchOf(c, w, s, events, n, batch)
    ensures RunNode(Zyphra(c), w, s, events[..n + 1]) ==
            React(Zyphra(c), w, RunNode(Zyphra(c), w, s, events[..n]), events[n]).0
  {
    hide React, Encode, Answer, OnePerPeer, Zyphra;
    assert events[..n + 1][..n] == events[..n] && events[..n + 1][n] == events[n];
  }

  lemma EmittedBefore(c: Crypto, w: Wallet, s: NodeState, events: seq<Input>, batches: seq<seq<Message>>)
    requires events != [] && Emitted(c, w, s, events, batches)
    ensures Emitted(c, w, s, events[..|events| - 1], batches[..|batches| - 1])
  {
    hide LastEffect, RunNode, Answer, Encode;
    var front := events[..|events| - 1];
    forall k | 0 <= k < |front| ensures BatchOf(c, w, s, front, k, batches[k]) {
      assert front[..k + 1] == events[..k + 1] && front[..k] == events[..k];
      assert BatchOf(c, w, s, events, k, batches[k]);
    }
  }

  lemma StartOfRun(c: Crypto, w: Wallet, s: NodeState)
    ensures RunNode(Zyphra(c), w, s, []) == s && Emitted(c, w, s, [], []) && Flatten([]) == []
  {
  }

  lemma EmittedSnoc(c: Crypto, w: Wallet, s: NodeState, events: seq<Input>, n: nat, batches: seq<seq<Message>>,
                    batch: seq<Message>)
    requires n < |events| && Emitted(c, w, s, events[..n], batches) && BatchOf(c, w, s, events, n, batch)
    ensures Emitted(c, w, s, events[..n + 1], batches + [batch])
    ensures Flatten(batches + [batch]) == Flatten(batches) + batch
  {
    hide LastEffect, RunNode, Answer, Encode;
    var more := events[..n + 1];
    assert (batches + [batch])[..n] == batches;
    forall k | 0 <= k <= n ensures BatchOf(c, w, s, more, k, (batches + [batch])[k]) {
      assert more[..k + 1] == events[..k + 1] && more[..k] == events[..k];
      if k < n {
        assert events[..n][..k + 1] == events[..k + 1] && events[..n][..k] == events[..k];
        assert BatchOf(c, w, s, events[..n], k, batches[k]);
      }
    }
  }

  class Process {
    const c: Crypto
    const wallet: Wallet
    const ledger: Ledger
    var txCache: set<string>
    var connectedPeers: set<PeerId>
    var outbox: seq<Message>

    ghost function State(): NodeState
      reads this, ledger
    {
      NodeState(ledger.accounts, txCache, connectedPeers)
    }

    constructor (c: Crypto, wallet: Wallet, balance: u64)
      ensures fresh(ledger) && State() == Fresh(Zyphra(c), wallet, balance) && outbox == []
      ensures this.c == c && this.wallet == wallet
    {
      this.c := c;
      this.wallet := wallet;
      ledger := new Ledger();
      txCache, connectedPeers, outbox := {}, {}, [];
      new;
      var created := ledger.Register(AddressOf(c, wallet), balance);
    }

    method HandleSend(toHex: string, amount: u64, now: u64) returns (effect: Effect)
      modifies this, ledger
      ensures (State(), effect) == React(Zyphra(c), wallet, old(State()), Send(toHex, amount, now))
      ensures !effect.Sent? ==> outbox == old(outbox)
      ensures effect.Sent? ==>
                && |outbox| == |old(outbox)| + |connectedPeers| + 1
                && old(outbox) <= outbox && outbox[|outbox| - 1] == Publish(Encode(effect.tx))
                && OnePerPeer(outbox[|old(outbox)|..|outbox| - 1], connectedPeers, Encode(effect.tx))
    {
      hide Verified, TxId, Digest, Hex.AddressFromHex, Encode, Preimage;
      var parsed := Hex.AddressFromHex(toHex);
      if parsed.None? { return BadAddress; }
      var to := parsed.value;
      var self := AddressOf(c, wallet);
      var stored := ledger.Nonce(self);
      var nonce := if stored.Some? then stored.value else 0;
      var tx := Create(c, wallet, to, amount, nonce, now);
      ZyphraBuilds(c, wallet, to, amount, nonce, now);
      if !Verified(c, tx) { return SelfCheckFailed; }
      var error := ledger.Transfer(self, to, amount, nonce);
      if error.Some? { return SendRejected(error.value); }
      txCache := txCache + {TxId(c, tx)};
      var data := Encode(tx);
      var requests := RequestAll(connectedPeers, data);
      outbox := outbox + requests + [Publish(data)];
      assert outbox[|old(outbox)|..|outbox| - 1] == requests;
      effect := Sent(tx);
    }

    static method RequestAll(peers: set<PeerId>, data: seq<byte>) returns (requests: seq<Message>)
      ensures OnePerPeer(requests, peers, data)
    {
      requests := [];
      var rest := peers;
      while rest != {}
        invariant rest <= peers && OnePerPeer(requests, peers - rest, data)
        decreases |rest|
      {
        var pid :| pid in rest;
        assert peers - (rest - {pid}) == peers - rest + {pid};
        requests := requests + [Request(pid, data)];
        rest := rest - {pid};
      }
      assert peers - rest == peers;
    }

    method HandleGossip(data: seq<byte>) returns (effect: Effect)
      modifies this, ledger
      ensures (State(), effect) == React(Zyphra(c), wallet, old(State()), Gossip(data)) && outbox == old(outbox)
    {
      hide Verified, TxId, Decode;
      var decoded := Decode(data);
      if decoded.None? { return Malformed; }
      var tx := decoded.value;
      if TxId(c, tx) in txCache { return Duplicate; }
      if !Verified(c, tx) { return Unverified; }
      if tx.body.to == AddressOf(c, wallet) {
        ledger.Credit(tx.body.to, tx.body.amount);
        effect := Received(tx);
      } else {
        effect := Witnessed;
      }
      txCache := txCache + {TxId(c, tx)};
    }

    /** A direct request is answered exactly once, and accepted exactly when it was credited. */
    method HandleDirect(data: seq<byte>) returns (effect: Effect)
      modifies this, ledger
      ensures (State(), effect) == React(Zyphra(c), wallet, old(State()), Direct(data))
      ensures outbox == old(outbox) +
                [Response(effect.Received?, if Decode(data).None? then "" else TxId(c, Decode(data).value))]
    {
      hide Verified, TxId, Decode;
      var decoded := Decode(data);
      if decoded.None? {
        effect := Malformed;
        outbox := outbox + [Response(false, "")];
      } else {
        var tx := decoded.value;
        var accepted := false;
        if !Verified(c, tx) {
          effect := Unverified;
        } else if tx.body.to != AddressOf(c, wallet) {
          effect := NotOurs;
        } else {
          ledger.Credit(tx.body.to, tx.body.amount);
          txCache := txCache + {TxId(c, tx)};
          effect := Received(tx);
          accepted := true;
        }
        outbox := outbox + [Response(accepted, TxId(c, tx))];
      }
    }

    method HandleConnection(pid: PeerId, established: bool) returns (effect: Effect)
      modifies this
      ensures (State(), effect) ==
              React(Zyphra(c), wallet, old(State()), if established then Connected(pid) else Disconnected(pid))
      ensures connectedPeers == if established then old(connectedPeers) + {pid} else old(connectedPeers) - {pid}
      ensures outbox == old(outbox)
    {
      connectedPeers := if established then connectedPeers + {pid} else connectedPeers - {pid};
      effect := PeersChanged;
    }

    /** Handling one event adds one batch. */
    method Handle(e: Input) returns (effect: Effect, ghost batch: seq<Message>)
      modifies this, ledger
      ensures (State(), effect) == React(Zyphra(c), wallet, old(State()), e) && outbox == old(outbox) + batch
      ensures if effect.Sent?
              then
                && batch != [] && batch[|batch| - 1] == Publish(Encode(effect.tx))
                && OnePerPeer(batch[..|batch| - 1], old(connectedPeers), Encode(effect.tx))
              else batch == if e.Direct? then [Answer(c, wallet, e.data)] else []
    {
      hide React, Encode, Verified, TxId, Decode;
      batch := [];
      match e {
        case Send(toHex, amount, now) =>
          effect := HandleSend(toHex, amount, now);
          SendKeepsPeers(Zyphra(c), wallet, old(State()), e);
          batch := outbox[|old(outbox)|..];
          assert old(outbox) <= outbox;
        case Gossip(data) =>
          effect := HandleGossip(data);
          SentBySend(c, wallet, old(State()), e);
        case Direct(data) =>
          effect := HandleDirect(data);
          SentBySend(c, wallet, old(State()), e);
          DirectCredits(c, wallet, old(State()), data);
          batch := [Answer(c, wallet, data)];
        case Connected(pid) =>
          effect := HandleConnection(pid, true);
          SentBySend(c, wallet, old(State()), e);
        case Disconnected(pid) =>
          effect := HandleConnection(pid, false);
          SentBySend(c, wallet, old(State()), e);
      }
    }

    /** The event loop: handling events one after the other is the run the laws speak about, and
        hands over one batch of messages for every event, in order. */
    method EventLoop(events: seq<Input>) returns (ghost batches: seq<seq<Message>>)
      modifies this, ledger
      ensures State() == RunNode(Zyphra(c), wallet, old(State()), events)
      ensures Emitted(c, wallet, old(State()), events, batches) && outbox == old(outbox) + Flatten(batches)
    {
      hide React, Encode, Answer, OnePerPeer, RunNode, Flatten, Emitted, BatchOf, Zyphra;
      batches := [];
      StartOfRun(c, wallet, State());
      assert events[..0] == [] && outbox + [] == outbox;
      for n := 0 to |events|
        invariant State() == RunNode(Zyphra(c), wallet, old(State()), events[..n])
        invariant Emitted(c, wallet, old(State()), events[..n], batches) && outbox == old(outbox) + Flatten(batches)
      {
        var effect, batch := Handle(events[n]);
        HandledBatch(c, wallet, old(State()), events, n, effect, batch);
        EmittedSnoc(c, wallet, old(State()), events, n, batches, batch);
        assert old(outbox) + Flatten(batches) + batch == old(outbox) + (Flatten(batches) + batch);
        batches := batches + [batch];
      }
      assert events[..|events|] == events;
    }
  }

  lemma SendKeepsPeers(x: Scheme, w: Wallet, s: NodeState, e: Input)
    requires e.Send?
    ensures React(x, w, s, e).0.peers == s.peers
  {
  }

  /** The process from its start: whatever it is fed, its ledger is the function of its sends and
      credits that the history prescribes, its cache holds exactly what it sent and heard, its peers
      are those whose last connection event opened one, and it has published exactly what it sent
      and answered exactly the direct deliveries, in order. */
  method Live(c: Crypto, wallet: Wallet, balance: u64, events: seq<Input>)
    returns (p: Process, ghost batches: seq<seq<Message>>)
    ensures fresh(p) && fresh(p.ledger)
    ensures var x, s := Zyphra(c), Fresh(Zyphra(c), wallet, balance);
            && LedgerOf(AddressOf(c, wallet), balance, SentTxs(x, wallet, s, events),
                        ReceivedTxs(x, wallet, s, events), p.ledger.accounts)
            && p.txCache == Ids(x, AsSet(SentTxs(x, wallet, s, events))) + Ids(x, Heard(x, wallet, events))
            && (forall pid :: pid in p.connectedPeers <==> Linked(events, pid, false))
            && Emitted(c, wallet, s, events, batches) && p.outbox == Flatten(batches)
            && Published(p.outbox) == Encodings(SentTxs(x, wallet, s, events))
            && Answered(p.outbox) == Answers(c, wallet, events)
  {
    hide LedgerOf, Ids, AddressOf, RunNode, SentTxs, ReceivedTxs, Heard, Linked, Emitted, Published, Answered, Answers;
    hide Encodings, Flatten;
    var s := Fresh(Zyphra(c), wallet, balance);
    p := new Process(c, wallet, balance);
    batches := p.EventLoop(events);
    LedgerIsHistory(Zyphra(c), wallet, balance, events);
    CacheIsHistory(Zyphra(c), wallet, s, events);
    assert p.txCache == p.State().cache && p.connectedPeers == p.State().peers;
    forall pid ensures pid in p.connectedPeers <==> Linked(events, pid, false) {
      PeersAreHistory(Zyphra(c), wallet, s, events, pid);
    }
    EmittedMessages(c, wallet, s, events, batches);
    assert [] + Flatten(batches) == Flatten(batches);
  }
}
