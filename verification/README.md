# Zyphra ledger, node, wire format and secure session: a verified model

This project models four connected parts of the repository and proves what they promise.

* **Ledger** (`zyphra/src/ledger.rs`). `Ledger.dfy` gives the operations as transformers of the
  account map and the laws of sequential runs. `LedgerObject.dfy` is the mutable ledger object.
  `Concurrent.dfy` runs `register`, `credit` and `transfer` on any number of threads, over a map cut
  into shards by an arbitrary function, taking and releasing every shard guard and the transfer lock
  in separate steps. A half-done transfer is visible to the other threads. `ConcurrentWitness.dfy`
  has concrete schedules. `Placement.dfy` says exactly where between its debit and its credit a
  transfer may stand in the sequential run.
* **Node and network** (`zyphra/src/main.rs`). `Node.dfy` says what a local send, a gossip delivery,
  a direct delivery and a connection event do, for any transaction scheme that keeps three laws;
  `Scheme.dfy` has those laws and shows that the program's own scheme keeps them; `NodeObject.dfy`
  has the handlers working on the shared ledger object, the cache and the peer set; `Network.dfy`
  puts any number of nodes into a network that may lose, reorder, repeat, damage and make up
  messages, and `NetworkWitness.dfy` has concrete runs of it.
* **Wire format** (`zyphra/src/transaction.rs`, `zyphra/src/wallet.rs`). `Rlp.dfy` follows Appendix B
  of the Ethereum Yellow Paper; `Transaction.dfy` instantiates it with the seven-item transaction and
  the five-item preimage; `Hex.dfy` has the textual addresses.
* **Secure session** (`secure_transfer.cpp`). `Framing.dfy` has the length-prefixed send and receive
  loops over a socket that splits transfers as it likes; `Session.dfy` has the two-party session over
  bounded streams, as a state machine for the interleavings: either party may give up on a split
  length, and the other then finds its streams closed. `Programs.dfy` has one program per party and
  shows that its transfers, in their order, are those of the party in the state machine.

## How to read the model

* `u64` additions wrap modulo 2^64, as the release profile compiles them (`zyphra/Cargo.toml:52-56`
  asks for no overflow checks). Totals are stated exactly, with the number of additions that wrapped
  as a term, so conservation holds exactly when that number is 0; bounds on the minted or initial
  total appear only where they imply that it is. A debug build panics instead of wrapping;
  `ConcurrentLedger.NoOverflow` says when no balance does either, and
  `ConcurrentLedger.NonceOverflowIff` exactly when a nonce does.
* Keccak-256, SHA-256, Ed25519, P-256, PEM and AES-GCM are records of functions (`Crypto`, `Suite`).
  What is relied on is the predicate `Lawful` of each: no Keccak collisions, signatures verify under
  their key, public-key import inverts export, the shared secret is symmetric, opening inverts
  sealing. Digests are byte strings without a fixed length, so that freedom from collisions is not a
  contradiction; `Transaction.LawsAreSatisfiable` and `Session.LawsAreSatisfiable` exhibit
  primitives that meet the laws.
* The clock, the random IV and the random keys are parameters. A Rust error is an `Option` or a
  datatype case.
* A schedule, a run or a list of moves is a sequence; "every interleaving" is "every sequence".

## What the model shows about the code

* The ledger's claim that debit and credit are one atomic update (`zyphra/src/ledger.rs:8-9`) does not
  hold literally: `credit` and `register` take no lock and can run, and return, between the two
  (`ConcurrentWitness.HalfDoneIsVisible`). Where the log is a sequential run at all, its accounts are
  those of the state exactly while no transfer is half done (`ConcurrentLedger.HalfDoneIff`).
* It holds in the sense that matters to writers. Keeping registrations and credits at the step where
  they run, a finished interleaving is a sequential run with each transfer whole
  - at its credit, exactly if no transfer is credited after its amount has ceased to fit back into the
    sender's account (`ConcurrentLedger.LinearizableIff`), as when the minted total fits in a `u64`
    (`ConcurrentLedger.Linearizable`);
  - at its debit, exactly if no registration creates a receiver's account between debit and credit
    (`LedgerPlacement.LinearizableAtDebitIff`);
  - at some moment between, exactly if each transfer has a moment at which the amount fits back and
    after which no registration creates the receiver's account (`LedgerPlacement.PlaceableIff`).

  The program registers its account once, before its event loop (`zyphra/src/main.rs:124-125`), so all
  its interleavings of transfers and credits are sequential runs, whatever wraps
  (`LedgerPlacement.TransfersAndCreditsLinearizable`). With registrations between debit and credit
  there are runs that no order explains (`ConcurrentWitness.NoOrderExplains`).
* The direct branch credits without looking at the cache (`zyphra/src/main.rs:532-535`), and `send`
  hands every transaction both to all peers directly and to gossip (`zyphra/src/main.rs:347-366`). A
  recipient that hears of it by gossip first credits it twice (`Node.GossipThenDirectCreditsTwice`).
  `Node.CreditCount` is the exact number of credits.
* Neither receiving branch looks at the sender's funds (`zyphra/src/main.rs:475-483`,
  `zyphra/src/main.rs:526-535`), so a payment signed by a wallet outside the network is credited
  although nothing was sent (`NetworkWitness.OutsiderCredited`). As long as no credit wraps, the
  deliveries that keep the total are exactly those that keep the discipline on direct deliveries and
  bring nothing of value that no node sent (`Network.ConservationIff`).
* The module comment of `zyphra/src/wallet.rs:6-8` takes the first 20 bytes of the hash; the code takes
  the last 20 (`zyphra/src/wallet.rs:114-119`). The model follows the code.
* `sendData` gives up when the four length bytes are split (`secure_transfer.cpp:93-95`), although it
  allows any split of the data: on a socket that does not fail it succeeds exactly when they are not
  (`Framing.SendData`), and a session whose message is announced with its true length delivers it
  exactly when it fits and no length was split (`Session.MaximalRunDelivers`).
* A length of 2^32 or more is truncated. The receiver notices exactly when what is left of it is over
  the limit, and otherwise takes a shorter message (`Framing.OversizeWrapsAround`).

## Model

| member | source | states |
|---|---|---|
| `LedgerSpec.ApplyTotal` | zyphra/src/ledger.rs:84-198 | any whole operation changes the sum of balances by exactly what it mints, less 2^64 if its addition wraps; a transfer mints nothing, accepted or not |
| `LedgerSpec.SequentialTotal` | zyphra/src/ledger.rs:84-198 | after every sequential run the sum of balances is the initial sum plus what was minted, less 2^64 for every addition that wrapped |
| `LedgerSpec.SequentialConservation` | zyphra/src/ledger.rs:84-198 | a sequential run conserves exactly when none of its additions wraps, and none does if the minted total fits in a `u64` |
| `LedgerSpec.ConservationFailsOnOverflow` | zyphra/src/ledger.rs:193-198 | wrapping is real: a run that mints one unit more than a `u64` holds wraps once and ends with total 0 |
| `LedgerSpec.NonceOrder` | zyphra/src/ledger.rs:147-162 | over every run the accepted transfers of an account carry consecutive nonces and the stored nonce is the next one, whatever happens between |
| `LedgerSpec.NoReplay` | zyphra/src/ledger.rs:147-152 | no (sender, nonce) pair is accepted twice, exactly until the nonce has gone once round |
| `LedgerSpec.RefusalExact` | zyphra/src/ledger.rs:130-158 | which error a transfer gets, one condition per error: to itself, of nothing, no account, wrong nonce, too little, in this order and with what was found |
| `LedgerSpec.ReplayRefused` | zyphra/src/ledger.rs:147-152 | an accepted transfer done again at once is refused for its nonce, whatever is left in the account |
| `ConcurrentLedger.StepKeepsLocks` | zyphra/src/ledger.rs:139-178 | every step keeps: the lock and each shard are held by exactly the threads whose program point says so, and no thread holds two shards |
| `ConcurrentLedger.NoDeadlock` | zyphra/src/ledger.rs:139-178 | for every map of addresses to shards, some thread can move while any is unfinished |
| `ConcurrentLedger.RefusedWithoutLocks` | zyphra/src/ledger.rs:130-140 | a transfer to its own sender, or of nothing, is refused at once whatever is locked |
| `ConcurrentLedger.EntryOpCommutesWithPutBack` | zyphra/src/ledger.rs:160-198 | a registration or credit gives the same result, and leaves the same map, whether a half-done transfer is there or taken back, whatever wraps |
| `ConcurrentLedger.RedoPutBack` | zyphra/src/ledger.rs:147-178 | a transfer taken back can be done over exactly when its amount fits back into the sender's account, and then has the effect it had |
| `ConcurrentLedger.RunInvariant` | zyphra/src/ledger.rs:84-198 | every reachable state of every schedule keeps the lock discipline, the history, the nonces and the relation to the sequential run, with no bound on sizes |
| `ConcurrentLedger.LinearizableIff` | zyphra/src/ledger.rs:84-198 | a finished interleaving has the accounts and results of the sequential run with each successful transfer whole at its credit and each failed one at its check, in program order, exactly when no transfer was credited after its amount had ceased to fit back into the sender's account |
| `LedgerPlacement.EntryOpCommutesWithAddTo` | zyphra/src/ledger.rs:84-198 | a registration or credit gives the same result, and leaves the same map, whether the receiver of a transfer has been credited or not, except exactly a registration that creates the receiver's account |
| `LedgerPlacement.MarkedRunInvariant` | zyphra/src/ledger.rs:84-198 | with a moment marked for each transfer, the log in the marked order keeps program order and is a sequential run exactly if every mark fits and no registration creates the receiver's account after it |
| `LedgerPlacement.PlacedIff` | zyphra/src/ledger.rs:84-198 | exactly which marks explain a finished interleaving: same accounts, same results, program order |
| `LedgerPlacement.PlaceableIff` | zyphra/src/ledger.rs:84-198 | some marks do, exactly when every transfer has a moment between debit and credit at which its amount fits back and after which no registration creates its receiver's account |
| `LedgerPlacement.LinearizableAtDebitIff` | zyphra/src/ledger.rs:84-198 | the marks at the debits do, exactly when no registration creates a receiver's account between debit and credit |
| `LedgerPlacement.TransfersAndCreditsLinearizable` | zyphra/src/ledger.rs:123-198 | every interleaving of transfers and credits is a sequential run in program order, with no bound on sizes |
| `ConcurrentLedger.Linearizable` | zyphra/src/ledger.rs:84-198 | and so always when the minted total fits in a `u64` |
| `ConcurrentLedger.HalfDoneIff` | zyphra/src/ledger.rs:139-178 | in every reachable state whose log is a sequential run, its accounts are those of the state exactly when no transfer is half done |
| `ConcurrentWitness.HalfDoneIsVisible` | zyphra/src/ledger.rs:139-198 | for every admissible transfer and every registration or credit, the second can run and return between the debit and the credit of the first |
| `ConcurrentWitness.NoOrderExplains` | zyphra/src/ledger.rs:84-198 | a run without any wrapping addition that cannot be placed, and whose results no order of its operations gives |
| `ConcurrentWitness.PastReturnExplained` | zyphra/src/ledger.rs:84-198 | a run in which a transfer is credited after its amount has ceased to fit back, and which still is a sequential run |
| `ConcurrentLedger.LogOnlyGrows` | zyphra/src/ledger.rs:84-198 | that sequential order respects real time: in any state the log holds exactly what has returned or is about to, and it only grows |
| `ConcurrentLedger.ConservationInFlight` | zyphra/src/ledger.rs:139-198 | in every intermediate state balances plus the amount between debit and credit equal the initial sum plus what was minted, less 2^64 for every addition that wrapped; so exactly unless one wraps, and none does while the minted total fits |
| `ConcurrentLedger.OneInFlight` | zyphra/src/ledger.rs:139-178 | at most one transfer is between its debit and its credit |
| `ConcurrentLedger.NoOverflow` | zyphra/src/ledger.rs:166-198 | no balance addition any thread is about to make overflows while the minted total fits in a `u64` |
| `ConcurrentLedger.NonceOverflowIff` | zyphra/src/ledger.rs:160-163 | a debit overflows its sender's nonce exactly when it completes a full turn of the accepted transfers |
| `ConcurrentLedger.EveryScheduleFinishes` | zyphra/src/ledger.rs:139-178 | every schedule is bounded by the work in the programs, and one that cannot be continued has finished them all |
| `ConcurrentLedger.ConcurrentNonceOrder` | zyphra/src/ledger.rs:147-178 | under every interleaving, whatever wraps: consecutive accepted nonces, a stored nonce that counts them and the transfer in flight, no replay exactly until the counter has gone once round |
| `LedgerObject.Ledger.constructor` | zyphra/src/ledger.rs:74-79 | a new ledger has no accounts |
| `LedgerObject.Ledger.Register` | zyphra/src/ledger.rs:84-101 | creates the account with its balance and nonce 0 exactly when it is absent, and otherwise changes nothing |
| `LedgerObject.Ledger.Balance` | zyphra/src/ledger.rs:104-106 | the balance of an existing account, none otherwise |
| `LedgerObject.Ledger.Nonce` | zyphra/src/ledger.rs:109-111 | the next nonce of an existing account, none otherwise |
| `LedgerObject.Ledger.Transfer` | zyphra/src/ledger.rs:123-188 | accepted exactly under the five conditions and refused with each error exactly under its own; accepted, both entries change as promised and no other does; refused, nothing changes |
| `LedgerObject.Ledger.Credit` | zyphra/src/ledger.rs:193-198 | adds to the balance or creates the account, keeps its nonce, and touches no other |
| `LedgerObject.Ledger.Snapshot` | zyphra/src/ledger.rs:201-209 | one entry per account, under its own name and with its state, and no other entry |
| `Hex.DecodeExact` | zyphra/src/wallet.rs:132-134 | a text decodes to given bytes exactly when it spells their encoding in some mix of cases |
| `Hex.EncodeDigits` | zyphra/src/wallet.rs:82-84 | each byte is two lower-case digits, the high one first |
| `Hex.RenderInjective` | zyphra/src/wallet.rs:82-84 | different byte strings render to different texts |
| `Hex.AddressFromHexExact` | zyphra/src/wallet.rs:132-144 | a text parses to an address exactly when it is its hexadecimal, after one optional prefix and up to case |
| `Hex.AddressRoundTrip` | zyphra/src/wallet.rs:82-144 | parsing inverts rendering with and without the prefix |
| `Rlp.StringExact` | zyphra/src/transaction.rs:158-179 | reading a string item succeeds exactly on its one canonical encoding |
| `Rlp.UintExact` | zyphra/src/transaction.rs:163-177 | the same for every `u64`, zero and one-byte values included |
| `Rlp.ListExact` | zyphra/src/transaction.rs:150-173 | the same for a list and whatever follows it, on both sides of the 55-byte boundary |
| `Rlp.PrefixBytes` | zyphra/src/transaction.rs:150-169 | the prefix bytes: 0x80 and 0xb7 for strings, 0xc0 and 0xf7 for lists, one byte up to length 55 |
| `Rlp.StringBytes` | zyphra/src/transaction.rs:158-167 | the bytes of a string item: a byte below 0x80 stands for itself, anything else follows its prefix |
| `Rlp.BigEndianDigits` | zyphra/src/transaction.rs:163-165 | numbers stand with the most significant byte first and no leading zero |
| `Transaction.PayloadLengths` | zyphra/src/transaction.rs:120-169 | the five-item payload has 45 to 69 bytes, the seven-item payload 99 more |
| `Transaction.DecodeExact` | zyphra/src/transaction.rs:149-203 | exactly which byte strings decode to a transaction: its canonical items at the front of a list, then anything |
| `Transaction.DecodeByItems` | zyphra/src/transaction.rs:171-203 | a byte string decodes to a transaction exactly when its items at 0 to 6 are sender, recipient, the minimal big-endian amount, nonce and timestamp, public key and signature |
| `Transaction.EncodeItems` | zyphra/src/transaction.rs:158-169 | those are the items of an encoding, by index |
| `Transaction.PreimageItems` | zyphra/src/transaction.rs:120-134 | the items of the preimage, by index: the five unsigned fields and no more |
| `Transaction.RoundTrip` | zyphra/src/transaction.rs:145-203 | decoding an encoding gives the transaction back |
| `Transaction.PreimageInjective` | zyphra/src/transaction.rs:120-134 | the signed preimage determines all five signed fields |
| `Transaction.PreimageIsNoTransaction` | zyphra/src/transaction.rs:120-197 | no preimage decodes as a transaction, so none equals an encoding |
| `Transaction.AppendUnsigned` | zyphra/src/transaction.rs:128-165 | the five shared appends extend the stream by exactly the unsigned items |
| `Transaction.RlpAppend` | zyphra/src/transaction.rs:158-169 | the appending stream builds an encoding that has the seven items by index and decodes to the transaction |
| `Transaction.UnsignedStream` | zyphra/src/transaction.rs:120-134 | the stream that is hashed is the preimage and has the five fields as its items |
| `Transaction.SignedString` | zyphra/src/transaction.rs:55-134 | what `create` signs is the hash of a string whose five items are the signed fields |
| `Transaction.VerifiedExact` | zyphra/src/transaction.rs:86-113 | verification asks exactly for a usable key, the sender in the last 20 bytes of the key's hash, and a signature of that hash |
| `Transaction.AddressBytes` | zyphra/src/wallet.rs:114-119 | the address is bytes 12 to 31 of the key's hash |
| `Transaction.CreatedVerifiesOverWire` | zyphra/src/transaction.rs:55-113 | a created transaction verifies after crossing the wire, whatever was appended there |
| `Transaction.TamperNeedsForgery` | zyphra/src/transaction.rs:86-113 | a created transaction with any signed field changed verifies exactly if the sender is unchanged and its signature also covers a different digest |
| `Transaction.TxIdInjective` | zyphra/src/transaction.rs:137-140 | different transactions have different ids |
| `Transaction.TxIdIsHash` | zyphra/src/transaction.rs:137-140 | the id is `0x` and the hexadecimal of the hash of the encoding |
| `Transaction.SameIdIffSameTransaction` | zyphra/src/transaction.rs:137-153 | two wire strings have the same id exactly when they decode to the same transaction, padding or not |
| `TxScheme.ZyphraBuilds` | zyphra/src/transaction.rs:55-75 | in the program's scheme the node builds exactly the transaction `create` makes |
| `TxScheme.ZyphraIsLawful` | zyphra/src/transaction.rs:55-203 | the program's scheme keeps the laws the node relies on, given lawful primitives: ids tell transactions apart, decoding inverts encoding, own transactions verify |
| `Node.CreditCount` | zyphra/src/main.rs:465-551 | over every run, a verified transaction addressed to the node is credited once per direct delivery, and once more exactly when it was unknown and its first delivery was gossip |
| `Node.AtMostOnceIff` | zyphra/src/main.rs:465-551 | exactly which delivery orders credit a transaction at most once |
| `Node.GossipThenDirectCreditsTwice` | zyphra/src/main.rs:532-535 | gossip followed by direct delivery credits twice |
| `Node.LedgerIsHistory` | zyphra/src/main.rs:124-551 | in every reachable state own balance, own nonce and every other account are the stated functions of what was sent and credited |
| `Node.CacheIsHistory` | zyphra/src/main.rs:341-535 | in every reachable state the cache holds exactly the ids of what was known, sent, heard by gossip, or accepted directly |
| `Node.PeersAreHistory` | zyphra/src/main.rs:245-267 | in every reachable state the connected peers are exactly those whose last connection event opened one |
| `Node.SendOutcome` | zyphra/src/main.rs:303-342 | in every reachable state a send is refused for an address that does not parse and for exactly three more reasons, never for its nonce, a missing account or its signature; accepted, it carries the next nonce |
| `Node.SentAreDistinct` | zyphra/src/main.rs:324-366 | whatever the clock says, the broadcasts of a node have different encodings and ids |
| `Node.GossipRun` | zyphra/src/main.rs:465-499 | a gossip-only run ends in the state given by the set of transactions delivered, each new one credited once |
| `Node.GossipConfluence` | zyphra/src/main.rs:465-499 | order, repetition and padding of gossip do not matter |
| `NodeObject.Process.constructor` | zyphra/src/main.rs:124-180 | a node starts with its own account, an empty cache and no peers |
| `NodeObject.Process.HandleSend` | zyphra/src/main.rs:303-389 | the send branch: state and effect as specified, one request per connected peer and one publication exactly when sent |
| `NodeObject.Process.RequestAll` | zyphra/src/main.rs:349-359 | the loop over the peers makes one request to each and no other |
| `NodeObject.Process.HandleGossip` | zyphra/src/main.rs:457-504 | the gossip branch: state and effect as specified, nothing sent |
| `NodeObject.Process.HandleDirect` | zyphra/src/main.rs:507-567 | the direct branch: one response, accepting exactly when credited, with the transaction's id |
| `NodeObject.Process.HandleConnection` | zyphra/src/main.rs:245-267 | opening a connection inserts the peer and closing removes it, and nothing is sent |
| `NodeObject.Process.Handle` | zyphra/src/main.rs:197-283 | one event: state and effect as specified, and exactly the messages of that event |
| `NodeObject.Process.EventLoop` | zyphra/src/main.rs:197-283 | the event loop brings the process to the state of the specified run and hands over one batch per event, in order: a request per peer connected then and a publication for a send, one answer for a direct delivery, nothing else |
| `NodeObject.EmittedMessages` | zyphra/src/main.rs:347-567 | so the publications of a run are the encodings of what was sent and the answers those of the direct deliveries, each in order and without any other |
| `NodeObject.Live` | zyphra/src/main.rs:124-283 | the process from its start: after any events its ledger, cache and peers are the prescribed functions of what it sent, credited and heard, and its outbox is what it sent and answered |
| `Network.NetTotal` | zyphra/src/main.rs:303-551 | after every run at all, own balances are the initial ones less sends plus credits, less 2^64 for every credit that wrapped |
| `Network.ConservationModulo` | zyphra/src/main.rs:303-551 | so the law holds modulo 2^64 without any condition |
| `Network.ReceivedAtRecipient` | zyphra/src/main.rs:482-535 | a transaction is credited at the node it is addressed to and nowhere else |
| `Network.NetCredits` | zyphra/src/main.rs:465-551 | the credits of any verified transaction in the whole network, counted by the deliveries its recipient saw |
| `Network.BalanceSheet` | zyphra/src/main.rs:303-551 | over every run at all: own balances, and what was sent beyond what was credited, equal initial balances, and what was credited beyond what was sent, less 2^64 per wrapped credit |
| `Network.BalanceSheetItems` | zyphra/src/main.rs:303-551 | the same with the items apart: uncredited sends, repeated credits of sent transactions, credits of transactions that no node sent |
| `Network.WithinSentIff` | zyphra/src/main.rs:465-551 | nothing is credited beyond what was sent exactly when the deliveries of each transaction credit it no more often than it was sent |
| `Network.WithinSentByKind` | zyphra/src/main.rs:465-551 | which is: sent transactions come directly at most once and not after gossip, and nothing of value is delivered that no node sent |
| `Network.Conservation` | zyphra/src/main.rs:303-551 | in a closed network under that discipline own balances plus amounts under way always equal initial balances, under any loss, reordering and gossip duplication, and no credit wraps |
| `Network.ConservationIff` | zyphra/src/main.rs:303-551 | and only then: if no credit wraps, the total is conserved exactly under the discipline and without outsiders; in general exactly when the excess is 2^64 per wrapped credit |
| `NetworkWitness.OutsiderCredited` | zyphra/src/main.rs:516-551 | a payment signed by a wallet of no node is credited although nothing was sent, in a run that keeps the discipline |
| `NetworkWitness.PaymentConserves` | zyphra/src/main.rs:303-499 | any two nodes of any valid network have a payment that meets all hypotheses of conservation |
| `NetworkWitness.LawfulNetwork` | zyphra/src/transaction.rs:55-203 | there is a valid network of two nodes under the program's own scheme |
| `Framing.UnframeFrame` | secure_transfer.cpp:90-128 | for data of every length: the announced length is the true one modulo 2^32, and that much is refused or taken off the stream |
| `Framing.FrameRoundTrip` | secure_transfer.cpp:90-128 | the front message comes off a stream as it was framed exactly when it is within 10 MiB |
| `Framing.OversizeWrapsAround` | secure_transfer.cpp:92-118 | an oversized message is noticed exactly when its length modulo 2^32 is over the limit; otherwise a shorter one is received |
| `Framing.LengthDigits` | secure_transfer.cpp:92-113 | a length is four bytes, the least significant first |
| `Framing.Socket.Send` | secure_transfer.cpp:93-103 | a send moves any number of bytes up to those offered |
| `Framing.Socket.Recv` | secure_transfer.cpp:123-125 | a receive moves any number of bytes up to those wanted and there |
| `Framing.Socket.RecvAll` | secure_transfer.cpp:111-113 | a waiting receive moves all that was wanted unless the stream ends or fails |
| `Framing.SendData` | secure_transfer.cpp:90-105 | for every split, success puts exactly one frame on the wire and failure a proper part of it, piece by piece from its front; a reliable socket succeeds exactly when the length was not split |
| `Framing.ReceiveData` | secure_transfer.cpp:108-128 | for every split, the result is the message at the front and exactly its bytes are taken, never more than it needs; on a reliable socket the errors are exact too |
| `Framing.ReceiveAll` | secure_transfer.cpp:108-128 | repeated receives return the framed sequence and stop at its last byte |
| `Framing.SendAll` | secure_transfer.cpp:90-105 | repeated sends put the frames of the sequence on the wire, or a proper part of them; on a reliable socket all of them exactly when no length was split |
| `Framing.SendThenReceive` | secure_transfer.cpp:90-128 | end to end, over every splitting of sends and receives, what is received is what was sent, exactly when no length was split |
| `Session.DecryptEncrypt` | secure_transfer.cpp:161-263 | decryption cuts IV, ciphertext and tag where encryption joined them, for every message |
| `Session.BlobLayout` | secure_transfer.cpp:161-263 | the blob is 12 bytes of IV, the ciphertext and 16 bytes of tag, and decryption opens exactly these parts |
| `Session.SharedKeyBytes` | secure_transfer.cpp:488-490 | the session key is the first 32 bytes of the shared secret, as either party computes it |
| `Session.ReceivedWhole` | secure_transfer.cpp:115-128 | a message announced with its true length is received exactly when it is within 10 MiB less 28 bytes |
| `Session.NeedIsUnframe` | secure_transfer.cpp:108-128 | reading piece by piece as the session does is taking the front message off the stream, errors included |
| `Session.RunKeepsInv` | secure_transfer.cpp:455-635 | in every reachable state taken, under-way and unsent bytes of each direction make up exactly what is to be sent |
| `Session.SplitHappens` | secure_transfer.cpp:93-95 | in every session a length can be split, and the party then fails |
| `Session.Agreement` | secure_transfer.cpp:455-635 | in every run, for messages of every length, both parties derive the same key and a finished receiver has what the last frame gives, which is exactly the message unless its frame announces too little; a party fails only on a refused or cut-short message or a split length, and after a split neither finishes |
| `Session.NoDeadlock` | secure_transfer.cpp:455-635 | no reachable state is stuck before both have ended: some party can move without giving up, for messages of every length and down to one-byte buffers |
| `Session.StepWorks` | secure_transfer.cpp:90-128 | every move decreases remaining bytes plus protocol steps |
| `Session.RunsAreFinite` | secure_transfer.cpp:455-635 | every run is bounded by the initial work |
| `Session.MaximalRunDelivers` | secure_transfer.cpp:455-635 | a run continued until no party can move, except to give up, has ended both parties, and, unless its frame announces too little, has delivered the message exactly when it fits and no length was split |
| `Session.CanDeliver` | secure_transfer.cpp:455-635 | every run of a session whose message fits, as long as no length was split, can be continued to the delivery |
| `SessionPrograms.TransferIsMove` | secure_transfer.cpp:455-635 | a transfer a party can make is a move of the session, given room or bytes in its stream |
| `SessionPrograms.RunIsTransfers` | secure_transfer.cpp:455-635 | a run of the session is, seen from either party, a row of transfers that the party makes, and brings it where the session is |
| `SessionPrograms.KeyGoesFirst` | secure_transfer.cpp:466-477 | whatever transfers the receiver makes, no byte is taken before its whole key is out |
| `SessionPrograms.KeyComesFirst` | secure_transfer.cpp:590-601 | whatever transfers the sender makes, nothing is sent before the peer's whole key is taken |
| `SessionPrograms.HandleClient` | secure_transfer.cpp:455-517 | the call makes the receiver's transfers and ends it exactly if it returns a result, which is what its stream says; on a reliable socket its key is out and its result exact unless its length was split |
| `SessionPrograms.PerformSecureTransfer` | secure_transfer.cpp:578-635 | the call makes the sender's transfers and ends it exactly if it completes; then it has taken exactly the peer's key and sent exactly its key and the encrypted message; on a reliable socket it completes exactly when there is a usable key and no length was split |
| `SessionPrograms.OutcomeOfTransfer` | secure_transfer.cpp:455-635 | fed with the sender's bytes, for messages of every length, the receiver gets the sender's key and what the last frame gives; the message, exactly when it fits, unless its frame announces too little |

## Left out

- Readers that look twice (`balance` then `balance`, or `snapshot` during a transfer): they take no lock, so equivalence is claimed for writers; the snapshot is a single call.
- Reading by index in the RLP crate: the crate is not part of the repository; the reader follows the standard, ignores what comes after the seventh item as the indexed calls do, and tells success from failure only.
- Nodes restarted with a restored key: the ledger lives in memory, so a run is one process lifetime.
- Splitting the command line and parsing the amount: a send command starts with its hexadecimal address and a `u64`.
- `balance`, `peers`, `info`, `ledger` and `help` commands, logging and printing: they change nothing.
- The texts of error messages and of the `reason` field of a response.
- `zyphra/src/network.rs` (libp2p, Kademlia, mDNS, Identify, Noise, Yamux): library configuration; gossip and requests are delivery events.
- The internals of the cryptographic primitives: they enter through the laws stated above.
- Unforgeability of Ed25519: nothing rests on it; whether a delivered transaction was sent is a condition on the run (`Network.NoOutsiders`).
- Socket creation, bind, connect and retries: sessions run over established streams, which end only when a party does.
- `crypto_core.cpp`: a single-process demonstration of the same blob layout.
- Session.Agreement: of a message of 2^32 - 28 bytes or more, whose frame is announced too short, it says that the receiver gets what opening the announced part of the blob gives; whether opening refuses that part is not among the laws of the primitives.
- LedgerPlacement.PlaceableIff: is exact for orders that keep registrations and credits at the step where they run; orders that move those as well are not characterised.
- Session.NoDeadlock: the length may go out in pieces, as a blocking send does it, and the sending party may give up at any moment while only a part of it is out; errors of the network itself are not modelled.
- Network.BalanceSheetItems: assumes that no node has sent more than 2^64 transactions, so that nonces tell them apart; `Network.BalanceSheet` and `Network.WithinSentIff` hold without that.
