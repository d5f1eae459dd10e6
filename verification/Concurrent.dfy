/** The ledger under concurrency: any number of threads run `register`, `credit` and `transfer`
    over a sharded map whose shard guards and transfer lock are taken and released one at a time.
    A schedule is a sequence of thread ids; every interleaving is a schedule. */
module ConcurrentLedger {
  import opened Common
  import opened LedgerSpec

  /** Where a thread stands inside its current operation. */
  datatype Pc =
    | Ready                         // between operations
    | AtEntry                       // register/credit: holds the entry's shard
    | WantLock                      // transfer: pre-checks passed
    | Locked                        // transfer: holds the transfer lock
    | AtSender                      // transfer: also holds the sender's shard
    | Debited                       // transfer: sender debited, its shard released
    | AtReceiver                    // transfer: also holds the receiver's shard
    | Unlocking(result: Outcome)    // transfer: result known, lock still held

  datatype Completed = Completed(op: Op, outcome: Outcome)

  datatype Thread = Thread(todo: seq<Op>, pc: Pc, finished: seq<Completed>)

  /** `log` is a history variable: an operation enters it at the step where it takes effect. */
  datatype State = State(accounts: Accounts, lock: Option<nat>, shards: map<nat, nat>,
                         threads: seq<Thread>, log: seq<Event>)

  function Initial(accounts: Accounts, programs: seq<seq<Op>>): State {
    State(accounts, None, map[], seq(|programs|, i requires 0 <= i < |programs| => Thread(programs[i], Ready, [])), [])
  }

  function MoveTo(s: State, t: nat, pc: Pc): State
    requires t < |s.threads|
  {
    s.(threads := s.threads[t := s.threads[t].(pc := pc)])
  }

  function TakeShard(s: State, t: nat, k: nat, pc: Pc): Option<State>
    requires t < |s.threads|
  {
    if k in s.shards then None else Some(MoveTo(s, t, pc).(shards := s.shards[k := t]))
  }

  /** Return from the current operation with a result. */
  function Return(s: State, t: nat, outcome: Outcome): State
    requires t < |s.threads| && s.threads[t].todo != []
  {
    var th := s.threads[t];
    s.(threads := s.threads[t := Thread(th.todo[1..], Ready, th.finished + [Completed(th.todo[0], outcome)])])
  }

  function Record(s: State, t: nat, op: Op, outcome: Outcome): State {
    s.(log := s.log + [Event(t, op, outcome)])
  }

  /** The next step of thread `t`, or none when it is blocked or has nothing left to do. */
  function Step(shardOf: Address -> nat, s: State, t: nat): Option<State>
    requires t < |s.threads|
  {
    var th := s.threads[t];
    if th.todo == [] then None
    else
      var op := th.todo[0];
      match th.pc
      case Ready =>
        if !op.Transfer? then TakeShard(s, t, shardOf(op.address), AtEntry)
        else if PreCheck(op).Some? then
          var r := Rejected(PreCheck(op).value);
          Some(Return(Record(s, t, op, r), t, r))
        else Some(MoveTo(s, t, WantLock))
      case AtEntry =>
        if op.Transfer? then None
        else
          var (accounts, r) := Apply(op, s.accounts);
          Some(Return(Record(s, t, op, r), t, r).(accounts := accounts, shards := s.shards - {shardOf(op.address)}))
      case WantLock =>
        if s.lock.Some? then None else Some(MoveTo(s, t, Locked).(lock := Some(t)))
      case Locked =>
        if op.Transfer? then TakeShard(s, t, shardOf(op.from), AtSender) else None
      case AtSender =>
        if !op.Transfer? then None
        else
          var released := s.shards - {shardOf(op.from)};
          (match SenderCheck(s.accounts, op)
           case Some(e) =>
             Some(MoveTo(Record(s, t, op, Rejected(e)), t, Unlocking(Rejected(e))).(shards := released))
           case None =>
             Some(MoveTo(s, t, Debited).(accounts := Debit(s.accounts, op), shards := released)))
      case Debited =>
        if op.Transfer? then TakeShard(s, t, shardOf(op.to), AtReceiver) else None
      case AtReceiver =>
        if !op.Transfer? then None
        else
          Some(MoveTo(Record(s, t, op, Accepted), t, Unlocking(Accepted))
               .(accounts := AddTo(s.accounts, op.to, op.amount), shards := s.shards - {shardOf(op.to)}))
      case Unlocking(r) =>
        Some(Return(s, t, r).(lock := None))
  }

  /** The state a schedule reaches, or none when it schedules a thread that cannot move. */
  function Run(shardOf: Address -> nat, s: State, schedule: seq<nat>): Option<State> {
    if schedule == [] then Some(s)
    else
      match Run(shardOf, s, schedule[..|schedule| - 1])
      case None => None
      case Some(mid) =>
        var t := schedule[|schedule| - 1];
        if t < |mid.threads| then Step(shardOf, mid, t) else None
  }

  // ---------------------------------------------------------------- lock discipline

  predicate HoldsLock(pc: Pc) {
    pc.Locked? || pc.AtSender? || pc.Debited? || pc.AtReceiver? || pc.Unlocking?
  }

  /** The one shard a thread holds, if any. */
  function Holding(shardOf: Address -> nat, th: Thread): Option<nat> {
    if th.todo == [] then None
    else if th.pc.AtEntry? && !th.todo[0].Transfer? then Some(shardOf(th.todo[0].address))
    else if th.pc.AtSender? && th.todo[0].Transfer? then Some(shardOf(th.todo[0].from))
    else if th.pc.AtReceiver? && th.todo[0].Transfer? then Some(shardOf(th.todo[0].to))
    else None
  }

  predicate ThreadOk(th: Thread) {
    && (th.pc.Ready? || th.todo != [])
    && (th.pc.AtEntry? ==> !th.todo[0].Transfer?)
    && (!th.pc.Ready? && !th.pc.AtEntry? ==> th.todo[0].Transfer? && PreCheck(th.todo[0]).None?)
  }

  ghost predicate LockOwned(s: State) {
    && (forall t :: 0 <= t < |s.threads| ==> ThreadOk(s.threads[t]))
    && (forall t :: 0 <= t < |s.threads| ==> (HoldsLock(s.threads[t].pc) <==> s.lock == Some(t)))
    && (s.lock.Some? ==> s.lock.value < |s.threads|)
  }

  ghost predicate ShardsOwned(shardOf: Address -> nat, s: State) {
    && (forall k :: k in s.shards ==> s.shards[k] < |s.threads| && Holding(shardOf, s.threads[s.shards[k]]) == Some(k))
    && (forall t :: 0 <= t < |s.threads| && Holding(shardOf, s.threads[t]).Some? ==>
          var k := Holding(shardOf, s.threads[t]).value; k in s.shards && s.shards[k] == t)
  }

  /** Who holds what: the lock and every shard are held by exactly the threads whose program
      point says so. `Holding` is a single option, so no thread holds two shards. */
  ghost predicate LocksOk(shardOf: Address -> nat, s: State) {
    LockOwned(s) && ShardsOwned(shardOf, s)
  }

  /** What a step does to the locks, seen from the thread that makes it: it takes one free shard,
      or releases the one it holds, or takes or releases the lock, and touches no other thread. */
  ghost predicate LockMove(shardOf: Address -> nat, s: State, t: nat, s': State)
    requires t < |s.threads|
  {
    && |s'.threads| == |s.threads| && s'.threads == s.threads[t := s'.threads[t]]
    && ThreadOk(s'.threads[t])
    && (s'.lock == s.lock || (s.lock.None? && s'.lock == Some(t)) || (s.lock == Some(t) && s'.lock.None?))
    && (HoldsLock(s'.threads[t].pc) <==> s'.lock == Some(t))
    && match (Holding(shardOf, s.threads[t]), Holding(shardOf, s'.threads[t]))
       case (None, None) => s'.shards == s.shards
       case (None, Some(k)) => k !in s.shards && s'.shards == s.shards[k := t]
       case (Some(k), None) => s'.shards == s.shards - {k}
       case (Some(_), Some(_)) => false
  }

  lemma StepIsLockMove(shardOf: Address -> nat, s: State, t: nat)
    requires t < |s.threads| && ThreadOk(s.threads[t]) && Step(shardOf, s, t).Some?
    requires HoldsLock(s.threads[t].pc) <==> s.lock == Some(t)
    ensures LockMove(shardOf, s, t, Step(shardOf, s, t).value)
  {
    hide Apply, AddTo, Debit, SenderCheck;
  }

  lemma LockMoveKeepsLock(shardOf: Address -> nat, s: State, t: nat, s': State)
    requires LockOwned(s) && t < |s.threads| && LockMove(shardOf, s, t, s')
    ensures LockOwned(s')
  {
  }

  lemma LockMoveKeepsShards(shardOf: Address -> nat, s: State, t: nat, s': State)
    requires ShardsOwned(shardOf, s) && t < |s.threads| && LockMove(shardOf, s, t, s')
    ensures ShardsOwned(shardOf, s')
  {
    forall u | 0 <= u < |s'.threads| && Holding(shardOf, s'.threads[u]).Some?
      ensures var k := Holding(shardOf, s'.threads[u]).value; k in s'.shards && s'.shards[k] == u
    {
      assert u == t || s'.threads[u] == s.threads[u];
    }
  }

  lemma StepKeepsLocks(shardOf: Address -> nat, s: State, t: nat)
    requires LocksOk(shardOf, s) && t < |s.threads| && Step(shardOf, s, t).Some?
    ensures LocksOk(shardOf, Step(shardOf, s, t).value)
  {
    StepIsLockMove(shardOf, s, t);
    LockMoveKeepsLock(shardOf, s, t, Step(shardOf, s, t).value);
    LockMoveKeepsShards(shardOf, s, t, Step(shardOf, s, t).value);
  }

  /** A thread that still has work to do. */
  predicate Unfinished(th: Thread) {
    th.todo != []
  }

  /** No lock state is stuck: while any thread is unfinished, some thread can move. */
  lemma NoDeadlock(shardOf: Address -> nat, s: State)
    requires LocksOk(shardOf, s) && exists t :: 0 <= t < |s.threads| && Unfinished(s.threads[t])
    ensures exists t :: 0 <= t < |s.threads| && Step(shardOf, s, t).Some?
  {
    if k :| k in s.shards {
      assert Step(shardOf, s, s.shards[k]).Some?;
    } else if s.lock.Some? {
      assert HoldsLock(s.threads[s.lock.value].pc);
      assert Step(shardOf, s, s.lock.value).Some?;
    } else {
      var t :| 0 <= t < |s.threads| && Unfinished(s.threads[t]);
      assert !HoldsLock(s.threads[t].pc);
      assert Step(shardOf, s, t).Some?;
    }
  }

  /** A transfer to its own sender, or of nothing, is refused at once, whatever is locked. */
  lemma RefusedWithoutLocks(shardOf: Address -> nat, s: State, t: nat)
    requires t < |s.threads| && s.threads[t].pc.Ready? && s.threads[t].todo != []
    requires var op := s.threads[t].todo[0]; op.Transfer? && (op.from == op.to || op.amount == 0)
    ensures var op, s' := s.threads[t].todo[0], Step(shardOf, s, t);
            && s'.Some? && s'.value.lock == s.lock && s'.value.shards == s.shards && s'.value.accounts == s.accounts
            && s'.value.threads[t].finished == s.threads[t].finished +
                 [Completed(op, Rejected(if op.from == op.to then SelfTransfer else ZeroValue))]
  {
  }

  // ---------------------------------------------------------------- termination of every schedule

  function Progress(pc: Pc): nat {
    match pc
    case Ready => 0
    case AtEntry => 1
    case WantLock => 1
    case Locked => 2
    case AtSender => 3
    case Debited => 4
    case AtReceiver => 5
    case Unlocking(_) => 6
  }

  function Work(th: Thread): int {
    7 * |th.todo| - Progress(th.pc)
  }

  function TotalWork(threads: seq<Thread>): int {
    if threads == [] then 0 else Work(threads[0]) + TotalWork(threads[1..])
  }

  lemma {:induction false} TotalWorkUpdate(threads: seq<Thread>, t: nat, th: Thread)
    requires t < |threads|
    ensures TotalWork(threads[t := th]) == TotalWork(threads) - Work(threads[t]) + Work(th)
  {
    if t == 0 {
      assert threads[0 := th][1..] == threads[1..];
    } else {
      assert threads[t := th][1..] == threads[1..][t - 1 := th];
      TotalWorkUpdate(threads[1..], t - 1, th);
    }
  }

  lemma {:induction false} TotalWorkNonNegative(threads: seq<Thread>)
    requires forall t :: 0 <= t < |threads| ==> ThreadOk(threads[t])
    ensures 0 <= TotalWork(threads)
  {
    if threads != [] {
      assert ThreadOk(threads[0]);
      assert forall t :: 0 <= t < |threads[1..]| ==> threads[1..][t] == threads[t + 1];
      TotalWorkNonNegative(threads[1..]);
    }
  }

  lemma StepAdvancesThread(shardOf: Address -> nat, s: State, t: nat)
    requires t < |s.threads| && Step(shardOf, s, t).Some?
    ensures var s' := Step(shardOf, s, t).value;
            && |s'.threads| == |s.threads| && s'.threads == s.threads[t := s'.threads[t]]
            && Work(s'.threads[t]) < Work(s.threads[t])
  {
    hide Apply, AddTo, Debit, SenderCheck, PreCheck;
    var s' := Step(shardOf, s, t).value;
    if |s'.threads[t].todo| < |s.threads[t].todo| {
      assert Work(s'.threads[t]) == 7 * |s.threads[t].todo| - 7;
    }
  }

  lemma StepWorks(shardOf: Address -> nat, s: State, t: nat)
    requires t < |s.threads| && Step(shardOf, s, t).Some?
    ensures TotalWork(Step(shardOf, s, t).value.threads) < TotalWork(s.threads)
  {
    hide Step, Work;
    StepAdvancesThread(shardOf, s, t);
    TotalWorkUpdate(s.threads, t, Step(shardOf, s, t).value.threads[t]);
  }

  // ---------------------------------------------------------------- history

  /** The operations of thread `t` in the log, with their results. */
  function Project(log: seq<Event>, t: nat): seq<Completed> {
    if log == [] then []
    else
      var e := log[|log| - 1];
      Project(log[..|log| - 1], t) + if e.tid == t then [Completed(e.op, e.outcome)] else []
  }

  lemma ProjectSnoc(log: seq<Event>, e: Event, t: nat)
    ensures Project(log + [e], t) == Project(log, t) + if e.tid == t then [Completed(e.op, e.outcome)] else []
  {
    assert (log + [e])[..|log|] == log;
  }

  function Pending(th: Thread): seq<Completed> {
    if th.pc.Unlocking? && th.todo != [] then [Completed(th.todo[0], th.pc.result)] else []
  }

  function Ops(cs: seq<Completed>): seq<Op> {
    seq(|cs|, i requires 0 <= i < |cs| => cs[i].op)
  }

  /** The log holds exactly the operations that took effect, each thread's in program order
      and with the results the thread gets. */
  ghost predicate HistoryOk(programs: seq<seq<Op>>, s: State) {
    && |s.threads| == |programs|
    && (forall t :: 0 <= t < |programs| ==> Ops(s.threads[t].finished) + s.threads[t].todo == programs[t])
    && (forall t :: 0 <= t < |programs| ==> Project(s.log, t) == s.threads[t].finished + Pending(s.threads[t]))
  }

  function AsCompleted(events: seq<Event>): seq<Completed> {
    seq(|events|, i requires 0 <= i < |events| => Completed(events[i].op, events[i].outcome))
  }

  /** What a step does to the history: it may log one event of its own thread, and what the
      thread has finished or is about to return grows by exactly what was logged. */
  ghost predicate HistoryMove(s: State, t: nat, s': State)
    requires t < |s.threads|
  {
    && |s'.threads| == |s.threads| && s'.threads == s.threads[t := s'.threads[t]]
    && s.log <= s'.log
    && var logged := s'.log[|s.log|..];
    && |logged| <= 1 && (logged != [] ==> logged[0].tid == t)
    && var th, th' := s.threads[t], s'.threads[t];
    && th'.finished + Pending(th') == th.finished + Pending(th) + AsCompleted(logged)
    && Ops(th'.finished) + th'.todo == Ops(th.finished) + th.todo
  }

  lemma ReturnKeepsProgram(th: Thread, outcome: Outcome)
    requires th.todo != []
    ensures Ops(th.finished + [Completed(th.todo[0], outcome)]) + th.todo[1..] == Ops(th.finished) + th.todo
  {
    assert th.todo == [th.todo[0]] + th.todo[1..];
    assert Ops(th.finished + [Completed(th.todo[0], outcome)]) == Ops(th.finished) + [th.todo[0]];
  }

  lemma LoggedOne(log: seq<Event>, e: Event)
    ensures log <= log + [e] && (log + [e])[|log|..] == [e]
    ensures AsCompleted([e]) == [Completed(e.op, e.outcome)] && AsCompleted(log[|log|..]) == []
  {
  }

  /** The two ways a step changes the history: an operation takes effect, or it returns. */
  lemma EffectIsHistoryMove(s: State, t: nat, s': State, outcome: Outcome)
    requires t < |s.threads| && s.threads[t].todo != []
    requires var op := s.threads[t].todo[0];
             && s'.log == s.log + [Event(t, op, outcome)]
             && !s.threads[t].pc.Unlocking?
             && (s'.threads == Return(s, t, outcome).threads || s'.threads == MoveTo(s, t, Unlocking(outcome)).threads)
    ensures HistoryMove(s, t, s')
  {
    LoggedOne(s.log, Event(t, s.threads[t].todo[0], outcome));
    ReturnKeepsProgram(s.threads[t], outcome);
  }

  lemma SilentIsHistoryMove(s: State, t: nat, s': State)
    requires t < |s.threads| && s.threads[t].todo != [] && s'.log == s.log
    requires var pc := s.threads[t].pc;
             if pc.Unlocking? then s'.threads == Return(s, t, pc.result).threads
             else
               && |s'.threads| == |s.threads| && !s'.threads[t].pc.Unlocking?
               && s'.threads == MoveTo(s, t, s'.threads[t].pc).threads
    ensures HistoryMove(s, t, s')
  {
    var th := s.threads[t];
    assert s.log[|s.log|..] == [] && AsCompleted([]) == [];
    if th.pc.Unlocking? {
      ReturnKeepsProgram(th, th.pc.result);
    }
  }

  lemma StepIsHistoryMove(shardOf: Address -> nat, s: State, t: nat)
    requires t < |s.threads| && Step(shardOf, s, t).Some?
    ensures HistoryMove(s, t, Step(shardOf, s, t).value)
  {
    hide Apply, AddTo, Debit, SenderCheck, PreCheck, HistoryMove;
    var s' := Step(shardOf, s, t).value;
    if s'.log == s.log {
      SilentIsHistoryMove(s, t, s');
    } else {
      EffectIsHistoryMove(s, t, s', s'.log[|s.log|].outcome);
    }
  }

  lemma StepKeepsHistory(shardOf: Address -> nat, programs: seq<seq<Op>>, s: State, t: nat)
    requires HistoryOk(programs, s) && t < |s.threads| && Step(shardOf, s, t).Some?
    ensures HistoryOk(programs, Step(shardOf, s, t).value)
    ensures s.log <= Step(shardOf, s, t).value.log
  {
    StepIsHistoryMove(shardOf, s, t);
    HistoryMoveKeepsHistory(programs, s, t, Step(shardOf, s, t).value);
  }

  lemma HistoryMoveKeepsHistory(programs: seq<seq<Op>>, s: State, t: nat, s': State)
    requires HistoryOk(programs, s) && t < |s.threads| && HistoryMove(s, t, s')
    ensures HistoryOk(programs, s') && s.log <= s'.log
  {
    forall u | 0 <= u < |programs|
      ensures Project(s'.log, u) == s'.threads[u].finished + Pending(s'.threads[u])
    {
      var logged := s'.log[|s.log|..];
      if logged != [] {
        ProjectSnoc(s.log, logged[0], u);
        assert s'.log == s.log + [logged[0]];
        assert AsCompleted(logged) == [Completed(logged[0].op, logged[0].outcome)];
      } else {
        assert s'.log == s.log && AsCompleted(logged) == [];
      }
    }
  }

  // ---------------------------------------------------------------- what a step does to the data

  /** The transfer between its debit and its credit, if any; the lock admits at most one. */
  function InFlight(s: State): Option<Op> {
    if s.lock.Some? && s.lock.value < |s.threads| then
      var th := s.threads[s.lock.value];
      if (th.pc.Debited? || th.pc.AtReceiver?) && th.todo != [] && th.todo[0].Transfer?
      then Some(th.todo[0]) else None
    else None
  }

  function InFlightAmount(s: State): nat {
    if InFlight(s).Some? && InFlight(s).value.Transfer? then InFlight(s).value.amount else 0
  }

  datatype Effect =
    | Quiet                         // only locks and program points change
    | Refuses(error: LedgerError)   // a transfer fails one of its checks
    | Enters                        // a registration or credit runs
    | Debits                        // a transfer takes the amount from its sender
    | Settles                       // a transfer gives the amount to its receiver

  /** What the next step of a thread does to the accounts and the log. */
  function EffectOf(s: State, t: nat): Effect
    requires t < |s.threads| && s.threads[t].todo != []
  {
    var op := s.threads[t].todo[0];
    match s.threads[t].pc
    case Ready => if op.Transfer? && PreCheck(op).Some? then Refuses(PreCheck(op).value) else Quiet
    case AtEntry => Enters
    case AtSender =>
      if !op.Transfer? then Quiet
      else (match SenderCheck(s.accounts, op) case Some(e) => Refuses(e) case None => Debits)
    case AtReceiver => Settles
    case _ => Quiet
  }

  ghost predicate Changes(s: State, t: nat, s': State)
    requires t < |s.threads| && s.threads[t].todo != []
  {
    var op := s.threads[t].todo[0];
    match EffectOf(s, t)
    case Quiet => s'.accounts == s.accounts && s'.log == s.log && InFlight(s') == InFlight(s)
    case Refuses(e) =>
      && op.Transfer? && s'.accounts == s.accounts && s'.log == s.log + [Event(t, op, Rejected(e))]
      && InFlight(s') == InFlight(s)
      && (PreCheck(op) == Some(e) ||
          (PreCheck(op).None? && SenderCheck(s.accounts, op) == Some(e) && InFlight(s).None?))
    case Enters =>
      && !op.Transfer? && (s'.accounts, s'.log) ==
           (Apply(op, s.accounts).0, s.log + [Event(t, op, Apply(op, s.accounts).1)])
      && InFlight(s') == InFlight(s)
    case Debits =>
      && op.Transfer? && PreCheck(op).None? && SenderCheck(s.accounts, op).None?
      && s'.accounts == Debit(s.accounts, op) && s'.log == s.log
      && InFlight(s).None? && InFlight(s') == Some(op)
    case Settles =>
      && op.Transfer? && s'.accounts == AddTo(s.accounts, op.to, op.amount)
      && s'.log == s.log + [Event(t, op, Accepted)]
      && InFlight(s) == Some(op) && InFlight(s').None?
  }

  /** A step of a thread that does not hold the lock leaves the transfer in flight as it is. */
  lemma OthersKeepFlight(s: State, t: nat, s': State)
    requires LockOwned(s) && t < |s.threads| && !HoldsLock(s.threads[t].pc)
    requires |s'.threads| == |s.threads| && s'.threads == s.threads[t := s'.threads[t]]
    requires s'.lock == s.lock || (s.lock.None? && s'.lock == Some(t) && s'.threads[t].pc.Locked?)
    ensures InFlight(s') == InFlight(s)
  {
    if s.lock.Some? {
      assert s.lock.value != t && s'.threads[s.lock.value] == s.threads[s.lock.value];
    }
  }

  lemma StepChanges(shardOf: Address -> nat, s: State, t: nat)
    requires LocksOk(shardOf, s) && t < |s.threads| && Step(shardOf, s, t).Some?
    ensures s.threads[t].todo != [] && Changes(s, t, Step(shardOf, s, t).value)
  {
    hide Apply, AddTo, Debit, SenderCheck, PreCheck, ShardsOwned, Holding;
    var s' := Step(shardOf, s, t).value;
    assert s'.threads == s.threads[t := s'.threads[t]];
    if HoldsLock(s.threads[t].pc) {
      assert s.lock == Some(t);
      SenderChecked(s, t);
    } else {
      OthersKeepFlight(s, t, s');
    }
  }

  lemma SenderChecked(s: State, t: nat)
    requires t < |s.threads| && s.threads[t].todo != [] && s.threads[t].todo[0].Transfer?
    ensures var op := s.threads[t].todo[0];
            SenderCheck(s.accounts, op).None? ==> op.from in s.accounts && op.amount <= s.accounts[op.from].balance
  {
  }

  // ---------------------------------------------------------------- equivalence to a sequential run

  /** The accounts with a half-done transfer taken back: the amount returned, the nonce restored. */
  function PutBack(accounts: Accounts, op: Op): Accounts
    requires op.Transfer? && op.from in accounts
  {
    accounts[op.from := AccountState(WrapAdd(accounts[op.from].balance, op.amount), op.nonce)]
  }

  /** The sender of the transfer in flight has been debited and its nonce counted. */
  ghost predicate FlightOk(s: State) {
    match InFlight(s)
    case None => true
    case Some(op) =>
      && op.Transfer? && PreCheck(op).None? && op.from in s.accounts
      && s.accounts[op.from].nonce == WrapAdd(op.nonce, 1)
  }

  /** The shared map without the half-done transfer. */
  function Settled(s: State): Accounts
    requires FlightOk(s)
  {
    match InFlight(s)
    case None => s.accounts
    case Some(op) => PutBack(s.accounts, op)
  }

  lemma LogSnoc(start: Accounts, log: seq<Event>, e: Event)
    ensures After(start, log + [e]) == Apply(e.op, After(start, log)).0
    ensures Legal(start, log + [e]) <==> Legal(start, log) && e.outcome == Apply(e.op, After(start, log)).1
    ensures Minted(log + [e]) == Minted(log) + Mint(e)
    ensures forall a ::
              AcceptedNonces(log + [e], a) == AcceptedNonces(log, a) + if AcceptedFrom(e, a) then [e.op.nonce] else []
  {
    assert (log + [e])[..|log|] == log;
  }

  lemma WrapAddCommutes(x: u64, y: u64, z: u64)
    ensures WrapAdd(WrapAdd(x, y), z) == WrapAdd(WrapAdd(x, z), y)
  {
    ModAdd(x + y, z);
    ModAdd(x + z, y);
  }

  /** A registration or credit cannot tell a half-done transfer from one not begun, whatever wraps. */
  lemma EntryOpCommutesWithPutBack(accounts: Accounts, op: Op, flight: Op)
    requires !op.Transfer? && flight.Transfer? && flight.from in accounts
    ensures flight.from in Apply(op, accounts).0
    ensures Apply(op, accounts).0[flight.from].nonce == accounts[flight.from].nonce
    ensures Apply(op, PutBack(accounts, flight)) == (PutBack(Apply(op, accounts).0, flight), Apply(op, accounts).1)
  {
    var from := flight.from;
    if op.Credit? && op.address == from {
      hide WrapAdd;
      WrapAddCommutes(accounts[from].balance, flight.amount, op.amount);
    }
    assert Apply(op, PutBack(accounts, flight)).0 == PutBack(Apply(op, accounts).0, flight);
  }

  lemma PutBackUndoesDebit(accounts: Accounts, op: Op)
    requires op.Transfer? && SenderCheck(accounts, op).None?
    ensures PutBack(Debit(accounts, op), op) == accounts
  {
    assert PutBack(Debit(accounts, op), op)[op.from] == accounts[op.from];
  }

  /** A transfer taken back can be done over exactly when the amount fits back into the sender's
      account; then it has the effect it had. */
  lemma RedoPutBack(accounts: Accounts, op: Op)
    requires op.Transfer? && PreCheck(op).None? && op.from in accounts
    requires accounts[op.from].nonce == WrapAdd(op.nonce, 1)
    ensures Overflows(accounts, op.from, op.amount) ==> Apply(op, PutBack(accounts, op)).1 != Accepted
    ensures !Overflows(accounts, op.from, op.amount) ==>
              Apply(op, PutBack(accounts, op)) == (AddTo(accounts, op.to, op.amount), Accepted)
  {
    var whole := PutBack(accounts, op);
    if !Overflows(accounts, op.from, op.amount) {
      assert SenderCheck(whole, op).None?;
      assert Debit(whole, op)[op.from] == accounts[op.from];
      assert Debit(whole, op) == accounts;
    }
  }

  /** Thread `t` is about to credit the receiver of a transfer whose amount, after the credits that
      ran since the debit, no longer fits back into the sender's account. */
  predicate PastReturn(s: State, t: nat)
    requires t < |s.threads|
  {
    var th := s.threads[t];
    && th.pc.AtReceiver? && th.todo != [] && th.todo[0].Transfer?
    && Overflows(s.accounts, th.todo[0].from, th.todo[0].amount)
  }

  /** No transfer of the schedule was credited past return. */
  predicate Revocable(shardOf: Address -> nat, s: State, schedule: seq<nat>) {
    if schedule == [] then true
    else
      var n := |schedule| - 1;
      && Revocable(shardOf, s, schedule[..n])
      && match Run(shardOf, s, schedule[..n])
         case None => true
         case Some(mid) => schedule[n] < |mid.threads| ==> !PastReturn(mid, schedule[n])
  }

  /** While the log is a sequential run, that run has the accounts of the settled state. */
  ghost predicate DataOk(start: Accounts, s: State) {
    FlightOk(s) && (Legal(start, s.log) ==> After(start, s.log) == Settled(s))
  }

  lemma EntersKeepsData(start: Accounts, s: State, t: nat, s': State)
    requires t < |s.threads| && s.threads[t].todo != [] && Changes(s, t, s') && EffectOf(s, t).Enters?
    requires DataOk(start, s)
    ensures DataOk(start, s') && (Legal(start, s'.log) <==> Legal(start, s.log))
  {
    hide EffectOf, InFlight, Apply, PreCheck, After, Legal;
    var op := s.threads[t].todo[0];
    LogSnoc(start, s.log, Event(t, op, Apply(op, s.accounts).1));
    if InFlight(s).Some? {
      EntryOpCommutesWithPutBack(s.accounts, op, InFlight(s).value);
    }
  }

  lemma SettlesKeepsData(start: Accounts, s: State, t: nat, s': State)
    requires t < |s.threads| && s.threads[t].todo != [] && Changes(s, t, s') && EffectOf(s, t).Settles?
    requires DataOk(start, s)
    ensures DataOk(start, s') && (Legal(start, s'.log) <==> Legal(start, s.log) && !PastReturn(s, t))
  {
    hide InFlight, Apply, AddTo, PreCheck, After, Legal, PutBack, Overflows;
    var op := s.threads[t].todo[0];
    LogSnoc(start, s.log, Event(t, op, Accepted));
    RedoPutBack(s.accounts, op);
  }

  lemma DebitsKeepsData(start: Accounts, s: State, t: nat, s': State)
    requires t < |s.threads| && s.threads[t].todo != [] && Changes(s, t, s') && EffectOf(s, t).Debits?
    requires DataOk(start, s)
    ensures DataOk(start, s') && (Legal(start, s'.log) <==> Legal(start, s.log))
  {
    hide EffectOf, InFlight, After, Legal;
    PutBackUndoesDebit(s.accounts, s.threads[t].todo[0]);
  }

  lemma RefusesKeepsData(start: Accounts, s: State, t: nat, s': State)
    requires t < |s.threads| && s.threads[t].todo != [] && Changes(s, t, s') && EffectOf(s, t).Refuses?
    requires DataOk(start, s)
    ensures DataOk(start, s') && (Legal(start, s'.log) <==> Legal(start, s.log))
  {
    hide EffectOf, InFlight, After, Legal, AddTo, Debit;
    LogSnoc(start, s.log, Event(t, s.threads[t].todo[0], Rejected(EffectOf(s, t).error)));
  }

  /** Every step keeps the relation to the sequential run, and the log stays a sequential run
      exactly if the step does not credit a transfer past return. */
  lemma ChangesKeepData(start: Accounts, s: State, t: nat, s': State)
    requires t < |s.threads| && s.threads[t].todo != [] && Changes(s, t, s') && DataOk(start, s)
    ensures DataOk(start, s') && (Legal(start, s'.log) <==> Legal(start, s.log) && !PastReturn(s, t))
  {
    hide InFlight, After, Legal, Overflows, DataOk, Changes;
    match EffectOf(s, t)
    case Quiet => QuietKeepsData(start, s, t, s');
    case Refuses(_) => RefusesKeepsData(start, s, t, s');
    case Enters => EntersKeepsData(start, s, t, s');
    case Debits => DebitsKeepsData(start, s, t, s');
    case Settles => SettlesKeepsData(start, s, t, s');
  }

  lemma QuietKeepsData(start: Accounts, s: State, t: nat, s': State)
    requires t < |s.threads| && s.threads[t].todo != [] && Changes(s, t, s') && EffectOf(s, t).Quiet?
    requires DataOk(start, s)
    ensures DataOk(start, s') && s'.log == s.log
  {
    hide EffectOf, InFlight, After, Legal;
  }

  // ---------------------------------------------------------------- nonces, step by step

  function FlightsFrom(s: State, a: Address): nat {
    if InFlight(s).Some? && InFlight(s).value.Transfer? && InFlight(s).value.from == a then 1 else 0
  }

  /** The stored nonce counts the accepted transfers and the one in flight; the accepted ones carry
      consecutive nonces and the one in flight the next. */
  ghost predicate NoncesOk(start: Accounts, s: State, a: Address) {
    var count := |AcceptedNonces(s.log, a)|;
    && NonceOf(s.accounts, a) == (NonceOf(start, a) + count + FlightsFrom(s, a)) % U64_MODULUS
    && CountsFrom(AcceptedNonces(s.log, a), NonceOf(start, a))
    && (FlightsFrom(s, a) == 1 ==> InFlight(s).value.nonce == (NonceOf(start, a) + count) % U64_MODULUS)
  }

  lemma EntryKeepsNonce(op: Op, accounts: Accounts, a: Address)
    requires !op.Transfer?
    ensures NonceOf(Apply(op, accounts).0, a) == NonceOf(accounts, a)
  {
  }

  lemma DebitNonce(accounts: Accounts, op: Op, a: Address)
    requires op.Transfer? && SenderCheck(accounts, op).None?
    ensures NonceOf(Debit(accounts, op), a) ==
            if a == op.from then WrapAdd(op.nonce, 1) else NonceOf(accounts, a)
    ensures op.nonce == NonceOf(accounts, op.from)
  {
  }

  lemma AddToNonce(accounts: Accounts, to: Address, amount: u64, a: Address)
    ensures NonceOf(AddTo(accounts, to, amount), a) == NonceOf(accounts, a)
  {
  }

  lemma EntersKeepsNonces(start: Accounts, s: State, t: nat, s': State, a: Address)
    requires t < |s.threads| && s.threads[t].todo != [] && Changes(s, t, s') && EffectOf(s, t).Enters?
    requires NoncesOk(start, s, a)
    ensures NoncesOk(start, s', a)
  {
    hide EffectOf, InFlight, Apply, NonceOf, AcceptedNonces;
    var op := s.threads[t].todo[0];
    LogSnoc(start, s.log, Event(t, op, Apply(op, s.accounts).1));
    EntryKeepsNonce(op, s.accounts, a);
  }

  lemma RefusesKeepsNonces(start: Accounts, s: State, t: nat, s': State, a: Address)
    requires t < |s.threads| && s.threads[t].todo != [] && Changes(s, t, s') && EffectOf(s, t).Refuses?
    requires NoncesOk(start, s, a)
    ensures NoncesOk(start, s', a)
  {
    hide EffectOf, InFlight, NonceOf, AcceptedNonces, PreCheck, SenderCheck;
    LogSnoc(start, s.log, Event(t, s.threads[t].todo[0], Rejected(EffectOf(s, t).error)));
  }

  lemma DebitsKeepsNonces(start: Accounts, s: State, t: nat, s': State, a: Address)
    requires t < |s.threads| && s.threads[t].todo != [] && Changes(s, t, s') && EffectOf(s, t).Debits?
    requires NoncesOk(start, s, a)
    ensures NoncesOk(start, s', a)
  {
    hide EffectOf, InFlight, NonceOf, WrapAdd, AcceptedNonces, PreCheck, CountsFrom;
    DebitNonce(s.accounts, s.threads[t].todo[0], a);
    WrapSuccessor(NonceOf(start, a) + |AcceptedNonces(s.log, a)|);
  }

  lemma SettlesKeepsNonces(start: Accounts, s: State, t: nat, s': State, a: Address)
    requires t < |s.threads| && s.threads[t].todo != [] && Changes(s, t, s') && EffectOf(s, t).Settles?
    requires NoncesOk(start, s, a)
    ensures NoncesOk(start, s', a)
  {
    hide EffectOf, InFlight, AddTo, NonceOf, AcceptedNonces;
    var op := s.threads[t].todo[0];
    LogSnoc(start, s.log, Event(t, op, Accepted));
    AddToNonce(s.accounts, op.to, op.amount, a);
  }

  lemma ChangesKeepNonces(start: Accounts, s: State, t: nat, s': State, a: Address)
    requires t < |s.threads| && s.threads[t].todo != [] && Changes(s, t, s') && NoncesOk(start, s, a)
    ensures NoncesOk(start, s', a)
  {
    match EffectOf(s, t)
    case Quiet =>
    case Refuses(_) => RefusesKeepsNonces(start, s, t, s', a);
    case Enters => EntersKeepsNonces(start, s, t, s', a);
    case Debits => DebitsKeepsNonces(start, s, t, s', a);
    case Settles => SettlesKeepsNonces(start, s, t, s', a);
  }

  // ---------------------------------------------------------------- totals, step by step

  /** The addition a thread is about to make, if its next step makes one. */
  function NextAddition(s: State, t: nat): Option<(Address, u64)>
    requires t < |s.threads|
  {
    var th := s.threads[t];
    if th.todo == [] then None
    else if th.pc.AtEntry? && th.todo[0].Credit? then Some((th.todo[0].address, th.todo[0].amount))
    else if th.pc.AtReceiver? && th.todo[0].Transfer? then Some((th.todo[0].to, th.todo[0].amount))
    else None
  }

  /** The next step of the thread makes an addition that wraps. */
  predicate StepWraps(s: State, t: nat)
    requires t < |s.threads|
  {
    NextAddition(s, t).Some? && Overflows(s.accounts, NextAddition(s, t).value.0, NextAddition(s, t).value.1)
  }

  /** How many additions of a schedule wrap. */
  function WrapSteps(shardOf: Address -> nat, s: State, schedule: seq<nat>): nat {
    if schedule == [] then 0
    else
      var n := |schedule| - 1;
      WrapSteps(shardOf, s, schedule[..n]) +
      match Run(shardOf, s, schedule[..n])
      case None => 0
      case Some(mid) => if schedule[n] < |mid.threads| && StepWraps(mid, schedule[n]) then 1 else 0
  }

  /** What the accounts and the transfer in flight hold beyond what was minted. */
  ghost function Balance(s: State): int {
    Total(s.accounts) + InFlightAmount(s) - Minted(s.log)
  }

  lemma ChangesKeepBalance(start: Accounts, s: State, t: nat, s': State)
    requires t < |s.threads| && s.threads[t].todo != [] && Changes(s, t, s')
    ensures Balance(s') == Balance(s) - if StepWraps(s, t) then U64_MODULUS else 0
  {
    hide InFlight, Total, Debit, AddTo, SenderCheck, PreCheck, Minted;
    var op := s.threads[t].todo[0];
    if s'.log != s.log {
      LogSnoc(start, s.log, s'.log[|s.log|]);
    }
    match EffectOf(s, t)
    case Quiet =>
    case Refuses(_) =>
    case Enters =>
      ApplyTotal(op, s.accounts, t);
    case Debits =>
      SenderChecked(s, t);
      DebitTotal(s.accounts, op);
    case Settles =>
      AddToTotal(s.accounts, op.to, op.amount);
  }

  // ---------------------------------------------------------------- whole runs

  ghost predicate Reachable(shardOf: Address -> nat, start: Accounts, programs: seq<seq<Op>>,
                            schedule: seq<nat>, s: State)
  {
    Run(shardOf, Initial(start, programs), schedule) == Some(s)
  }

  ghost predicate Inv(shardOf: Address -> nat, start: Accounts, programs: seq<seq<Op>>, s: State) {
    && LocksOk(shardOf, s) && HistoryOk(programs, s) && DataOk(start, s)
    && forall a :: NoncesOk(start, s, a)
  }

  lemma InitialInv(shardOf: Address -> nat, start: Accounts, programs: seq<seq<Op>>)
    ensures Inv(shardOf, start, programs, Initial(start, programs))
    ensures Balance(Initial(start, programs)) == Total(start)
  {
    forall t | 0 <= t < |programs| ensures Ops([]) + programs[t] == programs[t] {
      assert Ops([]) == [];
    }
  }

  lemma StepKeepsInv(shardOf: Address -> nat, start: Accounts, programs: seq<seq<Op>>, s: State, t: nat)
    requires Inv(shardOf, start, programs, s) && t < |s.threads| && Step(shardOf, s, t).Some?
    ensures var s' := Step(shardOf, s, t).value;
            && Inv(shardOf, start, programs, s')
            && (Legal(start, s'.log) <==> Legal(start, s.log) && !PastReturn(s, t))
            && Balance(s') == Balance(s) - if StepWraps(s, t) then U64_MODULUS else 0
  {
    hide Step, LocksOk, HistoryOk, DataOk, NoncesOk, Changes, Legal, PastReturn, Balance, StepWraps;
    var s' := Step(shardOf, s, t).value;
    StepKeepsLocks(shardOf, s, t);
    StepKeepsHistory(shardOf, programs, s, t);
    StepChanges(shardOf, s, t);
    ChangesKeepData(start, s, t, s');
    ChangesKeepBalance(start, s, t, s');
    forall a ensures NoncesOk(start, s', a) {
      ChangesKeepNonces(start, s, t, s', a);
    }
  }

  /** Everything every reachable state keeps: the locks, the history, the nonces and the relation
      to the sequential run. */
  lemma {:induction false} RunInvariant(shardOf: Address -> nat, start: Accounts, programs: seq<seq<Op>>,
                                        schedule: seq<nat>, s: State)
    requires Reachable(shardOf, start, programs, schedule, s)
    ensures Inv(shardOf, start, programs, s)
    ensures Legal(start, s.log) <==> Revocable(shardOf, Initial(start, programs), schedule)
    ensures Balance(s) == Total(start) - U64_MODULUS * WrapSteps(shardOf, Initial(start, programs), schedule)
    ensures |schedule| + TotalWork(s.threads) <= TotalWork(Initial(start, programs).threads)
  {
    hide Step, Inv, TotalWork, Balance, PastReturn, StepWraps;
    if schedule == [] {
      InitialInv(shardOf, start, programs);
    } else {
      var n := |schedule| - 1;
      var mid := Run(shardOf, Initial(start, programs), schedule[..n]).value;
      RunInvariant(shardOf, start, programs, schedule[..n], mid);
      StepKeepsInv(shardOf, start, programs, mid, schedule[n]);
      StepWorks(shardOf, mid, schedule[n]);
    }
  }

  ghost predicate Finished(s: State) {
    forall t :: 0 <= t < |s.threads| ==> !Unfinished(s.threads[t])
  }

  /** The log runs one operation at a time to the same accounts and the same results. */
  ghost predicate Equivalent(start: Accounts, s: State) {
    Legal(start, s.log) && s.accounts == After(start, s.log)
  }

  /** Restricted to any thread the log is that thread's program in order, with its results. */
  ghost predicate InProgramOrder(programs: seq<seq<Op>>, s: State) {
    && |s.threads| == |programs|
    && forall t :: 0 <= t < |programs| ==>
         Project(s.log, t) == s.threads[t].finished && Ops(s.threads[t].finished) == programs[t]
  }

  lemma FinishedInOrder(programs: seq<seq<Op>>, s: State)
    requires HistoryOk(programs, s) && Finished(s)
    ensures InProgramOrder(programs, s)
  {
    forall t | 0 <= t < |programs|
      ensures Project(s.log, t) == s.threads[t].finished && Ops(s.threads[t].finished) == programs[t]
    {
      assert !Unfinished(s.threads[t]);
      assert Ops(s.threads[t].finished) + [] == Ops(s.threads[t].finished);
      assert s.threads[t].finished + [] == s.threads[t].finished;
    }
  }

  lemma NothingInFlight(s: State)
    requires Finished(s)
    ensures InFlight(s).None?
  {
  }

  /** Exactly when an interleaving is the sequential run in which each successful transfer happens
      whole at its credit and each failed one at its check: when no transfer is credited past
      return. Nothing is assumed about sizes; additions may wrap. */
  lemma LinearizableIff(shardOf: Address -> nat, start: Accounts, programs: seq<seq<Op>>,
                        schedule: seq<nat>, s: State)
    requires Reachable(shardOf, start, programs, schedule, s) && Finished(s)
    ensures InProgramOrder(programs, s)
    ensures Equivalent(start, s) <==> Revocable(shardOf, Initial(start, programs), schedule)
  {
    RunInvariant(shardOf, start, programs, schedule, s);
    FinishedInOrder(programs, s);
    NothingInFlight(s);
  }

  /** Debit and credit are not one atomic update: other threads see the accounts of the sequential
      run exactly in the states in which no transfer is half done. */
  lemma HalfDoneIff(shardOf: Address -> nat, start: Accounts, programs: seq<seq<Op>>, schedule: seq<nat>, s: State)
    requires Reachable(shardOf, start, programs, schedule, s) && Legal(start, s.log)
    ensures s.accounts == After(start, s.log) <==> InFlight(s).None?
  {
    hide Run, LocksOk, HistoryOk, NoncesOk, Legal, After, Balance, Settled;
    RunInvariant(shardOf, start, programs, schedule, s);
    SettledDiffers(s);
  }

  lemma SettledDiffers(s: State)
    requires FlightOk(s)
    ensures Settled(s) == s.accounts <==> InFlight(s).None?
  {
    hide InFlight;
    if InFlight(s).Some? {
      assert Settled(s)[InFlight(s).value.from].nonce != s.accounts[InFlight(s).value.from].nonce;
    }
  }

  // ---------------------------------------------------------------- when the minted total fits

  ghost predicate Bounded(start: Accounts, s: State) {
    Total(start) + Minted(s.log) < U64_MODULUS
  }

  lemma {:induction false} MintedMonotone(log: seq<Event>, log': seq<Event>)
    requires log <= log'
    ensures Minted(log) <= Minted(log')
    decreases |log'|
  {
    if log != log' {
      var n := |log'| - 1;
      assert log <= log'[..n];
      MintedMonotone(log, log'[..n]);
    }
  }

  /** In a bounded state the amount in flight fits back into its sender's account. */
  lemma FitsBack(shardOf: Address -> nat, start: Accounts, programs: seq<seq<Op>>, schedule: seq<nat>, s: State, t: nat)
    requires Reachable(shardOf, start, programs, schedule, s) && Bounded(start, s) && t < |s.threads|
    ensures !PastReturn(s, t)
  {
    RunInvariant(shardOf, start, programs, schedule, s);
    BalanceBound(s.accounts);
    if s.threads[t].pc.AtReceiver? {
      assert HoldsLock(s.threads[t].pc);
    }
  }

  lemma {:induction false} BoundedRevocable(shardOf: Address -> nat, start: Accounts, programs: seq<seq<Op>>,
                                            schedule: seq<nat>, s: State)
    requires Reachable(shardOf, start, programs, schedule, s) && Bounded(start, s)
    ensures Revocable(shardOf, Initial(start, programs), schedule)
  {
    hide Step, PastReturn;
    if schedule != [] {
      var n := |schedule| - 1;
      var mid := Run(shardOf, Initial(start, programs), schedule[..n]).value;
      LogOnlyGrows(shardOf, start, programs, schedule[..n], schedule[n..], mid, s);
      assert schedule[..n] + schedule[n..] == schedule;
      MintedMonotone(mid.log, s.log);
      BoundedRevocable(shardOf, start, programs, schedule[..n], mid);
      FitsBack(shardOf, start, programs, schedule[..n], mid, schedule[n]);
    }
  }

  /** Every interleaving whose minted total fits in a `u64` is equivalent to a sequential one. When
      all threads are done, running the log one operation at a time from the same start gives the
      same accounts and the same results, each thread's operations in program order. */
  lemma Linearizable(shardOf: Address -> nat, start: Accounts, programs: seq<seq<Op>>, schedule: seq<nat>, s: State)
    requires Reachable(shardOf, start, programs, schedule, s) && Bounded(start, s) && Finished(s)
    ensures Equivalent(start, s) && InProgramOrder(programs, s)
  {
    BoundedRevocable(shardOf, start, programs, schedule, s);
    LinearizableIff(shardOf, start, programs, schedule, s);
  }

  /** The order of the sequential run respects real time. Continuing a schedule only appends to the
      log, and the log of any state holds exactly what has returned by then or is about to: an
      operation that returned before another began stands before it. */
  lemma {:induction false} LogOnlyGrows(shardOf: Address -> nat, start: Accounts, programs: seq<seq<Op>>,
                     schedule: seq<nat>, more: seq<nat>, s: State, s': State)
    requires Reachable(shardOf, start, programs, schedule, s)
    requires Reachable(shardOf, start, programs, schedule + more, s')
    ensures s.log <= s'.log && |s.threads| == |programs|
    ensures forall t :: 0 <= t < |programs| ==> Project(s.log, t) == s.threads[t].finished + Pending(s.threads[t])
    decreases |more|
  {
    RunInvariant(shardOf, start, programs, schedule, s);
    if more == [] {
      assert schedule + more == schedule;
    } else {
      var n := |more| - 1;
      assert (schedule + more)[..|schedule + more| - 1] == schedule + more[..n];
      var mid := Run(shardOf, Initial(start, programs), schedule + more[..n]).value;
      LogOnlyGrows(shardOf, start, programs, schedule, more[..n], s, mid);
      RunInvariant(shardOf, start, programs, schedule + more[..n], mid);
      StepKeepsHistory(shardOf, programs, mid, (schedule + more)[|schedule + more| - 1]);
    }
  }

  /** The exact total in every intermediate state of every interleaving, half-done transfers
      included: what there was and what was minted, less 2^64 for every addition that wrapped. So
      the total is kept exactly when none did, and none does while the minted total fits. */
  lemma ConservationInFlight(shardOf: Address -> nat, start: Accounts, programs: seq<seq<Op>>,
                             schedule: seq<nat>, s: State)
    requires Reachable(shardOf, start, programs, schedule, s)
    ensures var wraps := WrapSteps(shardOf, Initial(start, programs), schedule);
            && Total(s.accounts) + InFlightAmount(s) == Total(start) + Minted(s.log) - U64_MODULUS * wraps
            && (Total(s.accounts) + InFlightAmount(s) == Total(start) + Minted(s.log) <==> wraps == 0)
            && (Bounded(start, s) ==> wraps == 0)
  {
    RunInvariant(shardOf, start, programs, schedule, s);
    BalanceBound(s.accounts);
  }

  /** At most one transfer is past its debit and short of its credit. */
  lemma OneInFlight(shardOf: Address -> nat, start: Accounts, programs: seq<seq<Op>>, schedule: seq<nat>, s: State,
                    t: nat, u: nat)
    requires Reachable(shardOf, start, programs, schedule, s) && t < |s.threads| && u < |s.threads|
    requires s.threads[t].pc.Debited? || s.threads[t].pc.AtReceiver?
    requires s.threads[u].pc.Debited? || s.threads[u].pc.AtReceiver?
    ensures t == u
  {
    RunInvariant(shardOf, start, programs, schedule, s);
    assert HoldsLock(s.threads[t].pc) && HoldsLock(s.threads[u].pc);
  }

  /** While the minted total fits in a `u64`, no balance addition any thread makes can overflow. */
  lemma NoOverflow(shardOf: Address -> nat, start: Accounts, programs: seq<seq<Op>>, schedule: seq<nat>, s: State,
                   t: nat)
    requires Reachable(shardOf, start, programs, schedule, s) && t < |s.threads| && Step(shardOf, s, t).Some?
    requires Bounded(start, Step(shardOf, s, t).value)
    ensures !StepWraps(s, t)
  {
    hide Step, StepWraps;
    var longer := schedule + [t];
    assert longer[..|schedule|] == schedule && longer[|schedule|] == t;
    ConservationInFlight(shardOf, start, programs, longer, Step(shardOf, s, t).value);
  }

  /** The other addition the ledger makes: the debit that counts its sender's nonce past 2^64 - 1 is
      the one that completes a full turn of the accepted transfers, and no other does. */
  lemma NonceOverflowIff(shardOf: Address -> nat, start: Accounts, programs: seq<seq<Op>>, schedule: seq<nat>, s: State,
                         t: nat)
    requires Reachable(shardOf, start, programs, schedule, s) && t < |s.threads| && Step(shardOf, s, t).Some?
    requires s.threads[t].todo != [] && EffectOf(s, t).Debits?
    ensures var op := s.threads[t].todo[0];
            && op.Transfer?
            && (NonceOf(s.accounts, op.from) + 1 == U64_MODULUS <==>
                  (NonceOf(start, op.from) + |AcceptedNonces(s.log, op.from)| + 1) % U64_MODULUS == 0)
  {
    hide Run, Step, LocksOk, HistoryOk, DataOk, Balance, AcceptedNonces, NonceOf, NoTwoEqual;
    RunInvariant(shardOf, start, programs, schedule, s);
    StepChanges(shardOf, s, t);
    var op := s.threads[t].todo[0];
    ConcurrentNonceOrder(shardOf, start, programs, schedule, s, op.from);
    WrapSuccessor(NonceOf(start, op.from) + |AcceptedNonces(s.log, op.from)|);
  }

  /** Every schedule is finite, and one that cannot be continued has run every program to its end. */
  lemma EveryScheduleFinishes(shardOf: Address -> nat, start: Accounts, programs: seq<seq<Op>>,
                              schedule: seq<nat>, s: State)
    requires Reachable(shardOf, start, programs, schedule, s)
    ensures |schedule| <= TotalWork(Initial(start, programs).threads)
    ensures (forall t :: 0 <= t < |s.threads| ==> Step(shardOf, s, t).None?) <==> Finished(s)
  {
    hide DataOk, NoncesOk, Balance;
    RunInvariant(shardOf, start, programs, schedule, s);
    TotalWorkNonNegative(s.threads);
    if exists t :: 0 <= t < |s.threads| && Unfinished(s.threads[t]) {
      NoDeadlock(shardOf, s);
    }
  }

  /** Replay protection under every interleaving, whatever wraps: the accepted transfers of an
      account carry consecutive nonces, the stored nonce counts them and the one in flight, and no
      nonce is accepted twice exactly until the counter has gone once round. */
  lemma ConcurrentNonceOrder(shardOf: Address -> nat, start: Accounts, programs: seq<seq<Op>>,
                             schedule: seq<nat>, s: State, a: Address)
    requires Reachable(shardOf, start, programs, schedule, s)
    ensures var nonces := AcceptedNonces(s.log, a);
            && NonceOf(s.accounts, a) == (NonceOf(start, a) + |nonces| + FlightsFrom(s, a)) % U64_MODULUS
            && CountsFrom(nonces, NonceOf(start, a))
            && (NoTwoEqual(nonces) <==> |nonces| <= U64_MODULUS)
  {
    hide Run, LocksOk, HistoryOk, DataOk, Balance, AcceptedNonces, NonceOf, NoTwoEqual;
    RunInvariant(shardOf, start, programs, schedule, s);
    assert NoncesOk(start, s, a);
    CountsDistinct(AcceptedNonces(s.log, a), NonceOf(start, a));
  }
}
