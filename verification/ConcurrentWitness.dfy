/** Concrete schedules of the concurrent ledger: one that stops in the middle of a transfer, one that
    no order of its operations explains, and one that the order by credits does not explain but
    another does. */
module ConcurrentWitness {
  import opened Common
  import opened LedgerSpec
  import opened ConcurrentLedger
  import opened LedgerPlacement

  lemma RunStep(shardOf: Address -> nat, s: State, schedule: seq<nat>, t: nat, mid: State, s': State)
    requires Run(shardOf, s, schedule) == Some(mid) && t < |mid.threads| && Step(shardOf, mid, t) == Some(s')
    ensures Run(shardOf, s, schedule + [t]) == Some(s')
    ensures WrapSteps(shardOf, s, schedule + [t]) ==
            WrapSteps(shardOf, s, schedule) + if StepWraps(mid, t) then 1 else 0
    ensures Revocable(shardOf, s, schedule + [t]) <==> Revocable(shardOf, s, schedule) && !PastReturn(mid, t)
  {
    hide Step, StepWraps, PastReturn;
    assert (schedule + [t])[..|schedule|] == schedule;
  }

  lemma RunEmpty(shardOf: Address -> nat, s: State)
    ensures Run(shardOf, s, []) == Some(s) && WrapSteps(shardOf, s, []) == 0 && Revocable(shardOf, s, [])
  {
  }

  /** Changing one of two threads. */
  lemma TwoThreads(a: Thread, b: Thread, th: Thread)
    ensures [a, b][0 := th] == [th, b] && [a, b][1 := th] == [a, th]
  {
  }

  /** A state of two threads. */
  function Two(accounts: Accounts, lock: Option<nat>, shards: map<nat, nat>, a: Thread, b: Thread,
               log: seq<Event>): State
  {
    State(accounts, lock, shards, [a, b], log)
  }

  /** Thread 0 stands between debit and credit; thread 1 has made `done` and has `todo` before it. */
  function Half(accounts: Accounts, transfer: Op, todo: seq<Op>, done: seq<Completed>, log: seq<Event>): State {
    Two(accounts, Some(0), map[], Thread([transfer], Debited, []), Thread(todo, Ready, done), log)
  }

  lemma DebitAllowed(accounts: Accounts, op: Op)
    requires op.Transfer? && SenderCheck(accounts, op).None?
    ensures op.from in accounts && op.amount <= accounts[op.from].balance
  {
  }

  lemma StepsToHalf(shardOf: Address -> nat, start: Accounts, transfer: Op, program: seq<Op>)
    returns (s0: State, s1: State, s2: State, s3: State)
    requires transfer.Transfer? && PreCheck(transfer).None? && SenderCheck(start, transfer).None?
    ensures transfer.from in start && transfer.amount <= start[transfer.from].balance
    ensures s0 == Initial(start, [[transfer], program]) && |s0.threads| == 2
    ensures |s1.threads| == 2 && |s2.threads| == 2 && |s3.threads| == 2
    ensures Step(shardOf, s0, 0) == Some(s1) && Step(shardOf, s1, 0) == Some(s2) && Step(shardOf, s2, 0) == Some(s3)
    ensures Step(shardOf, s3, 0) == Some(Half(Debit(start, transfer), transfer, program, [], []))
    ensures forall s | s in [s0, s1, s2, s3] :: !StepWraps(s, 0) && !PastReturn(s, 0)
  {
    DebitAllowed(start, transfer);
    hide Debit, SenderCheck, PreCheck;
    var other, k := Thread(program, Ready, []), shardOf(transfer.from);
    s0 := Initial(start, [[transfer], program]);
    assert s0.threads == [Thread([transfer], Ready, []), other];
    s1 := Two(start, None, map[], Thread([transfer], WantLock, []), other, []);
    s2 := Two(start, Some(0), map[], Thread([transfer], Locked, []), other, []);
    s3 := Two(start, Some(0), map[k := 0], Thread([transfer], AtSender, []), other, []);
    assert s3.shards - {k} == map[];
    TwoThreads(s0.threads[0], other, s1.threads[0]);
    TwoThreads(s1.threads[0], other, s2.threads[0]);
    TwoThreads(s2.threads[0], other, s3.threads[0]);
    TwoThreads(s3.threads[0], other, Thread([transfer], Debited, []));
  }

  /** Four steps bring an admissible transfer of thread 0 past its debit. */
  lemma ReachHalf(shardOf: Address -> nat, start: Accounts, transfer: Op, program: seq<Op>)
    requires transfer.Transfer? && PreCheck(transfer).None? && SenderCheck(start, transfer).None?
    ensures transfer.from in start && transfer.amount <= start[transfer.from].balance
    ensures var s := Initial(start, [[transfer], program]);
            && Run(shardOf, s, [0, 0, 0, 0]) == Some(Half(Debit(start, transfer), transfer, program, [], []))
            && WrapSteps(shardOf, s, [0, 0, 0, 0]) == 0 && Revocable(shardOf, s, [0, 0, 0, 0])
  {
    hide Step, Run, WrapSteps, Revocable, Debit, SenderCheck, PreCheck, StepWraps, PastReturn, Half, Initial;
    var s, s1, s2, s3 := StepsToHalf(shardOf, start, transfer, program);
    RunEmpty(shardOf, s);
    RunStep(shardOf, s, [], 0, s, s1);
    assert [] + [0] == [0] && [0] + [0] == [0, 0] && [0, 0] + [0] == [0, 0, 0] && [0, 0, 0] + [0] == [0, 0, 0, 0];
    RunStep(shardOf, s, [0], 0, s1, s2);
    RunStep(shardOf, s, [0, 0], 0, s2, s3);
    RunStep(shardOf, s, [0, 0, 0], 0, s3, Half(Debit(start, transfer), transfer, program, [], []));
  }

  /** Two steps let thread 1 make its next registration or credit in the meantime. */
  lemma RunEntry(shardOf: Address -> nat, s: State, schedule: seq<nat>, accounts: Accounts, transfer: Op,
                 todo: seq<Op>, done: seq<Completed>, log: seq<Event>)
    requires Run(shardOf, s, schedule) == Some(Half(accounts, transfer, todo, done, log))
    requires todo != [] && !todo[0].Transfer?
    ensures var (accounts', r) := Apply(todo[0], accounts);
            && Run(shardOf, s, schedule + [1, 1]) ==
                 Some(Half(accounts', transfer, todo[1..], done + [Completed(todo[0], r)],
                           log + [Event(1, todo[0], r)]))
            && WrapSteps(shardOf, s, schedule + [1, 1]) ==
                 WrapSteps(shardOf, s, schedule) + (if WrapsAt(todo[0], accounts) then 1 else 0)
            && (Revocable(shardOf, s, schedule + [1, 1]) <==> Revocable(shardOf, s, schedule))
  {
    hide Run, WrapSteps, Revocable, Apply, Overflows;
    var s0 := Half(accounts, transfer, todo, done, log);
    var k := shardOf(todo[0].address);
    var s1 := s0.(threads := [s0.threads[0], Thread(todo, AtEntry, done)], shards := map[k := 1]);
    var (accounts', r) := Apply(todo[0], accounts);
    var s2 := Half(accounts', transfer, todo[1..], done + [Completed(todo[0], r)], log + [Event(1, todo[0], r)]);
    assert s1.shards - {k} == map[];
    TwoThreads(s0.threads[0], s0.threads[1], s1.threads[1]);
    TwoThreads(s1.threads[0], s1.threads[1], s2.threads[1]);
    RunStep(shardOf, s, schedule, 1, s0, s1);
    RunStep(shardOf, s, schedule + [1], 1, s1, s2);
    assert schedule + [1] + [1] == schedule + [1, 1];
  }

  lemma StepsToSettle(shardOf: Address -> nat, accounts: Accounts, transfer: Op, done: seq<Completed>, log: seq<Event>)
    returns (s0: State, s1: State, s2: State, s3: State)
    requires transfer.Transfer?
    ensures s0 == Half(accounts, transfer, [], done, log) && !StepWraps(s0, 0) && !PastReturn(s0, 0)
    ensures |s0.threads| == |s1.threads| == |s2.threads| == 2
    ensures Step(shardOf, s0, 0) == Some(s1) && Step(shardOf, s1, 0) == Some(s2) && Step(shardOf, s2, 0) == Some(s3)
    ensures StepWraps(s1, 0) <==> Overflows(accounts, transfer.to, transfer.amount)
    ensures PastReturn(s1, 0) <==> Overflows(accounts, transfer.from, transfer.amount)
    ensures !StepWraps(s2, 0) && !PastReturn(s2, 0)
    ensures s3 == Two(AddTo(accounts, transfer.to, transfer.amount), None, map[],
                      Thread([], Ready, [Completed(transfer, Accepted)]), Thread([], Ready, done),
                      log + [Event(0, transfer, Accepted)])
  {
    hide AddTo, Overflows;
    var other, k := Thread([], Ready, done), shardOf(transfer.to);
    var accounts' := AddTo(accounts, transfer.to, transfer.amount);
    var log' := log + [Event(0, transfer, Accepted)];
    s0 := Half(accounts, transfer, [], done, log);
    s1 := Two(accounts, Some(0), map[k := 0], Thread([transfer], AtReceiver, []), other, log);
    s2 := Two(accounts', Some(0), map[], Thread([transfer], Unlocking(Accepted), []), other, log');
    s3 := Two(accounts', None, map[], Thread([], Ready, [Completed(transfer, Accepted)]), other, log');
    assert s1.shards - {k} == map[];
    TwoThreads(s0.threads[0], other, s1.threads[0]);
    TwoThreads(s1.threads[0], other, s2.threads[0]);
    TwoThreads(s2.threads[0], other, s3.threads[0]);
    assert [transfer][1..] == [] && [] + [Completed(transfer, Accepted)] == [Completed(transfer, Accepted)];
  }

  /** Three steps credit the receiver and return from the transfer. */
  lemma RunSettle(shardOf: Address -> nat, s: State, schedule: seq<nat>, accounts: Accounts, transfer: Op,
                  done: seq<Completed>, log: seq<Event>)
    requires transfer.Transfer? && Run(shardOf, s, schedule) == Some(Half(accounts, transfer, [], done, log))
    ensures Run(shardOf, s, schedule + [0, 0, 0]) ==
              Some(Two(AddTo(accounts, transfer.to, transfer.amount), None, map[],
                       Thread([], Ready, [Completed(transfer, Accepted)]), Thread([], Ready, done),
                       log + [Event(0, transfer, Accepted)]))
    ensures WrapSteps(shardOf, s, schedule + [0, 0, 0]) ==
            WrapSteps(shardOf, s, schedule) + if Overflows(accounts, transfer.to, transfer.amount) then 1 else 0
    ensures Revocable(shardOf, s, schedule + [0, 0, 0]) <==>
              Revocable(shardOf, s, schedule) && !Overflows(accounts, transfer.from, transfer.amount)
  {
    hide Step, Run, WrapSteps, Revocable, StepWraps, PastReturn, AddTo, Overflows, Two, Half;
    var s0, s1, s2, s3 := StepsToSettle(shardOf, accounts, transfer, done, log);
    RunStep(shardOf, s, schedule, 0, s0, s1);
    RunStep(shardOf, s, schedule + [0], 0, s1, s2);
    RunStep(shardOf, s, schedule + [0] + [0], 0, s2, s3);
    assert schedule + [0] + [0] + [0] == schedule + [0, 0, 0];
  }

  /** The claim of one atomic update fails for every admissible transfer: another thread's
      registration or credit can run, and return, between its debit and its credit, in a state
      whose accounts are not those of the operations that have taken effect. */
  lemma HalfDoneIsVisible(shardOf: Address -> nat, start: Accounts, transfer: Op, entry: Op)
    requires transfer.Transfer? && PreCheck(transfer).None? && SenderCheck(start, transfer).None?
    requires !entry.Transfer?
    ensures exists s ::
              && Reachable(shardOf, start, [[transfer], [entry]], [0, 0, 0, 0, 1, 1], s)
              && InFlight(s) == Some(transfer) && |s.threads| == 2 && Ops(s.threads[1].finished) == [entry]
              && Legal(start, s.log) && s.accounts != After(start, s.log)
  {
    DebitAllowed(start, transfer);
    hide Run, WrapSteps, Revocable, Apply, Debit, SenderCheck, PreCheck, Legal, After;
    var half := Debit(start, transfer);
    var initial := Initial(start, [[transfer], [entry]]);
    ReachHalf(shardOf, start, transfer, [entry]);
    RunEntry(shardOf, initial, [0, 0, 0, 0], half, transfer, [entry], [], []);
    assert [0, 0, 0, 0] + [1, 1] == [0, 0, 0, 0, 1, 1];
    var s := Run(shardOf, initial, [0, 0, 0, 0, 1, 1]).value;
    RunInvariant(shardOf, start, [[transfer], [entry]], [0, 0, 0, 0, 1, 1], s);
    HalfDoneIff(shardOf, start, [[transfer], [entry]], [0, 0, 0, 0, 1, 1], s);
  }

  // ---------------------------------------------------------------- no order explains it

  /** The sequential run `log` has every operation of every thread, in program order and with the
      result the thread was given. */
  ghost predicate Explains(start: Accounts, log: seq<Event>, s: State) {
    && Legal(start, log)
    && (forall i :: 0 <= i < |log| ==> log[i].tid < |s.threads|)
    && (forall t :: 0 <= t < |s.threads| ==> Project(log, t) == s.threads[t].finished)
  }

  /** Taking the last event off a log takes the last operation off its thread. */
  lemma {:induction false} Pop(log: seq<Event>, t: nat, rest: seq<Completed>, c: Completed)
    requires log != [] && log[|log| - 1].tid == t && Project(log, t) == rest + [c]
    ensures log[|log| - 1] == Event(t, c.op, c.outcome)
    ensures Project(log[..|log| - 1], t) == rest
    ensures forall u: nat :: u != t ==> Project(log[..|log| - 1], u) == Project(log, u)
  {
    var front, e := log[..|log| - 1], log[|log| - 1];
    var last := Completed(e.op, e.outcome);
    assert Project(front, t) + [last] == rest + [c];
    assert |Project(front, t)| == |rest|;
    assert (rest + [c])[..|rest|] == rest && (rest + [c])[|rest|] == c;
    assert (Project(front, t) + [last])[..|rest|] == Project(front, t);
  }

  /** One operation of thread 0 beside two of thread 1 stand in one of three orders. */
  lemma {:induction false} ThreeOrders(log: seq<Event>, x: Completed, y: Completed, z: Completed)
    requires forall i :: 0 <= i < |log| ==> log[i].tid < 2
    requires Project(log, 0) == [x] && Project(log, 1) == [y, z]
    ensures var ex, ey, ez := Event(0, x.op, x.outcome), Event(1, y.op, y.outcome), Event(1, z.op, z.outcome);
            log == [ex, ey, ez] || log == [ey, ex, ez] || log == [ey, ez, ex]
  {
    hide Project;
    ProjectSizes(log);
    var log2, log1 := log[..2], log[..1];
    assert log2[..1] == log1 && log == [log[0], log[1], log[2]];
    assert [x] == [] + [x] && [y] == [] + [y] && [y, z] == [y] + [z];
    if log[2].tid == 0 {
      Pop(log, 0, [], x);
      LastHas(log2);
      Pop(log2, 1, [y], z);
      LastHas(log1);
      Pop(log1, 1, [], y);
    } else {
      Pop(log, 1, [y], z);
      if log[1].tid == 0 {
        Pop(log2, 0, [], x);
        LastHas(log1);
        Pop(log1, 1, [], y);
      } else {
        Pop(log2, 1, [], y);
        LastHas(log1);
        Pop(log1, 0, [], x);
      }
    }
  }

  lemma LastHas(log: seq<Event>)
    requires log != []
    ensures Project(log, log[|log| - 1].tid) != []
  {
  }

  lemma {:induction false} ProjectSizes(log: seq<Event>)
    requires forall i :: 0 <= i < |log| ==> log[i].tid < 2
    ensures |log| == |Project(log, 0)| + |Project(log, 1)|
  {
    if log != [] {
      ProjectSizes(log[..|log| - 1]);
    }
  }

  const FULL := U64_MODULUS - 3

  /** Some bound is needed for equivalence to any sequential run at all. A sender with 5 pays 5;
      between debit and credit its account is credited with 2^64 - 3 and the receiver's is
      registered. No addition wraps, but the registration created the account, so it came before
      the transfer; and after the credit the transfer would have found too little. */
  lemma NoOrderExplains(shardOf: Address -> nat, from: Address, to: Address) returns (s: State)
    requires from != to
    ensures var start, schedule := map[from := AccountState(5, 0)], [0, 0, 0, 0, 1, 1, 1, 1, 0, 0, 0];
            var programs := [[Transfer(from, to, 5, 0)], [Credit(from, FULL), Register(to, 1)]];
            && Reachable(shardOf, start, programs, schedule, s) && Finished(s)
            && WrapSteps(shardOf, Initial(start, programs), schedule) == 0
            && !Revocable(shardOf, Initial(start, programs), schedule)
            && !Placeable(shardOf, Initial(start, programs), schedule)
            && forall log :: !Explains(start, log, s)
  {
    hide Run, WrapSteps, Revocable, Legal, Project;
    var transfer, credit, register := Transfer(from, to, 5, 0), Credit(from, FULL), Register(to, 1);
    var start: Accounts := map[from := AccountState(5, 0)];
    var initial := Initial(start, [[transfer], [credit, register]]);
    ReachHalf(shardOf, start, transfer, [credit, register]);
    var half := map[from := AccountState(0, 1)];
    assert Debit(start, transfer) == half;
    RunEntry(shardOf, initial, [0, 0, 0, 0], half, transfer, [credit, register], [], []);
    var filled := map[from := AccountState(FULL, 1)];
    assert Apply(credit, half).0 == filled && Apply(credit, half).1 == Credited;
    var done, log := [Completed(credit, Credited)], [Event(1, credit, Credited)];
    assert [credit, register][1..] == [register] && [] + done == done && [] + log == log;
    assert [0, 0, 0, 0] + [1, 1] == [0, 0, 0, 0, 1, 1];
    assert [0, 0, 0, 0, 1, 1] + [1, 1] == [0, 0, 0, 0, 1, 1, 1, 1];
    assert [0, 0, 0, 0, 1, 1, 1, 1] + [0, 0, 0] == [0, 0, 0, 0, 1, 1, 1, 1, 0, 0, 0];
    RunEntry(shardOf, initial, [0, 0, 0, 0, 1, 1], filled, transfer, [register], done, log);
    var both := filled[to := AccountState(1, 0)];
    assert Apply(register, filled).0 == both && Apply(register, filled).1 == Registered(true);
    assert [register][1..] == [];
    RunSettle(shardOf, initial, [0, 0, 0, 0, 1, 1, 1, 1], both, transfer,
              done + [Completed(register, Registered(true))], log + [Event(1, register, Registered(true))]);
    s := Run(shardOf, initial, [0, 0, 0, 0, 1, 1, 1, 1, 0, 0, 0]).value;
    forall log ensures !Explains(start, log, s) {
      if Explains(start, log, s) {
        ThreeOrders(log, Completed(transfer, Accepted), Completed(credit, Credited),
                    Completed(register, Registered(true)));
        NoOrderIsLegal(start, from, to, log);
      }
    }
    NotPlaceable(shardOf, start, [[transfer], [credit, register]], [0, 0, 0, 0, 1, 1, 1, 1, 0, 0, 0], s);
  }

  lemma NotPlaceable(shardOf: Address -> nat, start: Accounts, programs: seq<seq<Op>>, schedule: seq<nat>, s: State)
    requires Reachable(shardOf, start, programs, schedule, s) && Finished(s)
    requires forall log :: !Explains(start, log, s)
    ensures !Placeable(shardOf, Initial(start, programs), schedule)
  {
    hide Run, Placeable, MarkedRun, Unmarked, Explained, Explains, Initial;
    PlaceableIff(shardOf, start, programs, schedule, s);
    if Placeable(shardOf, Initial(start, programs), schedule) {
      var turns :| Unmarked(turns) == schedule && MarkedRun(shardOf, Initial(start, programs), turns).Some? &&
                   Explained(start, programs, s, MarkedRun(shardOf, Initial(start, programs), turns).value.log);
      ExplainedExplains(start, programs, s, MarkedRun(shardOf, Initial(start, programs), turns).value.log);
    }
  }

  lemma ExplainedExplains(start: Accounts, programs: seq<seq<Op>>, s: State, log: seq<Event>)
    requires Explained(start, programs, s, log)
    ensures Explains(start, log, s)
  {
  }

  /** Nothing explains a run that cannot be placed, but a run can be explained although a transfer
      was credited past return: without the registration the transfer may stand at its debit. */
  lemma PastReturnExplained(shardOf: Address -> nat, from: Address, to: Address)
    returns (s: State, order: seq<Event>)
    requires from != to
    ensures var start, schedule := map[from := AccountState(5, 0)], [0, 0, 0, 0, 1, 1, 0, 0, 0];
            var programs := [[Transfer(from, to, 5, 0)], [Credit(from, FULL)]];
            && Reachable(shardOf, start, programs, schedule, s) && Finished(s)
            && !Revocable(shardOf, Initial(start, programs), schedule)
            && Explained(start, programs, s, order)
  {
    hide Run, WrapSteps, Revocable, Legal, Project, Explained;
    var transfer, credit := Transfer(from, to, 5, 0), Credit(from, FULL);
    var start: Accounts := map[from := AccountState(5, 0)];
    var initial := Initial(start, [[transfer], [credit]]);
    ReachHalf(shardOf, start, transfer, [credit]);
    var half := map[from := AccountState(0, 1)];
    assert Debit(start, transfer) == half;
    RunEntry(shardOf, initial, [0, 0, 0, 0], half, transfer, [credit], [], []);
    var filled := map[from := AccountState(FULL, 1)];
    assert Apply(credit, half).0 == filled && Apply(credit, half).1 == Credited;
    var done, log := [Completed(credit, Credited)], [Event(1, credit, Credited)];
    assert [credit][1..] == [] && [] + done == done && [] + log == log;
    assert [0, 0, 0, 0] + [1, 1] == [0, 0, 0, 0, 1, 1];
    assert [0, 0, 0, 0, 1, 1] + [0, 0, 0] == [0, 0, 0, 0, 1, 1, 0, 0, 0];
    RunSettle(shardOf, initial, [0, 0, 0, 0, 1, 1], filled, transfer, done, log);
    s := Run(shardOf, initial, [0, 0, 0, 0, 1, 1, 0, 0, 0]).value;
    order := TransfersAndCreditsLinearizable(shardOf, start, [[transfer], [credit]], [0, 0, 0, 0, 1, 1, 0, 0, 0], s);
  }

  lemma LegalThree(start: Accounts, a: Event, b: Event, c: Event)
    requires Legal(start, [a, b, c])
    ensures var one := Apply(a.op, start);
            var two := Apply(b.op, one.0);
            && a.outcome == one.1 && b.outcome == two.1 && c.outcome == Apply(c.op, two.0).1
  {
    hide Apply;
    var log := [a, b, c];
    assert log[..2] == [a, b] && [a, b][..1] == [a] && [a][..0] == [];
    assert Legal(start, [a, b]) && Legal(start, [a]);
    assert After(start, []) == start && After(start, [a]) == Apply(a.op, start).0;
    assert After(start, [a, b]) == Apply(b.op, Apply(a.op, start).0).0;
  }

  lemma NoOrderIsLegal(start: Accounts, from: Address, to: Address, log: seq<Event>)
    requires from != to && start == map[from := AccountState(5, 0)]
    requires var t, c := Event(0, Transfer(from, to, 5, 0), Accepted), Event(1, Credit(from, FULL), Credited);
             var r := Event(1, Register(to, 1), Registered(true));
             log == [t, c, r] || log == [c, t, r] || log == [c, r, t]
    ensures !Legal(start, log)
  {
    hide Legal;
    if Legal(start, log) {
      LegalThree(start, log[0], log[1], log[2]);
    }
  }
}
