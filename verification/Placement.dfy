/** Where a transfer may stand in the sequential run. Registrations and credits take effect at one
    step; a transfer that is accepted takes effect in two, and may be thought of as happening whole
    at its debit, at its credit, or at any moment between. A placed schedule marks that moment for
    every transfer; this module says exactly which marks give a sequential run, and exactly which
    schedules have such marks. Nothing is assumed about sizes; additions may wrap. */
module LedgerPlacement {
  import opened Common
  import opened LedgerSpec
  import opened ConcurrentLedger

  /** A step of a thread, or the mark that the transfer in flight happens now. */
  datatype Turn = Act(t: nat) | Place

  /** A state with the log in the marked order; `placed` says that the transfer in flight is in it. */
  datatype Marked = Marked(s: State, log: seq<Event>, placed: bool)

  /** A marked step. A transfer enters the log at its mark, which must come before its credit. */
  function MarkedStep(shardOf: Address -> nat, m: Marked, turn: Turn): Option<Marked> {
    match turn
    case Place =>
      if InFlight(m.s).Some? && m.s.lock.Some? && !m.placed then
        Some(m.(log := m.log + [Event(m.s.lock.value, InFlight(m.s).value, Accepted)], placed := true))
      else None
    case Act(t) =>
      if t >= |m.s.threads| then None
      else
        match Step(shardOf, m.s, t)
        case None => None
        case Some(s') =>
          if m.s.threads[t].pc.AtReceiver? then
            if m.placed then Some(Marked(s', m.log, false)) else None
          else Some(Marked(s', m.log + Logged(m.s, s'), m.placed))
  }

  /** What a step adds to the log. */
  function Logged(s: State, s': State): seq<Event> {
    if |s.log| <= |s'.log| then s'.log[|s.log|..] else []
  }

  function MarkedRun(shardOf: Address -> nat, s: State, turns: seq<Turn>): Option<Marked> {
    if turns == [] then Some(Marked(s, [], false))
    else
      match MarkedRun(shardOf, s, turns[..|turns| - 1])
      case None => None
      case Some(m) => MarkedStep(shardOf, m, turns[|turns| - 1])
  }

  /** The schedule without the marks. */
  function Unmarked(turns: seq<Turn>): seq<nat> {
    if turns == [] then []
    else
      var n := |turns| - 1;
      Unmarked(turns[..n]) + match turns[n] case Act(t) => [t] case Place => []
  }

  // ---------------------------------------------------------------- one turn

  /** A registration that creates the account the transfer in flight is going to credit. */
  predicate CreatesReceiver(s: State, t: nat)
    requires t < |s.threads|
  {
    var th := s.threads[t];
    && th.pc.AtEntry? && th.todo != [] && th.todo[0].Register? && th.todo[0].address !in s.accounts
    && InFlight(s).Some? && InFlight(s).value.Transfer? && InFlight(s).value.to == th.todo[0].address
  }

  /** The amount in flight fits back into its sender's account. */
  predicate Returnable(s: State) {
    && InFlight(s).Some? && InFlight(s).value.Transfer?
    && !Overflows(s.accounts, InFlight(s).value.from, InFlight(s).value.amount)
  }

  /** A mark where the amount does not fit back, or the creation of the receiver's account after it. */
  predicate Misplaced(m: Marked, turn: Turn) {
    match turn
    case Place => !Returnable(m.s)
    case Act(t) => t < |m.s.threads| && m.placed && CreatesReceiver(m.s, t)
  }

  /** The accounts of the sequential run: with the transfer in flight whole, or not begun. */
  function View(m: Marked): Accounts
    requires FlightOk(m.s)
  {
    match InFlight(m.s)
    case None => m.s.accounts
    case Some(op) => if m.placed then AddTo(m.s.accounts, op.to, op.amount) else PutBack(m.s.accounts, op)
  }

  ghost predicate ViewOk(start: Accounts, m: Marked) {
    && FlightOk(m.s) && (InFlight(m.s).None? ==> !m.placed)
    && (Legal(start, m.log) ==> After(start, m.log) == View(m))
  }

  lemma WrapAddSwaps(x: u64, y: u64)
    ensures WrapAdd(x, y) == WrapAdd(y, x)
  {
  }

  /** A registration or credit cannot tell whether the receiver of a transfer has been credited
      already, except for a registration that creates the receiver's account. */
  lemma EntryOpCommutesWithAddTo(accounts: Accounts, op: Op, to: Address, amount: u64)
    requires !op.Transfer?
    ensures op.Register? && op.address == to && to !in accounts ==>
              Apply(op, AddTo(accounts, to, amount)).1 != Apply(op, accounts).1
    ensures !(op.Register? && op.address == to && to !in accounts) ==>
              Apply(op, AddTo(accounts, to, amount)) ==
              (AddTo(Apply(op, accounts).0, to, amount), Apply(op, accounts).1)
  {
    hide WrapAdd;
    if op.Credit? && op.address == to {
      if to in accounts {
        WrapAddCommutes(accounts[to].balance, amount, op.amount);
      } else {
        WrapAddSwaps(op.amount, amount);
      }
    }
    if !(op.Register? && op.address == to && to !in accounts) {
      assert Apply(op, AddTo(accounts, to, amount)).0 == AddTo(Apply(op, accounts).0, to, amount);
    }
  }

  lemma PlaceKeepsView(shardOf: Address -> nat, start: Accounts, m: Marked, m': Marked)
    requires ViewOk(start, m) && MarkedStep(shardOf, m, Place) == Some(m')
    ensures ViewOk(start, m') && (Legal(start, m'.log) <==> Legal(start, m.log) && Returnable(m.s))
  {
    hide InFlight, Apply, AddTo, PreCheck, After, Legal, PutBack, Overflows;
    var op := InFlight(m.s).value;
    LogSnoc(start, m.log, Event(m.s.lock.value, op, Accepted));
    RedoPutBack(m.s.accounts, op);
  }

  lemma EntersKeepsView(start: Accounts, m: Marked, t: nat, m': Marked)
    requires t < |m.s.threads| && m.s.threads[t].todo != [] && Changes(m.s, t, m'.s) && EffectOf(m.s, t).Enters?
    requires m' == Marked(m'.s, m.log + Logged(m.s, m'.s), m.placed) && ViewOk(start, m) && FlightOk(m'.s)
    ensures ViewOk(start, m')
    ensures Legal(start, m'.log) <==> Legal(start, m.log) && !(m.placed && CreatesReceiver(m.s, t))
  {
    hide InFlight, Apply, AddTo, PreCheck, After, Legal, PutBack;
    var op := m.s.threads[t].todo[0];
    LogSnoc(start, m.log, Event(t, op, Apply(op, m.s.accounts).1));
    assert Logged(m.s, m'.s) == [Event(t, op, Apply(op, m.s.accounts).1)];
    if InFlight(m.s).Some? {
      var flight := InFlight(m.s).value;
      EntryOpCommutesWithPutBack(m.s.accounts, op, flight);
      EntryOpCommutesWithAddTo(m.s.accounts, op, flight.to, flight.amount);
    }
  }

  lemma RefusesKeepsView(start: Accounts, m: Marked, t: nat, m': Marked)
    requires t < |m.s.threads| && m.s.threads[t].todo != [] && Changes(m.s, t, m'.s) && EffectOf(m.s, t).Refuses?
    requires m' == Marked(m'.s, m.log + Logged(m.s, m'.s), m.placed) && ViewOk(start, m)
    ensures ViewOk(start, m') && (Legal(start, m'.log) <==> Legal(start, m.log))
  {
    hide EffectOf, InFlight, After, Legal, AddTo, Debit;
    var e := Event(t, m.s.threads[t].todo[0], Rejected(EffectOf(m.s, t).error));
    LogSnoc(start, m.log, e);
    assert Logged(m.s, m'.s) == [e];
  }

  /** The steps that log nothing. */
  lemma SilentKeepsView(start: Accounts, m: Marked, t: nat, m': Marked)
    requires t < |m.s.threads| && m.s.threads[t].todo != [] && Changes(m.s, t, m'.s)
    requires EffectOf(m.s, t).Quiet? || EffectOf(m.s, t).Debits?
    requires m' == Marked(m'.s, m.log + Logged(m.s, m'.s), m.placed) && ViewOk(start, m) && FlightOk(m'.s)
    ensures ViewOk(start, m') && m'.log == m.log
  {
    hide EffectOf, InFlight, After, Legal, AddTo;
    assert Logged(m.s, m'.s) == [] && m.log + [] == m.log;
    if EffectOf(m.s, t).Debits? {
      PutBackUndoesDebit(m.s.accounts, m.s.threads[t].todo[0]);
    }
  }

  lemma SettlesKeepsView(start: Accounts, m: Marked, t: nat, m': Marked)
    requires t < |m.s.threads| && m.s.threads[t].todo != [] && Changes(m.s, t, m'.s) && EffectOf(m.s, t).Settles?
    requires m.placed && m' == Marked(m'.s, m.log, false) && ViewOk(start, m)
    ensures ViewOk(start, m')
  {
    hide EffectOf, InFlight, After, Legal, AddTo;
  }

  /** Every turn keeps the relation to the marked sequential run, and the log stays one exactly if
      the turn is not misplaced. */
  lemma TurnKeepsView(shardOf: Address -> nat, start: Accounts, m: Marked, turn: Turn, m': Marked)
    requires LocksOk(shardOf, m.s) && ViewOk(start, m) && MarkedStep(shardOf, m, turn) == Some(m') && FlightOk(m'.s)
    ensures ViewOk(start, m') && (Legal(start, m'.log) <==> Legal(start, m.log) && !Misplaced(m, turn))
  {
    hide LocksOk, Step, ViewOk, Legal, Changes, InFlight, FlightOk, Logged;
    match turn
    case Place =>
      PlaceKeepsView(shardOf, start, m, m');
    case Act(t) =>
      StepChanges(shardOf, m.s, t);
      match EffectOf(m.s, t)
      case Quiet => SilentKeepsView(start, m, t, m');
      case Refuses(_) => RefusesKeepsView(start, m, t, m');
      case Enters => EntersKeepsView(start, m, t, m');
      case Debits => SilentKeepsView(start, m, t, m');
      case Settles => SettlesKeepsView(start, m, t, m');
  }

  // ---------------------------------------------------------------- program order

  /** A placed transfer is in the log before its thread is about to return from it. */
  function Ahead(m: Marked, t: nat): seq<Completed> {
    if m.placed && m.s.lock == Some(t) && InFlight(m.s).Some? then [Completed(InFlight(m.s).value, Accepted)] else []
  }

  ghost predicate MarkedOrder(m: Marked) {
    && (forall i :: 0 <= i < |m.log| ==> m.log[i].tid < |m.s.threads|)
    && forall t :: 0 <= t < |m.s.threads| ==>
         Project(m.log, t) == m.s.threads[t].finished + Pending(m.s.threads[t]) + Ahead(m, t)
  }

  lemma PlaceKeepsOrder(shardOf: Address -> nat, m: Marked, m': Marked)
    requires MarkedOrder(m) && MarkedStep(shardOf, m, Place) == Some(m')
    ensures MarkedOrder(m')
  {
    assert m.s.lock.value < |m.s.threads|;
    hide InFlight;
    forall u | 0 <= u < |m'.s.threads|
      ensures Project(m'.log, u) == m'.s.threads[u].finished + Pending(m'.s.threads[u]) + Ahead(m', u)
    {
      ProjectSnoc(m.log, Event(m.s.lock.value, InFlight(m.s).value, Accepted), u);
    }
  }

  /** A transfer in flight keeps its lock until it settles, and its thread logs nothing. */
  lemma FlightStays(shardOf: Address -> nat, s: State, t: nat)
    requires LocksOk(shardOf, s) && t < |s.threads| && Step(shardOf, s, t).Some?
    requires InFlight(s).Some? && !s.threads[t].pc.AtReceiver?
    ensures var s' := Step(shardOf, s, t).value;
            && s'.lock == s.lock && InFlight(s') == InFlight(s)
            && (s.lock == Some(t) ==> s'.log == s.log)
  {
    hide Apply, AddTo, Debit, SenderCheck, PreCheck, ShardsOwned, Holding;
    StepChanges(shardOf, s, t);
    assert HoldsLock(s.threads[s.lock.value].pc);
  }

  lemma ActKeepsOrder(shardOf: Address -> nat, m: Marked, t: nat, m': Marked)
    requires LocksOk(shardOf, m.s) && MarkedOrder(m) && MarkedStep(shardOf, m, Act(t)) == Some(m')
    requires (InFlight(m.s).None? ==> !m.placed) && !m.s.threads[t].pc.AtReceiver?
    ensures MarkedOrder(m')
  {
    hide Step, LocksOk, InFlight, Pending;
    StepIsHistoryMove(shardOf, m.s, t);
    if m.placed {
      FlightStays(shardOf, m.s, t);
    }
    var logged := m'.s.log[|m.s.log|..];
    forall u | 0 <= u < |m'.s.threads|
      ensures Project(m'.log, u) == m'.s.threads[u].finished + Pending(m'.s.threads[u]) + Ahead(m', u)
    {
      ProjectMore(m.log, logged, t, u);
      assert Ahead(m', u) == Ahead(m, u);
      var had := m.s.threads[u].finished + Pending(m.s.threads[u]);
      if u == t {
        assert Ahead(m, t) != [] ==> logged == [] && AsCompleted([]) == [];
        assert had + Ahead(m, t) + AsCompleted(logged) == had + AsCompleted(logged) + Ahead(m, t);
      }
    }
  }

  lemma ProjectMore(log: seq<Event>, logged: seq<Event>, t: nat, u: nat)
    requires |logged| <= 1 && (logged != [] ==> logged[0].tid == t)
    ensures Project(log + logged, u) == Project(log, u) + if u == t then AsCompleted(logged) else []
  {
    if logged != [] {
      assert logged == [logged[0]];
      ProjectSnoc(log, logged[0], u);
      assert AsCompleted(logged) == [Completed(logged[0].op, logged[0].outcome)];
    } else {
      assert log + [] == log && AsCompleted([]) == [];
    }
  }

  lemma SettleKeepsOrder(shardOf: Address -> nat, m: Marked, t: nat, m': Marked)
    requires LocksOk(shardOf, m.s) && MarkedOrder(m) && MarkedStep(shardOf, m, Act(t)) == Some(m')
    requires m.s.threads[t].pc.AtReceiver?
    ensures MarkedOrder(m')
  {
    hide ShardsOwned, Holding, AddTo, Apply, SenderCheck, PreCheck, Debit;
    assert HoldsLock(m.s.threads[t].pc) && m.s.lock == Some(t);
    forall u | 0 <= u < |m'.s.threads|
      ensures Project(m'.log, u) == m'.s.threads[u].finished + Pending(m'.s.threads[u]) + Ahead(m', u)
    {
      var finished := m.s.threads[u].finished;
      assert finished + [] == finished;
    }
  }

  // ---------------------------------------------------------------- marked runs

  /** No turn of a marked run is misplaced. */
  predicate WellPlaced(shardOf: Address -> nat, s: State, turns: seq<Turn>) {
    if turns == [] then true
    else
      var n := |turns| - 1;
      && WellPlaced(shardOf, s, turns[..n])
      && match MarkedRun(shardOf, s, turns[..n])
         case None => true
         case Some(m) => !Misplaced(m, turns[n])
  }

  lemma TurnSteps(shardOf: Address -> nat, m: Marked, turn: Turn)
    requires MarkedStep(shardOf, m, turn).Some?
    ensures var s' := MarkedStep(shardOf, m, turn).value.s;
            match turn
            case Place => s' == m.s
            case Act(t) => t < |m.s.threads| && Step(shardOf, m.s, t) == Some(s')
  {
    hide Step, InFlight, Logged;
  }

  lemma TurnRuns(shardOf: Address -> nat, s: State, turns: seq<Turn>)
    requires turns != [] && MarkedRun(shardOf, s, turns).Some?
    ensures var n := |turns| - 1;
            MarkedRun(shardOf, s, turns[..n]).Some?
    ensures var n := |turns| - 1;
            var m := MarkedRun(shardOf, s, turns[..n]).value;
            Run(shardOf, s, Unmarked(turns[..n])) == Some(m.s) ==>
              Run(shardOf, s, Unmarked(turns)) == Some(MarkedRun(shardOf, s, turns).value.s)
  {
    hide MarkedStep, Step;
    var n := |turns| - 1;
    var before := Unmarked(turns[..n]);
    TurnSteps(shardOf, MarkedRun(shardOf, s, turns[..n]).value, turns[n]);
    if turns[n].Act? {
      assert (before + [turns[n].t])[..|before|] == before;
    } else {
      assert before + [] == before;
    }
  }

  /** What every marked run keeps: it runs the schedule without its marks, the log has every thread's
      operations in program order, and it is a sequential run, with the accounts of the view,
      exactly if no turn is misplaced. */
  lemma {:induction false} MarkedRunInvariant(shardOf: Address -> nat, start: Accounts, programs: seq<seq<Op>>,
                                              turns: seq<Turn>, m: Marked)
    requires MarkedRun(shardOf, Initial(start, programs), turns) == Some(m)
    ensures Reachable(shardOf, start, programs, Unmarked(turns), m.s)
    ensures ViewOk(start, m) && MarkedOrder(m)
    ensures Legal(start, m.log) <==> WellPlaced(shardOf, Initial(start, programs), turns)
  {
    hide MarkedStep, ViewOk, MarkedOrder, Legal, Misplaced, Run;
    var initial := Initial(start, programs);
    if turns == [] {
      MarkedStart(shardOf, start, programs);
    } else {
      var n := |turns| - 1;
      TurnRuns(shardOf, initial, turns);
      var mid := MarkedRun(shardOf, initial, turns[..n]).value;
      MarkedRunInvariant(shardOf, start, programs, turns[..n], mid);
      TurnKeepsAll(shardOf, start, programs, Unmarked(turns[..n]), mid, turns[n], Unmarked(turns), m);
    }
  }

  lemma MarkedStart(shardOf: Address -> nat, start: Accounts, programs: seq<seq<Op>>)
    ensures var m := Marked(Initial(start, programs), [], false);
            && Reachable(shardOf, start, programs, [], m.s)
            && ViewOk(start, m) && MarkedOrder(m) && Legal(start, [])
  {
  }

  lemma TurnKeepsAll(shardOf: Address -> nat, start: Accounts, programs: seq<seq<Op>>, schedule: seq<nat>, m: Marked,
                     turn: Turn, schedule': seq<nat>, m': Marked)
    requires MarkedStep(shardOf, m, turn) == Some(m') && ViewOk(start, m) && MarkedOrder(m)
    requires Reachable(shardOf, start, programs, schedule, m.s)
    requires Reachable(shardOf, start, programs, schedule', m'.s)
    ensures ViewOk(start, m') && MarkedOrder(m')
    ensures Legal(start, m'.log) <==> Legal(start, m.log) && !Misplaced(m, turn)
  {
    hide LocksOk, HistoryOk, NoncesOk, MarkedOrder, Legal, Balance, FlightOk, InFlight, Step, Run, Misplaced;
    RunInvariant(shardOf, start, programs, schedule, m.s);
    RunInvariant(shardOf, start, programs, schedule', m'.s);
    TurnKeepsView(shardOf, start, m, turn, m');
    match turn
    case Place => PlaceKeepsOrder(shardOf, m, m');
    case Act(t) =>
      if m.s.threads[t].pc.AtReceiver? {
        SettleKeepsOrder(shardOf, m, t, m');
      } else {
        ActKeepsOrder(shardOf, m, t, m');
      }
  }

  /** The log runs one operation at a time, each thread's in program order and with the results the
      thread was given, to the accounts of the state. */
  ghost predicate Explained(start: Accounts, programs: seq<seq<Op>>, s: State, log: seq<Event>) {
    && Legal(start, log) && After(start, log) == s.accounts && |s.threads| == |programs|
    && (forall i :: 0 <= i < |log| ==> log[i].tid < |programs|)
    && forall t :: 0 <= t < |programs| ==>
         Project(log, t) == s.threads[t].finished && Ops(s.threads[t].finished) == programs[t]
  }

  /** Exactly which marks turn a finished interleaving into a sequential run. */
  lemma PlacedIff(shardOf: Address -> nat, start: Accounts, programs: seq<seq<Op>>, turns: seq<Turn>, m: Marked)
    requires MarkedRun(shardOf, Initial(start, programs), turns) == Some(m) && Finished(m.s)
    ensures Explained(start, programs, m.s, m.log) <==> WellPlaced(shardOf, Initial(start, programs), turns)
  {
    hide Run, NoncesOk, Balance, WellPlaced, MarkedRun, Legal, After;
    MarkedRunInvariant(shardOf, start, programs, turns, m);
    RunInvariant(shardOf, start, programs, Unmarked(turns), m.s);
    FinishedInOrder(programs, m.s);
    NothingInFlight(m.s);
    forall t | 0 <= t < |programs| ensures Project(m.log, t) == m.s.threads[t].finished {
      assert !Unfinished(m.s.threads[t]);
      assert m.s.threads[t].finished + [] + [] == m.s.threads[t].finished;
    }
  }

  // ---------------------------------------------------------------- which schedules can be marked

  /** The transfer in flight has had a moment at which its amount fitted back and since which no
      registration has created its receiver's account. */
  predicate Open(shardOf: Address -> nat, s: State, schedule: seq<nat>) {
    if schedule == [] then false
    else
      var n := |schedule| - 1;
      match Run(shardOf, s, schedule[..n])
      case None => false
      case Some(mid) =>
        && schedule[n] < |mid.threads|
        && match Step(shardOf, mid, schedule[n])
           case None => false
           case Some(s') =>
             && InFlight(s').Some?
             && ((Open(shardOf, s, schedule[..n]) && !CreatesReceiver(mid, schedule[n])) || Returnable(s'))
  }

  /** Every transfer that was credited had such a moment. */
  predicate Placeable(shardOf: Address -> nat, s: State, schedule: seq<nat>) {
    if schedule == [] then true
    else
      var n := |schedule| - 1;
      && Placeable(shardOf, s, schedule[..n])
      && match Run(shardOf, s, schedule[..n])
         case None => true
         case Some(mid) =>
           schedule[n] < |mid.threads| && mid.threads[schedule[n]].pc.AtReceiver? ==>
             Open(shardOf, s, schedule[..n])
  }

  /** Well-placed marks for a schedule, with or without one for the transfer in flight. */
  ghost predicate Marks(shardOf: Address -> nat, s: State, schedule: seq<nat>, turns: seq<Turn>, placed: bool) {
    && Unmarked(turns) == schedule && WellPlaced(shardOf, s, turns)
    && MarkedRun(shardOf, s, turns).Some? && MarkedRun(shardOf, s, turns).value.placed == placed
  }

  lemma TurnSnoc(shardOf: Address -> nat, s: State, turns: seq<Turn>, turn: Turn, m: Marked)
    requires MarkedRun(shardOf, s, turns) == Some(m)
    ensures MarkedRun(shardOf, s, turns + [turn]) == MarkedStep(shardOf, m, turn)
    ensures WellPlaced(shardOf, s, turns + [turn]) <==> WellPlaced(shardOf, s, turns) && !Misplaced(m, turn)
    ensures Unmarked(turns + [turn]) == Unmarked(turns) + match turn case Act(t) => [t] case Place => []
  {
    hide MarkedStep, Misplaced;
    assert (turns + [turn])[..|turns|] == turns;
  }

  /** Marks go on with the schedule. */
  lemma MarksAct(shardOf: Address -> nat, start: Accounts, programs: seq<seq<Op>>, schedule: seq<nat>, mid: State,
                 t: nat, s: State, turns: seq<Turn>, placed: bool)
    requires Reachable(shardOf, start, programs, schedule, mid) && t < |mid.threads|
    requires Step(shardOf, mid, t) == Some(s)
    requires Marks(shardOf, Initial(start, programs), schedule, turns, placed)
    requires !(placed && CreatesReceiver(mid, t)) && (mid.threads[t].pc.AtReceiver? ==> placed)
    ensures Marks(shardOf, Initial(start, programs), schedule + [t], turns + [Act(t)],
                  placed && !mid.threads[t].pc.AtReceiver?)
  {
    hide Step, Run, MarkedRun, WellPlaced, Unmarked, CreatesReceiver, Initial;
    var m := MarkedRun(shardOf, Initial(start, programs), turns).value;
    MarkedRunInvariant(shardOf, start, programs, turns, m);
    TurnSnoc(shardOf, Initial(start, programs), turns, Act(t), m);
  }

  lemma MarksPlace(shardOf: Address -> nat, start: Accounts, programs: seq<seq<Op>>, schedule: seq<nat>, s: State,
                   turns: seq<Turn>)
    requires Reachable(shardOf, start, programs, schedule, s) && Returnable(s)
    requires Marks(shardOf, Initial(start, programs), schedule, turns, false)
    ensures Marks(shardOf, Initial(start, programs), schedule, turns + [Place], true)
  {
    hide Step, Run, MarkedRun, WellPlaced, Unmarked, Initial, Overflows;
    var m := MarkedRun(shardOf, Initial(start, programs), turns).value;
    MarkedRunInvariant(shardOf, start, programs, turns, m);
    TurnSnoc(shardOf, Initial(start, programs), turns, Place, m);
    assert schedule + [] == schedule;
  }

  lemma StepOf(shardOf: Address -> nat, start: Accounts, programs: seq<seq<Op>>, schedule: seq<nat>, s: State)
    returns (mid: State, t: nat)
    requires Reachable(shardOf, start, programs, schedule, s) && schedule != []
    ensures var n := |schedule| - 1;
            && t == schedule[n] && Reachable(shardOf, start, programs, schedule[..n], mid)
            && t < |mid.threads| && Step(shardOf, mid, t) == Some(s) && schedule[..n] + [t] == schedule
    ensures mid.threads[t].todo != [] && Changes(mid, t, s) && LocksOk(shardOf, mid)
    ensures mid.threads[t].pc.AtReceiver? ==> InFlight(mid).Some? && InFlight(s).None?
  {
    hide Step, Changes, NoncesOk, DataOk, Balance;
    var n := |schedule| - 1;
    mid, t := Run(shardOf, Initial(start, programs), schedule[..n]).value, schedule[n];
    RunInvariant(shardOf, start, programs, schedule[..n], mid);
    StepChanges(shardOf, mid, t);
    SettlesEnds(mid, t, s);
  }

  lemma SettlesEnds(s: State, t: nat, s': State)
    requires t < |s.threads| && s.threads[t].todo != [] && Changes(s, t, s')
    ensures s.threads[t].pc.AtReceiver? ==> InFlight(s).Some? && InFlight(s').None?
  {
  }

  /** A placeable schedule has well-placed marks: without one for the transfer in flight, and with
      one if it is still open. */
  lemma {:induction false} FindMarks(shardOf: Address -> nat, start: Accounts, programs: seq<seq<Op>>,
                                     schedule: seq<nat>, s: State)
    returns (free: seq<Turn>, held: seq<Turn>)
    requires Reachable(shardOf, start, programs, schedule, s)
    requires Placeable(shardOf, Initial(start, programs), schedule)
    ensures Marks(shardOf, Initial(start, programs), schedule, free, false)
    ensures Open(shardOf, Initial(start, programs), schedule) ==>
              Marks(shardOf, Initial(start, programs), schedule, held, true)
    decreases |schedule|
  {
    hide Marks, Step, Changes, LocksOk, CreatesReceiver, Returnable, InFlight, Initial;
    free, held := [], [];
    if schedule == [] {
      NoMarks(shardOf, Initial(start, programs));
    } else {
      var mid, t := StepOf(shardOf, start, programs, schedule, s);
      var front := schedule[..|schedule| - 1];
      var f, h := FindMarks(shardOf, start, programs, front, mid);
      NoFlightNoCreation(mid, t);
      if mid.threads[t].pc.AtReceiver? {
        MarksAct(shardOf, start, programs, front, mid, t, s, h, true);
        free := h + [Act(t)];
      } else {
        MarksAct(shardOf, start, programs, front, mid, t, s, f, false);
        free := f + [Act(t)];
        if Open(shardOf, Initial(start, programs), front) && !CreatesReceiver(mid, t) {
          MarksAct(shardOf, start, programs, front, mid, t, s, h, true);
          held := h + [Act(t)];
        } else if Returnable(s) {
          MarksPlace(shardOf, start, programs, schedule, s, free);
          held := free + [Place];
        }
      }
    }
  }

  lemma NoMarks(shardOf: Address -> nat, s: State)
    ensures Marks(shardOf, s, [], [], false)
  {
  }

  lemma ReturnableIsOpen(shardOf: Address -> nat, start: Accounts, programs: seq<seq<Op>>, schedule: seq<nat>, s: State)
    requires Reachable(shardOf, start, programs, schedule, s) && Returnable(s)
    ensures Open(shardOf, Initial(start, programs), schedule)
  {
    hide Step, Overflows;
  }

  /** And only placeable schedules have: a mark is a moment as asked for. */
  lemma {:induction false} MarksArePlaceable(shardOf: Address -> nat, start: Accounts, programs: seq<seq<Op>>,
                                             turns: seq<Turn>, m: Marked)
    requires MarkedRun(shardOf, Initial(start, programs), turns) == Some(m)
    requires WellPlaced(shardOf, Initial(start, programs), turns)
    ensures Placeable(shardOf, Initial(start, programs), Unmarked(turns))
    ensures m.placed ==> Open(shardOf, Initial(start, programs), Unmarked(turns))
    decreases |turns|
  {
    hide Step, InFlight, CreatesReceiver, Returnable, LocksOk, Changes, Initial, Run;
    var initial := Initial(start, programs);
    if turns != [] {
      var n := |turns| - 1;
      TurnRuns(shardOf, initial, turns);
      var before := MarkedRun(shardOf, initial, turns[..n]).value;
      MarksArePlaceable(shardOf, start, programs, turns[..n], before);
      MarkedRunInvariant(shardOf, start, programs, turns[..n], before);
      MarkedRunInvariant(shardOf, start, programs, turns, m);
      if turns[n].Place? {
        assert Unmarked(turns[..n]) + [] == Unmarked(turns[..n]);
        ReturnableIsOpen(shardOf, start, programs, Unmarked(turns), m.s);
      } else {
        OpenStays(shardOf, start, programs, Unmarked(turns[..n]), before, turns[n].t, m);
      }
    }
  }

  lemma OpenStays(shardOf: Address -> nat, start: Accounts, programs: seq<seq<Op>>, schedule: seq<nat>, m: Marked,
                  t: nat, m': Marked)
    requires Reachable(shardOf, start, programs, schedule, m.s) && ViewOk(start, m)
    requires MarkedStep(shardOf, m, Act(t)) == Some(m') && !Misplaced(m, Act(t))
    requires Placeable(shardOf, Initial(start, programs), schedule)
    requires m.placed ==> Open(shardOf, Initial(start, programs), schedule)
    ensures Placeable(shardOf, Initial(start, programs), schedule + [t])
    ensures m'.placed ==> Open(shardOf, Initial(start, programs), schedule + [t])
  {
    hide Step, CreatesReceiver, Returnable, LocksOk, InFlight, Initial, NoncesOk, Balance;
    assert (schedule + [t])[..|schedule|] == schedule;
    RunInvariant(shardOf, start, programs, schedule, m.s);
    if m'.placed {
      FlightStays(shardOf, m.s, t);
    }
  }

  /** Exactly when a finished interleaving is a sequential run with registrations and credits at the
      step where they run and each accepted transfer whole at some moment between its debit and its
      credit: when for every transfer there is a moment between the two at which the amount fits
      back into the sender's account and after which no registration creates the receiver's. */
  lemma PlaceableIff(shardOf: Address -> nat, start: Accounts, programs: seq<seq<Op>>, schedule: seq<nat>, s: State)
    requires Reachable(shardOf, start, programs, schedule, s) && Finished(s)
    ensures Placeable(shardOf, Initial(start, programs), schedule) <==>
            exists turns ::
              && Unmarked(turns) == schedule && MarkedRun(shardOf, Initial(start, programs), turns).Some?
              && Explained(start, programs, s, MarkedRun(shardOf, Initial(start, programs), turns).value.log)
  {
    hide Run, MarkedRun, WellPlaced, Placeable, Open, Explained, Finished, Unmarked, Initial;
    var initial := Initial(start, programs);
    if Placeable(shardOf, initial, schedule) {
      var turns, _ := FindMarks(shardOf, start, programs, schedule, s);
      var m := MarkedRun(shardOf, initial, turns).value;
      MarkedRunInvariant(shardOf, start, programs, turns, m);
      PlacedIff(shardOf, start, programs, turns, m);
    }
    forall turns | Unmarked(turns) == schedule && MarkedRun(shardOf, initial, turns).Some? &&
                   Explained(start, programs, s, MarkedRun(shardOf, initial, turns).value.log)
      ensures Placeable(shardOf, initial, schedule)
    {
      var m := MarkedRun(shardOf, initial, turns).value;
      MarkedRunInvariant(shardOf, start, programs, turns, m);
      PlacedIff(shardOf, start, programs, turns, m);
      MarksArePlaceable(shardOf, start, programs, turns, m);
    }
  }

  // ---------------------------------------------------------------- transfers at their debit

  /** Every transfer marked right after its debit. */
  function AtDebit(shardOf: Address -> nat, s: State, schedule: seq<nat>): seq<Turn> {
    if schedule == [] then []
    else
      var n := |schedule| - 1;
      AtDebit(shardOf, s, schedule[..n]) + [Act(schedule[n])] +
      match (Run(shardOf, s, schedule[..n]), Run(shardOf, s, schedule))
      case (Some(mid), Some(s')) => if InFlight(mid).None? && InFlight(s').Some? then [Place] else []
      case _ => []
  }

  /** No registration created the receiver's account of the transfer in flight. */
  predicate NoCreation(shardOf: Address -> nat, s: State, schedule: seq<nat>) {
    if schedule == [] then true
    else
      var n := |schedule| - 1;
      && NoCreation(shardOf, s, schedule[..n])
      && match Run(shardOf, s, schedule[..n])
         case None => true
         case Some(mid) => schedule[n] < |mid.threads| ==> !CreatesReceiver(mid, schedule[n])
  }

  /** How a step changes what is in flight: right after a debit the amount fits back. */
  lemma FlightChanges(s: State, t: nat, s': State)
    requires t < |s.threads| && s.threads[t].todo != [] && Changes(s, t, s')
    ensures InFlight(s).None? && InFlight(s').Some? ==> Returnable(s') && !CreatesReceiver(s, t)
    ensures InFlight(s).Some? && InFlight(s').None? ==> s.threads[t].pc.AtReceiver?
  {
    hide InFlight;
    if EffectOf(s, t).Debits? {
      PutBackUndoesDebit(s.accounts, s.threads[t].todo[0]);
    }
  }

  lemma {:induction false} AtDebitMarks(shardOf: Address -> nat, start: Accounts, programs: seq<seq<Op>>,
                                        schedule: seq<nat>, s: State) returns (m: Marked)
    requires Reachable(shardOf, start, programs, schedule, s)
    ensures var turns := AtDebit(shardOf, Initial(start, programs), schedule);
            && MarkedRun(shardOf, Initial(start, programs), turns) == Some(m) && Unmarked(turns) == schedule
            && m.s == s && m.placed == InFlight(s).Some?
            && (WellPlaced(shardOf, Initial(start, programs), turns) <==>
                  NoCreation(shardOf, Initial(start, programs), schedule))
    decreases |schedule|
  {
    hide Step, Changes, LocksOk, CreatesReceiver, Returnable, InFlight, MarkedRun, WellPlaced, Unmarked;
    var initial := Initial(start, programs);
    if schedule == [] {
      m := Marked(initial, [], false);
      NothingMarked(shardOf, start, programs);
    } else {
      var mid, t := StepOf(shardOf, start, programs, schedule, s);
      var front := schedule[..|schedule| - 1];
      var before := AtDebitMarks(shardOf, start, programs, front, mid);
      var turns := AtDebit(shardOf, initial, front);
      TurnSnoc(shardOf, initial, turns, Act(t), before);
      FlightChanges(mid, t, s);
      m := MarkedStep(shardOf, before, Act(t)).value;
      NoFlightNoCreation(mid, t);
      if InFlight(mid).None? && InFlight(s).Some? {
        TurnSnoc(shardOf, initial, turns + [Act(t)], Place, m);
        PlaceWorks(shardOf, start, programs, schedule, m);
        m := MarkedStep(shardOf, m, Place).value;
        assert schedule + [] == schedule;
      } else {
        assert turns + [Act(t)] + [] == turns + [Act(t)];
      }
    }
  }

  lemma NothingMarked(shardOf: Address -> nat, start: Accounts, programs: seq<seq<Op>>)
    ensures var s := Initial(start, programs);
            && MarkedRun(shardOf, s, []) == Some(Marked(s, [], false)) && WellPlaced(shardOf, s, [])
            && Unmarked([]) == [] && InFlight(s).None?
  {
  }

  lemma NoFlightNoCreation(s: State, t: nat)
    requires t < |s.threads|
    ensures CreatesReceiver(s, t) ==> InFlight(s).Some? && !s.threads[t].pc.AtReceiver?
  {
  }

  lemma PlaceWorks(shardOf: Address -> nat, start: Accounts, programs: seq<seq<Op>>, schedule: seq<nat>, m: Marked)
    requires Reachable(shardOf, start, programs, schedule, m.s) && InFlight(m.s).Some? && !m.placed
    ensures MarkedStep(shardOf, m, Place).Some?
  {
  }

  /** Exactly when a finished interleaving is the sequential run with each accepted transfer whole at
      its debit: when no registration creates a receiver's account between debit and credit. */
  lemma LinearizableAtDebitIff(shardOf: Address -> nat, start: Accounts, programs: seq<seq<Op>>,
                               schedule: seq<nat>, s: State)
    requires Reachable(shardOf, start, programs, schedule, s) && Finished(s)
    ensures var initial := Initial(start, programs);
            var run := MarkedRun(shardOf, initial, AtDebit(shardOf, initial, schedule));
            && run.Some?
            && (Explained(start, programs, s, run.value.log) <==> NoCreation(shardOf, initial, schedule))
  {
    hide Run, MarkedRun, WellPlaced, NoCreation, Explained, Finished, AtDebit, Unmarked, Initial;
    var m := AtDebitMarks(shardOf, start, programs, schedule, s);
    PlacedIff(shardOf, start, programs, AtDebit(shardOf, Initial(start, programs), schedule), m);
  }

  ghost predicate RegistersNothing(programs: seq<seq<Op>>) {
    forall t, i :: 0 <= t < |programs| && 0 <= i < |programs[t]| ==> !programs[t][i].Register?
  }

  lemma {:induction false} RegistersNothingCreates(shardOf: Address -> nat, start: Accounts, programs: seq<seq<Op>>,
                                                   schedule: seq<nat>, s: State)
    requires Reachable(shardOf, start, programs, schedule, s) && RegistersNothing(programs)
    ensures NoCreation(shardOf, Initial(start, programs), schedule)
  {
    hide Step, LocksOk, Changes, InFlight, DataOk, NoncesOk, Balance;
    if schedule != [] {
      var mid, t := StepOf(shardOf, start, programs, schedule, s);
      var front := schedule[..|schedule| - 1];
      RegistersNothingCreates(shardOf, start, programs, front, mid);
      RunInvariant(shardOf, start, programs, front, mid);
      var th := mid.threads[t];
      assert programs[t][|Ops(th.finished)|] == th.todo[0];
    }
  }

  /** The program registers its account before it does anything else. So every interleaving of its
      transfers and credits, however much is minted and whatever wraps, has the accounts and the
      results of a sequential run, in program order. */
  lemma TransfersAndCreditsLinearizable(shardOf: Address -> nat, start: Accounts, programs: seq<seq<Op>>,
                                        schedule: seq<nat>, s: State) returns (log: seq<Event>)
    requires Reachable(shardOf, start, programs, schedule, s) && Finished(s) && RegistersNothing(programs)
    ensures Explained(start, programs, s, log)
  {
    hide Run, Explained, Finished, MarkedRun, AtDebit, NoCreation, RegistersNothing;
    RegistersNothingCreates(shardOf, start, programs, schedule, s);
    LinearizableAtDebitIff(shardOf, start, programs, schedule, s);
    log := MarkedRun(shardOf, Initial(start, programs), AtDebit(shardOf, Initial(start, programs), schedule)).value.log;
  }
}
