/** The tasks and their manager as values: what each action does to them, and what all actions keep. */
module TaskStates {
  import opened Results
  import opened RunQueues

  /** What a task is in the middle of: nothing that concerns the manager, a receive-or-sleep loop, or
      WaitFinish for a task id. */
  datatype Doing = Free | Receiving | Waiting(id: nat)

  /** Messages between tasks; a pipe message carries up to 16 bytes, and none to close the pipe. */
  datatype Message = Pipe(data: seq<char>) | Other(kind: nat)

  /** What can happen next: the timer or another interrupt, or what the current task does. */
  datatype Action = Timer | Create | Wake(id: nat, level: WakeLevel) | Send(id: nat, msg: Message) | Receive
                  | Await(id: nat) | End(exitCode: int)

  type WakeLevel = lv: int | lv <= MAX_LEVEL

  const DEFAULT_LEVEL: Level := 1

  datatype Look = Look(id: nat, msgs: seq<Message>, level: Level, running: bool, doing: Doing)

  const NEW_TASK := Look(0, [], DEFAULT_LEVEL, false, Free)

  /** All that the manager keeps: the run queues, the tasks, the exit codes not yet handed over and the
      tasks that wait for one; also, for what is said about them, all exit codes there were and the tasks
      whose code was handed over. */
  datatype State<T> = State(q: Queues<T>, looks: map<T, Look>, latestId: nat, finished: map<nat, int>,
                            waiters: map<nat, T>, exitCodes: map<nat, int>, collected: set<nat>) {
    predicate Has(t: T) {
      q.Live() && t in looks
    }

    predicate Live() {
      q.Live() && q.Front() in looks
    }

    ghost function Current(): Look
      requires Live()
    {
      looks[q.Front()]
    }

    /** The level of every task that runs. */
    ghost function Levels(): map<T, nat> {
      map t | t in looks && looks[t].running :: looks[t].level
    }

    // ---- what happens to one task

    ghost function With(t: T, look: Look): State<T> {
      this.(looks := looks[t := look])
    }

    /** A new task, which does not run yet. */
    ghost function Created(t: T): State<T> {
      With(t, NEW_TASK.(id := latestId + 1)).(latestId := latestId + 1)
    }

    /** A sleeping task runs again; a running one at most changes its level. A negative level is its own. */
    ghost function Awake(t: T, level: int): State<T>
      requires Has(t) && level <= MAX_LEVEL
    {
      var look := looks[t];
      var lv := if level < 0 then look.level else level;
      With(t, look.(level := lv, running := true)).(
        q := if !look.running then Woken(q, t, lv) else if lv != look.level then Releveled(q, t, look.level, lv) else q)
    }

    ghost function Asleep(t: T): State<T>
      requires Has(t)
    {
      With(t, looks[t].(running := false)).(q := Slept(q, t, looks[t].level))
    }

    ghost function Delivered(t: T, msg: Message): State<T>
      requires Has(t)
    {
      With(t, looks[t].(msgs := looks[t].msgs + [msg])).Awake(t, -1)
    }

    /** The current task takes its oldest message, or sleeps until one comes. */
    ghost function Received(): State<T>
      requires Live()
    {
      var t, look := q.Front(), Current();
      if look.msgs == [] then With(t, look.(doing := Receiving)).Asleep(t)
      else With(t, look.(msgs := look.msgs[1..], doing := Free))
    }

    /** The current task gets the exit code, or is registered for it and sleeps. */
    ghost function Awaited(id: nat): State<T>
      requires Live()
    {
      var t, look := q.Front(), Current();
      if id in finished then With(t, look.(doing := Free)).(finished := finished - {id}, collected := collected + {id})
      else With(t, look.(doing := Waiting(id))).(waiters := waiters[id := t]).Asleep(t)
    }

    /** The current task goes, and its exit code is kept. */
    ghost function Gone(exitCode: int): State<T>
      requires Live()
    {
      var t, id := q.Front(), Current().id;
      this.(q := Rotated(q, true), looks := looks - {t}, waiters := waiters - {id},
            finished := finished[id := exitCode], exitCodes := exitCodes[id := exitCode])
    }

    /** Moreover the task that waits for it runs. */
    ghost predicate Ended(exitCode: int, s: State<T>)
      requires Live()
    {
      var id, rest := Current().id, Gone(exitCode);
      if id in waiters then rest.Has(waiters[id]) && s == rest.Awake(waiters[id], -1) else s == rest
    }

    /** The current task begins to wait or goes on waiting, for a task that is alive or has left its exit
        code, and for which nobody else waits. */
    ghost predicate MayAwait(id: nat, idle: T)
      requires Live()
    {
      && q.Front() != idle
      && (Current().doing == Waiting(id)
          || (Current().doing.Free? && (forall t :: t in looks ==> looks[t].doing != Waiting(id))
              && ((exists t :: t in looks && looks[t].id == id) || id in finished)))
    }

    // ---- what is kept

    /** The run queues hold exactly the running tasks, the idle task never sleeps, and the tasks have
        different ids, all given out already. */
    ghost predicate Scheduled(idle: T) {
      && Consistent(q, Levels())
      && idle in looks && looks[idle].running && looks[idle].doing == Free
      && (forall t :: t in looks ==> 0 < looks[t].id <= latestId)
      && (forall t, u :: t in looks && u in looks && looks[t].id == looks[u].id ==> t == u)
    }

    /** A task parked in a receive-or-sleep step has no message. One that is parked in WaitFinish is
        registered as the waiter of its task; every registered waiter is a live task in WaitFinish, and no two
        tasks wait for the same one. */
    ghost predicate Parked() {
      && (forall t :: t in looks && looks[t].doing.Receiving? && !looks[t].running ==> looks[t].msgs == [])
      && (forall t :: t in looks && looks[t].doing.Waiting? && !looks[t].running ==>
            looks[t].doing.id in waiters && waiters[looks[t].doing.id] == t)
      && (forall b :: b in waiters ==> waiters[b] in looks && looks[waiters[b]].doing == Waiting(b))
      && (forall t, u :: t in looks && u in looks && looks[t].doing.Waiting? && looks[t].doing == looks[u].doing ==> t == u)
    }

    /** The exit codes kept are those not yet handed over; a registered waiter's task has not finished,
        and one that is waited for has not been handed over. */
    ghost predicate Codes() {
      && collected <= exitCodes.Keys && finished == exitCodes - collected
      && (forall b :: b in exitCodes ==> b <= latestId && b !in waiters)
      && (forall t :: t in looks ==> looks[t].id !in exitCodes)
      && (forall t :: t in looks && looks[t].doing.Waiting? ==> looks[t].doing.id !in collected)
    }

    ghost predicate Orderly(idle: T) {
      Scheduled(idle) && Parked() && Codes()
    }
  }

  /** What an action does, and the exit code that it hands over. An action that is not possible does nothing. */
  ghost predicate Moves<T>(s: State<T>, a: Action, s': State<T>, code: Option<(nat, int)>, idle: T)
    requires s.Live()
  {
    && (!a.Await? ==> code == None)
    && match a
       case Timer => s' == s.(q := Rotated(s.q, false))
       case Create => exists t :: t in s'.looks && t !in s.looks && s' == s.Created(t)
       case Wake(id, level) => OnTask(s, id, s', t requires s.Has(t) => s.Awake(t, level))
       case Send(id, msg) => OnTask(s, id, s', t requires s.Has(t) => s.Delivered(t, msg))
       case Receive => s' == if s.q.Front() == idle || s.Current().doing.Waiting? then s else s.Received()
       case Await(id) =>
         && s' == (if s.MayAwait(id, idle) then s.Awaited(id) else s)
         && code == if s.MayAwait(id, idle) && id in s.exitCodes then Some((id, s.exitCodes[id])) else None
       case End(exitCode) =>
         if s.q.Front() == idle || !s.Current().doing.Free? then s' == s else s.Ended(exitCode, s')
  }

  /** Something happens to the task with the id; nothing if there is none. */
  ghost predicate OnTask<T>(s: State<T>, id: nat, s': State<T>, f: T --> State<T>)
    requires forall t :: t in s.looks ==> f.requires(t)
  {
    && (forall t :: t in s.looks && s.looks[t].id == id ==> s' == f(t))
    && ((forall t :: t in s.looks ==> s.looks[t].id != id) ==> s' == s)
  }

  // ---------------------------------------------------------------- the queues stay in order

  lemma TimerKeeps<T>(s: State<T>, idle: T)
    requires s.Scheduled(idle)
    ensures s.Live() && s.(q := Rotated(s.q, false)).Scheduled(idle)
  {
    CurrentRuns(s, idle);
    hide Consistent, Rotated;
    RotatedIsConsistent(s.q, s.Levels());
    assert s.(q := Rotated(s.q, false)).Levels() == s.Levels();
  }

  lemma AwakeKeeps<T>(s: State<T>, idle: T, t: T, level: int)
    requires s.Scheduled(idle) && t in s.looks && level <= MAX_LEVEL
    ensures s.Awake(t, level).Scheduled(idle)
  {
    hide Placed, Woken, Releveled;
    var s', levels := s.Awake(t, level), s.Levels();
    var lv := s'.looks[t].level;
    assert s'.Levels() == levels[t := lv];
    if t !in levels {
      WokenIsConsistent(s.q, levels, t, lv);
    } else if lv != levels[t] {
      ReleveledIsConsistent(s.q, levels, t, lv);
    } else {
      assert levels[t := lv] == levels;
    }
  }

  lemma AsleepKeeps<T>(s: State<T>, idle: T, t: T)
    requires s.Scheduled(idle) && t in s.looks && s.looks[t].running && t != idle
    ensures s.Asleep(t).Scheduled(idle)
  {
    hide Placed, Slept;
    assert idle in s.Levels();
    SleptIsConsistent(s.q, s.Levels(), t);
    assert s.Asleep(t).Levels() == s.Levels() - {t};
  }

  lemma GoneKeeps<T>(s: State<T>, idle: T, exitCode: int)
    requires s.Scheduled(idle) && s.Live() && s.q.Front() != idle
    ensures s.Gone(exitCode).Scheduled(idle)
  {
    hide Placed, Rotated;
    assert idle in s.Levels();
    FrontGone(s.q, s.Levels());
    assert s.Gone(exitCode).Levels() == s.Levels() - {s.q.Front()};
  }

  lemma CurrentRuns<T>(s: State<T>, idle: T)
    requires s.Scheduled(idle)
    ensures s.Live() && s.Current().running
  {
    assert s.q.Front() in s.q.queues[s.q.current];
    assert s.q.Front() in s.Levels();
  }

  /** A change that leaves the queues, the levels and the ids alone. */
  lemma LookKeeps<T>(s: State<T>, idle: T, t: T, look: Look)
    requires s.Scheduled(idle) && t in s.looks && (t == idle ==> look.doing == Free)
    requires look.id == s.looks[t].id && look.level == s.looks[t].level && look.running == s.looks[t].running
    ensures s.With(t, look).Scheduled(idle)
  {
    assert s.With(t, look).Levels() == s.Levels();
  }

  lemma CreatedKeeps<T>(s: State<T>, idle: T, t: T)
    requires s.Scheduled(idle) && t !in s.looks
    ensures s.Created(t).Scheduled(idle)
  {
    hide Consistent;
    assert s.Created(t).Levels() == s.Levels();
  }

  lemma DeliveredKeeps<T>(s: State<T>, idle: T, t: T, msg: Message)
    requires s.Scheduled(idle) && s.Has(t)
    ensures s.Delivered(t, msg).Scheduled(idle)
  {
    hide State.Scheduled, State.Awake;
    var look := s.looks[t].(msgs := s.looks[t].msgs + [msg]);
    assert t == idle ==> look.doing == Free by { IdleIsFree(s, idle); }
    LookKeeps(s, idle, t, look);
    AwakeKeeps(s.With(t, look), idle, t, -1);
  }

  lemma IdleIsFree<T>(s: State<T>, idle: T)
    requires s.Scheduled(idle)
    ensures idle in s.looks && s.looks[idle].doing == Free
  {
  }

  lemma ReceivedKeeps<T>(s: State<T>, idle: T)
    requires s.Scheduled(idle) && s.Live() && s.q.Front() != idle
    ensures s.Received().Scheduled(idle)
  {
    hide State.Scheduled, State.Asleep;
    var t, look := s.q.Front(), s.Current();
    CurrentRuns(s, idle);
    if look.msgs == [] {
      LookKeeps(s, idle, t, look.(doing := Receiving));
      AsleepKeeps(s.With(t, look.(doing := Receiving)), idle, t);
    } else {
      LookKeeps(s, idle, t, look.(msgs := look.msgs[1..], doing := Free));
    }
  }

  lemma AwaitedKeeps<T>(s: State<T>, idle: T, id: nat)
    requires s.Scheduled(idle) && s.Live() && s.q.Front() != idle
    ensures s.Awaited(id).Scheduled(idle)
  {
    hide State.Scheduled, State.Asleep;
    var t, look := s.q.Front(), s.Current();
    CurrentRuns(s, idle);
    if id in s.finished {
      LookKeeps(s, idle, t, look.(doing := Free));
      OthersKeep(s.With(t, look.(doing := Free)), s.Awaited(id), idle);
    } else {
      var s1 := s.With(t, look.(doing := Waiting(id)));
      LookKeeps(s, idle, t, look.(doing := Waiting(id)));
      OthersKeep(s1, s1.(waiters := s.waiters[id := t]), idle);
      AsleepKeeps(s1.(waiters := s.waiters[id := t]), idle, t);
    }
  }

  /** The exit codes do not concern the queues. */
  lemma OthersKeep<T>(s: State<T>, s': State<T>, idle: T)
    requires s.Scheduled(idle) && s'.q == s.q && s'.looks == s.looks && s'.latestId == s.latestId
    ensures s'.Scheduled(idle)
  {
  }

  // ---------------------------------------------------------------- no wakeup and no exit code is lost

  lemma CreatedIsSafe<T>(s: State<T>, t: T)
    requires s.Parked() && s.Codes() && t !in s.looks
    ensures s.Created(t).Parked() && s.Created(t).Codes()
  {
  }

  lemma CreatedIsOrderly<T>(s: State<T>, idle: T, t: T)
    requires s.Orderly(idle) && t !in s.looks
    ensures s.Created(t).Orderly(idle)
  {
    hide State.Scheduled, State.Parked, State.Codes, State.Created;
    CreatedKeeps(s, idle, t);
    CreatedIsSafe(s, t);
  }

  lemma AwakeIsSafe<T>(s: State<T>, t: T, level: int)
    requires s.Parked() && s.Codes() && s.Has(t) && level <= MAX_LEVEL
    ensures s.Awake(t, level).Parked() && s.Awake(t, level).Codes()
  {
    hide Woken, Releveled;
  }

  lemma DeliveredIsSafe<T>(s: State<T>, t: T, msg: Message)
    requires s.Parked() && s.Codes() && s.Has(t)
    ensures s.Delivered(t, msg).Parked() && s.Delivered(t, msg).Codes()
  {
    hide Woken, Releveled;
  }

  /** One task changed that does not wait for an exit code. */
  lemma OneChanged<T>(s: State<T>, s': State<T>, t: T, look: Look)
    requires s.Parked() && s.Codes() && t in s.looks && !s.looks[t].doing.Waiting? && !look.doing.Waiting?
    requires s'.looks == s.looks[t := look] && look.id == s.looks[t].id
    requires look.doing.Receiving? && !look.running ==> look.msgs == []
    requires s'.latestId == s.latestId && s'.finished == s.finished && s'.waiters == s.waiters
    requires s'.exitCodes == s.exitCodes && s'.collected == s.collected
    ensures s'.Parked() && s'.Codes()
  {
  }

  lemma ReceivedIsSafe<T>(s: State<T>)
    requires s.Parked() && s.Codes() && s.Live() && !s.Current().doing.Waiting?
    ensures s.Received().Parked() && s.Received().Codes()
  {
    hide State.Parked, State.Codes, Slept;
    var t, look := s.q.Front(), s.Current();
    OneChanged(s, s.Received(), t, s.Received().looks[t]);
  }

  /** The current task may turn to this exit code: it waits for it already, or the code was not handed over
      yet and nobody else waits for it. */
  ghost predicate AwaitsAlone<T>(s: State<T>, id: nat)
    requires s.Live()
  {
    s.Current().doing == Waiting(id)
    || (s.Current().doing.Free? && id !in s.collected && forall t :: t in s.looks ==> s.looks[t].doing != Waiting(id))
  }

  /** One task has begun to wait, or stopped waiting, for the exit code. */
  lemma OneWaits<T>(s: State<T>, s': State<T>, t: T, look: Look, id: nat)
    requires s.Parked() && t in s.looks && s'.looks == s.looks[t := look]
    requires s.looks[t].doing == Waiting(id)
             || (s.looks[t].doing.Free? && forall u :: u in s.looks ==> s.looks[u].doing != Waiting(id))
    requires if look.doing.Free? then s'.waiters == s.waiters && id !in s.waiters
             else look.doing == Waiting(id) && s'.waiters == s.waiters[id := t]
    ensures s'.Parked()
  {
  }

  lemma NobodyElse<T>(s: State<T>, id: nat)
    requires s.Parked() && s.Live() && AwaitsAlone(s, id)
    ensures forall u :: u in s.looks && u != s.q.Front() ==> s.looks[u].doing != Waiting(id)
  {
  }

  lemma AwaitedIsSafe<T>(s: State<T>, id: nat)
    requires s.Parked() && s.Codes() && s.Live() && AwaitsAlone(s, id)
    ensures s.Awaited(id).Parked() && s.Awaited(id).Codes()
  {
    hide State.Parked, Slept;
    var t, s' := s.q.Front(), s.Awaited(id);
    OneWaits(s, s', t, s'.looks[t], id);
    NobodyElse(s, id);
    assert id in s.finished ==> s'.finished == s.exitCodes - s'.collected;
  }

  lemma GoneIsSafe<T>(s: State<T>, idle: T, exitCode: int)
    requires s.Orderly(idle) && s.Live() && s.Current().doing.Free?
    ensures s.Current().id !in s.exitCodes && s.Gone(exitCode).Codes()
    ensures forall b :: b in s.waiters ==> s.waiters[b] in s.looks && s.waiters[b] in s.Gone(exitCode).looks
  {
    hide Consistent, Rotated;
    assert s.Gone(exitCode).finished == s.Gone(exitCode).exitCodes - s.collected;
  }

  /** One task has gone, and whoever waited for it runs. */
  lemma OneGone<T>(s: State<T>, s': State<T>, t: T, id: nat)
    requires s.Parked() && t in s.looks && s.looks[t].doing.Free?
    requires s'.looks.Keys == s.looks.Keys - {t} && s'.waiters == s.waiters - {id}
    requires forall u :: u in s'.looks ==>
      && s'.looks[u].doing == s.looks[u].doing && s'.looks[u].msgs == s.looks[u].msgs
      && (if id in s.waiters && u == s.waiters[id] then s'.looks[u].running else s'.looks[u].running == s.looks[u].running)
    ensures s'.Parked()
  {
  }

  lemma EndedIsParked<T>(s: State<T>, exitCode: int, s': State<T>)
    requires s.Parked() && s.Live() && s.Current().doing.Free? && s.Ended(exitCode, s')
    ensures s'.Parked()
  {
    hide State.Parked, Rotated, Woken, Releveled;
    OneGone(s, s', s.q.Front(), s.Current().id);
  }

  lemma StartIsOrderly<T>(s: State<T>, task: T, idle: T)
    requires task != idle && s.q == Queues([[idle], [], [], [task]], MAX_LEVEL, false) && s.latestId == 2
    requires s.looks == map[task := Look(1, [], MAX_LEVEL, true, Free), idle := Look(2, [], 0, true, Free)]
    requires s.finished == map[] && s.waiters == map[] && s.exitCodes == map[] && s.collected == {}
    ensures s.Orderly(idle) && s.Levels() == map[task := MAX_LEVEL, idle := 0]
  {
    assert s.Levels() == map[task := MAX_LEVEL, idle := 0];
    StartIsConsistent(task, idle);
    hide Consistent;
  }

  lemma StartIsConsistent<T>(task: T, idle: T)
    requires task != idle
    ensures Consistent(Queues([[idle], [], [], [task]], MAX_LEVEL, false), map[task := MAX_LEVEL, idle := 0])
  {
    var queues := [[idle], [], [], [task]];
    assert queues[0] == [idle] && queues[1] == [] && queues[2] == [] && queues[3] == [task];
  }

  // ---------------------------------------------------------------- every action keeps the order

  lemma EndedIsOrderly<T>(s: State<T>, idle: T, exitCode: int, s': State<T>)
    requires s.Orderly(idle) && s.Live() && s.q.Front() != idle && s.Current().doing.Free? && s.Ended(exitCode, s')
    ensures s'.Orderly(idle) && s.Current().id !in s.exitCodes
  {
    hide State.Scheduled, State.Parked, Rotated;
    GoneKeeps(s, idle, exitCode);
    GoneIsSafe(s, idle, exitCode);
    EndedIsParked(s, exitCode, s');
    var rest := s.Gone(exitCode);
    if s.Current().id in s.waiters {
      AwakeKeeps(rest, idle, s.waiters[s.Current().id], -1);
      hide Woken, Releveled;
    }
  }

  /** Whatever happens, the queues, the mailboxes and the exit codes stay in order. */
  lemma MovesKeepOrder<T>(s: State<T>, a: Action, s': State<T>, code: Option<(nat, int)>, idle: T)
    requires s.Orderly(idle) && s.Live() && Moves(s, a, s', code, idle)
    ensures s'.Orderly(idle)
  {
    hide State.Scheduled, State.Parked, State.Codes, Rotated, State.Awake, State.Delivered, State.Received, State.Awaited,
      State.Ended, State.Created;
    match a
    case Timer =>
      TimerKeeps(s, idle);
      QueuesAreSafe(s, Rotated(s.q, false));
    case Create =>
      var t :| t in s'.looks && t !in s.looks && s' == s.Created(t);
      CreatedKeeps(s, idle, t);
      CreatedIsSafe(s, t);
    case Wake(id, level) =>
      if t :| t in s.looks && s.looks[t].id == id {
        AwakeKeeps(s, idle, t, level);
        AwakeIsSafe(s, t, level);
      }
    case Send(id, msg) =>
      if t :| t in s.looks && s.looks[t].id == id {
        DeliveredKeeps(s, idle, t, msg);
        DeliveredIsSafe(s, t, msg);
      }
    case Receive =>
      if s.q.Front() != idle && !s.Current().doing.Waiting? {
        ReceivedKeeps(s, idle);
        ReceivedIsSafe(s);
      }
    case Await(id) =>
      if s.MayAwait(id, idle) {
        MayAwaitAlone(s, idle, id);
        AwaitedKeeps(s, idle, id);
        AwaitedIsSafe(s, id);
      }
    case End(exitCode) =>
      if s.q.Front() != idle && s.Current().doing.Free? {
        EndedIsOrderly(s, idle, exitCode, s');
      }
  }

  lemma QueuesAreSafe<T>(s: State<T>, q: Queues<T>)
    requires s.Parked() && s.Codes()
    ensures s.(q := q).Parked() && s.(q := q).Codes()
  {
  }

  lemma MayAwaitAlone<T>(s: State<T>, idle: T, id: nat)
    requires s.Orderly(idle) && s.Live() && s.MayAwait(id, idle)
    ensures AwaitsAlone(s, id)
  {
  }

  /** An exit code is handed over once, and is that of its task. */
  lemma HandedOver<T>(s: State<T>, a: Action, s': State<T>, code: Option<(nat, int)>, idle: T)
    requires s.Orderly(idle) && s.Live() && Moves(s, a, s', code, idle)
    ensures s.collected <= s'.collected
    ensures forall b :: b in s.exitCodes ==> b in s'.exitCodes && s'.exitCodes[b] == s.exitCodes[b]
    ensures code.Some? ==> var (b, c) := code.value;
      b !in s.collected && b in s'.collected && b in s'.exitCodes && s'.exitCodes[b] == c
  {
    hide State.Scheduled, State.Parked, Rotated, Slept, Woken, Releveled;
    match a
    case Wake(id, _) =>
      if t :| t in s.looks && s.looks[t].id == id {
      }
    case Send(id, _) =>
      if t :| t in s.looks && s.looks[t].id == id {
      }
    case Await(id) =>
      if s.MayAwait(id, idle) {
        MayAwaitAlone(s, idle, id);
        assert id in s.exitCodes ==> id in s.finished;
      }
    case End(exitCode) =>
      if s.q.Front() != idle && s.Current().doing.Free? {
        EndedIsOrderly(s, idle, exitCode, s');
      }
    case _ =>
  }

  /** The task with this id changed as told, and no other one. */
  ghost predicate OnlyChanged<T>(s: State<T>, s': State<T>, t: T) {
    t in s.looks && s'.looks.Keys == s.looks.Keys && forall u :: u in s.looks && u != t ==> s'.looks[u] == s.looks[u]
  }

  /** What a wakeup and a message do to the task with the id, by the parts of its state. */
  lemma TaskMoves<T>(s: State<T>, a: Action, s': State<T>, code: Option<(nat, int)>, idle: T, t: T)
    requires s.Live() && Moves(s, a, s', code, idle) && (a.Wake? || a.Send?) && t in s.looks && s.looks[t].id == a.id
    ensures OnlyChanged(s, s', t) && s'.looks[t].running && s'.looks[t].doing == s.looks[t].doing
    ensures s'.looks[t].id == s.looks[t].id
    ensures s'.looks[t].level == if a.Wake? && a.level >= 0 then a.level else s.looks[t].level
    ensures s'.looks[t].msgs == s.looks[t].msgs + if a.Send? then [a.msg] else []
  {
    hide Woken, Releveled;
    if a.Wake? {
      assert s' == s.Awake(t, a.level);
    } else {
      assert s' == s.Delivered(t, a.msg);
    }
  }

  /** A new task has a new id, no message, and the level 1, and does not run. */
  lemma CreateMoves<T>(s: State<T>, s': State<T>, code: Option<(nat, int)>, idle: T) returns (t: T)
    requires s.Live() && Moves(s, Create, s', code, idle)
    ensures t !in s.looks && s'.looks == s.looks[t := Look(s.latestId + 1, [], 1, false, Free)]
    ensures s'.latestId == s.latestId + 1 && s'.q == s.q
  {
    t :| t in s'.looks && t !in s.looks && s' == s.Created(t);
  }

  /** A receive loop of the current task takes the oldest message, or sleeps. */
  lemma ReceiveMoves<T>(s: State<T>, s': State<T>, code: Option<(nat, int)>, idle: T)
    requires s.Live() && Moves(s, Receive, s', code, idle) && s.q.Front() != idle && !s.Current().doing.Waiting?
    ensures OnlyChanged(s, s', s.q.Front())
    ensures var t, t' := s.Current(), s'.looks[s.q.Front()];
      && t'.id == t.id && t'.level == t.level
      && if t.msgs == [] then t'.msgs == [] && t'.doing == Receiving && !t'.running
         else t'.msgs == t.msgs[1..] && t'.doing == Free && t'.running == t.running
  {
    hide Slept;
  }

  /** A task that may wait for another one, which is alive or has ended, gets its exit code, or is registered
      for it and sleeps. */
  lemma AwaitMoves<T>(s: State<T>, id: nat, s': State<T>, code: Option<(nat, int)>, idle: T)
    requires s.Live() && Moves(s, Await(id), s', code, idle) && s.q.Front() != idle
    requires s.Current().doing == Waiting(id)
             || (s.Current().doing == Free && (forall u :: u in s.looks ==> s.looks[u].doing != Waiting(id))
                 && (id in s.finished || exists u :: u in s.looks && s.looks[u].id == id))
    ensures OnlyChanged(s, s', s.q.Front())
    ensures var t, t' := s.Current(), s'.looks[s.q.Front()];
      && t'.id == t.id && t'.level == t.level && t'.msgs == t.msgs
      && if id in s.finished then
           && t'.doing == Free && t'.running == t.running && s'.finished == s.finished - {id}
           && s'.collected == s.collected + {id} && (id in s.exitCodes ==> code == Some((id, s.exitCodes[id])))
         else t'.doing == Waiting(id) && !t'.running && s'.waiters == s.waiters[id := s.q.Front()]
  {
    hide Slept;
    assert s.MayAwait(id, idle);
  }

  /** And for its end: its exit code is kept, and nobody but the task that waits for it notices. */
  lemma EndMoves<T>(s: State<T>, exitCode: int, s': State<T>, code: Option<(nat, int)>, idle: T)
    requires s.Live() && Moves(s, End(exitCode), s', code, idle) && s.q.Front() != idle && s.Current().doing == Free
    ensures var t, id := s.q.Front(), s.Current().id;
      && s'.looks.Keys == s.looks.Keys - {t}
      && s'.exitCodes == s.exitCodes[id := exitCode] && s'.finished == s.finished[id := exitCode]
      && s'.waiters == s.waiters - {id} && s'.collected == s.collected
      && forall u :: u in s'.looks ==>
           && s'.looks[u].id == s.looks[u].id && s'.looks[u].msgs == s.looks[u].msgs
           && s'.looks[u].doing == s.looks[u].doing && s'.looks[u].level == s.looks[u].level
           && (if id in s.waiters && s.waiters[id] == u then s'.looks[u].running else s'.looks[u].running == s.looks[u].running)
  {
    hide Rotated, Woken, Releveled;
  }

  /** An exit code is the one with which its task ended. */
  lemma {:induction false} CodeFrom<T>(trace: seq<State<T>>, actions: seq<Action>, codes: seq<Option<(nat, int)>>, idle: T,
                                       n: nat, b: nat) returns (j: nat)
    requires n < |trace| == |actions| + 1 && |codes| == |actions|
    requires forall k :: 0 <= k < |trace| ==> trace[k].Live() && trace[k].Orderly(idle)
    requires forall k :: 0 <= k < |actions| ==> Moves(trace[k], actions[k], trace[k + 1], codes[k], idle)
    requires b in trace[n].exitCodes && b !in trace[0].exitCodes
    ensures j < n && actions[j] == End(trace[n].exitCodes[b]) && trace[j].Current().id == b
  {
    hide State.Orderly, Moves;
    var s := trace[n - 1];
    assert Moves(trace[n - 1], actions[n - 1], trace[n - 1 + 1], codes[n - 1], idle);
    HandedOver(s, actions[n - 1], trace[n], codes[n - 1], idle);
    if b in s.exitCodes {
      j := CodeFrom(trace, actions, codes, idle, n - 1, b);
    } else {
      NewCode(s, actions[n - 1], trace[n], codes[n - 1], idle, b);
      j := n - 1;
    }
  }

  lemma NewCode<T>(s: State<T>, a: Action, s': State<T>, code: Option<(nat, int)>, idle: T, b: nat)
    requires s.Orderly(idle) && s.Live() && Moves(s, a, s', code, idle)
    requires b in s'.exitCodes && b !in s.exitCodes
    ensures a == End(s'.exitCodes[b]) && s.Current().id == b
  {
    hide State.Orderly, Rotated, Slept, Woken, Releveled;
    if !a.End? {
      CodesStay(s, a, s', code, idle);
    } else {
      assert s.q.Front() != idle && s.Current().doing == Free;
      EndMoves(s, a.exitCode, s', code, idle);
    }
  }

  lemma CodeKept<T>(s: State<T>, a: Action, s': State<T>, code: Option<(nat, int)>, idle: T)
    requires s.Live() && Moves(s, a, s', code, idle)
    ensures code.Some? ==> code.value.0 in s.exitCodes && code.value.1 == s.exitCodes[code.value.0]
  {
    hide State.Awaited;
  }

  lemma CodesStay<T>(s: State<T>, a: Action, s': State<T>, code: Option<(nat, int)>, idle: T)
    requires s.Orderly(idle) && s.Live() && Moves(s, a, s', code, idle) && !a.End?
    ensures s'.exitCodes == s.exitCodes
  {
    hide State.Orderly, Rotated, Slept, Woken, Releveled;
    if a.Wake? || a.Send? {
      if t :| t in s.looks && s.looks[t].id == a.id {
      }
    }
  }

  /** Nothing that a sleeping task waits for has happened. */
  lemma NoLostWakeup<T>(s: State<T>, idle: T, t: T)
    requires s.Orderly(idle) && t in s.looks && !s.looks[t].running
    ensures s.looks[t].doing.Receiving? ==> s.looks[t].msgs == []
    ensures s.looks[t].doing.Waiting? ==> var id := s.looks[t].doing.id;
      id !in s.exitCodes && id !in s.finished && id in s.waiters && s.waiters[id] == t
  {
  }
}
