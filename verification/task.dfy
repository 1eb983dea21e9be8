/** Tasks and their manager: scheduling, mailboxes, and the hand-over of exit codes. Every method is
    one atomic step, as the source runs them with interrupts off. */
module Tasks {
  import opened Results
  import opened Stacks
  import opened RunQueues
  import opened TaskStates

  class Task {
    const id: nat
    var msgs: seq<Message>
    var level: Level
    var running: bool
    var doing: Doing

    constructor (id: nat)
      ensures this.id == id && msgs == [] && level == DEFAULT_LEVEL && !running && doing == Free
    {
      this.id, msgs, level, running, doing := id, [], DEFAULT_LEVEL, false, Free;
    }

    ghost function Look(): Look
      reads this
    {
      TaskStates.Look(id, msgs, level, running, doing)
    }
  }

  /** std::remove and erase on a queue without duplicates. */
  method Erase(c: seq<Task>, value: Task) returns (r: seq<Task>)
    requires Distinct(c)
    ensures r == Hidden(c, value)
  {
    hide Distinct, Hidden;
    r := [];
    NoneHidden(value);
    assert c[..0] == [];
    for i := 0 to |c|
      invariant r == Hidden(c[..i], value)
    {
      DistinctPrefix(c, i + 1);
      assert c[..i + 1] == c[..i] + [c[i]];
      HiddenAppend(c[..i], c[i], value);
      if c[i] != value {
        r := r + [c[i]];
      }
    }
    assert c[..|c|] == c;
  }

  class TaskManager {
    var tasks: seq<Task>
    var latestId: nat
    var queues: seq<seq<Task>>
    var currentLevel: nat
    var levelChanged: bool
    var finishTasks: map<nat, int>
    var finishWaiter: map<nat, Task>
    const idle: Task
    ghost var exitCodes: map<nat, int>
    ghost var collected: set<nat>

    /** The task that runs now, at the highest level, and the idle task at the lowest. */
    constructor ()
      ensures Valid() && fresh(tasks[0]) && fresh(idle) && tasks == [CurrentTask(), idle]
      ensures CurrentTask().id == 1 && idle.id == 2 && Now().Levels() == map[CurrentTask() := MAX_LEVEL, idle := 0]
      ensures finishTasks == map[] && finishWaiter == map[] && exitCodes == map[] && collected == {}
    {
      var task := new Task(1);
      var idleTask := new Task(2);
      task.level, task.running := MAX_LEVEL, true;
      idleTask.level, idleTask.running := 0, true;
      latestId, tasks, idle := 2, [task, idleTask], idleTask;
      queues := [[idleTask], [], [], [task]];
      currentLevel, levelChanged := MAX_LEVEL, false;
      finishTasks, finishWaiter, exitCodes, collected := map[], map[], map[], {};
      new;
      hide Queues.Live;
      StartIsOrderly(Now(), task, idle);
    }

    ghost function Q(): Queues<Task>
      reads this`queues, this`currentLevel, this`levelChanged
    {
      Queues(queues, currentLevel, levelChanged)
    }

    ghost function Looks(): map<Task, Look>
      reads this`tasks, tasks
    {
      map t | t in tasks :: t.Look()
    }

    ghost function Now(): State<Task>
      reads this, tasks
    {
      State(Q(), Looks(), latestId, finishTasks, finishWaiter, exitCodes, collected)
    }

    /** The run queues are in order. */
    ghost predicate Scheduled()
      reads this, tasks
    {
      Distinct(tasks) && Now().Scheduled(idle)
    }

    /** So are the mailboxes and the exit codes. */
    ghost predicate Valid()
      reads this, tasks
    {
      Distinct(tasks) && Now().Orderly(idle)
    }

    function CurrentTask(): Task
      requires Q().Live()
      reads this
    {
      queues[currentLevel][0]
    }

    lemma Looking()
      ensures Looks().Keys == (set t | t in tasks)
      ensures forall t :: t in tasks ==> Looks()[t] == t.Look()
    {
    }

    /** The looks after at most one task changed. */
    twostate lemma LooksChanged(t: Task)
      requires t in tasks && tasks == old(tasks)
      requires forall u :: u in tasks && u != t ==> u.Look() == old(u.Look())
      ensures Looks() == old(Looks())[t := t.Look()]
    {
    }

    lemma CurrentIsTask()
      requires Scheduled()
      ensures Now().Live() && CurrentTask() in tasks && CurrentTask().running
      ensures Now().Current() == CurrentTask().Look()
      ensures idle in tasks && forall lv :: 0 <= lv <= MAX_LEVEL ==> Distinct(queues[lv])
    {
      CurrentRuns(Now(), idle);
      Looking();
    }

    lemma OneTask(t: Task, u: Task)
      requires Scheduled() && t in tasks && u in tasks && t.id == u.id
      ensures t == u
    {
      Looking();
    }

    // ---------------------------------------------------------------- scheduling

    method RotateCurrentRunQueue(currentSleep: bool) returns (currentTask: Task)
      requires Q().Live()
      modifies this`queues, this`currentLevel, this`levelChanged
      ensures Q() == Rotated(old(Q()), currentSleep) && currentTask == old(Q()).Front()
    {
      currentTask := queues[currentLevel][0];
      var levelQueue := queues[currentLevel][1..];
      if !currentSleep {
        levelQueue := levelQueue + [currentTask];
      }
      assert levelQueue == queues[currentLevel][1..] + if currentSleep then [] else [currentTask];
      queues := queues[currentLevel := levelQueue];
      if levelQueue == [] {
        levelChanged := true;
      }
      if levelChanged {
        levelChanged := false;
        var lv := MAX_LEVEL;
        while lv >= 0
          invariant -1 <= lv <= MAX_LEVEL
          invariant Highest(queues, MAX_LEVEL, currentLevel) ==
                    if lv < 0 then currentLevel else Highest(queues, lv, currentLevel)
        {
          if queues[lv] != [] {
            currentLevel := lv;
            break;
          }
          lv := lv - 1;
        }
      }
    }

    method FindTask(id: nat) returns (task: Task?)
      ensures task == null <==> forall t :: t in tasks ==> t.id != id
      ensures task != null ==> task in tasks && task.id == id
    {
      for i := 0 to |tasks|
        invariant forall j :: 0 <= j < i ==> tasks[j].id != id
      {
        if tasks[i].id == id {
          return tasks[i];
        }
      }
      task := null;
    }

    method NewTask() returns (task: Task)
      requires Valid()
      modifies this`tasks, this`latestId
      ensures Valid() && fresh(task) && tasks == old(tasks) + [task] && task.id == old(latestId) + 1
      ensures Now() == old(Now()).Created(task) && task in Now().looks && task !in old(Now()).looks
    {
      hide State.Orderly, Distinct;
      ghost var now := Now();
      Looking();
      latestId := latestId + 1;
      task := new Task(latestId);
      AppendIs(tasks, task);
      tasks := tasks + [task];
      Looking();
      assert Looks() == now.looks[task := task.Look()];
      CreatedIsOrderly(now, idle, task);
    }

    /** The timer interrupt. */
    method SwitchTask()
      requires Valid()
      modifies this`queues, this`currentLevel, this`levelChanged
      ensures Valid() && old(Now()).Live() && Now() == old(Now()).(q := Rotated(old(Now()).q, false))
    {
      hide State.Scheduled, State.Parked, State.Codes, Rotated, Distinct, TaskManager.Looks;
      ghost var now := Now();
      CurrentIsTask();
      TimerKeeps(now, idle);
      QueuesAreSafe(now, Rotated(now.q, false));
      var current := RotateCurrentRunQueue(false);
    }

    method SleepTask(task: Task)
      requires Scheduled() && task in tasks && task != idle
      modifies task`running, this`queues, this`currentLevel, this`levelChanged
      ensures Scheduled() && !task.running
      ensures old(Now()).Has(task) && Now() == if old(task.running) then old(Now()).Asleep(task) else old(Now())
    {
      hide State.Scheduled, Slept, Distinct, TaskManager.Looks;
      ghost var now := Now();
      CurrentIsTask();
      Looking();
      if !task.running {
        return;
      }
      AsleepKeeps(now, idle, task);
      task.running := false;
      LooksChanged(task);
      Unqueue(task);
    }

    /** What Sleep does to the queues. */
    method Unqueue(task: Task)
      requires Q().Live() && Distinct(queues[task.level])
      modifies this`queues, this`currentLevel, this`levelChanged
      ensures Q() == Slept(old(Q()), task, task.level)
    {
      hide Hidden, Rotated, Distinct;
      if task == queues[currentLevel][0] {
        var current := RotateCurrentRunQueue(true);
        return;
      }
      var rest := Erase(queues[task.level], task);
      queues := queues[task.level := rest];
    }

    /** Sleep by id. */
    method Sleep(id: nat) returns (error: Option<Error>)
      requires Scheduled() && id != idle.id
      modifies tasks, this`queues, this`currentLevel, this`levelChanged
      ensures Scheduled() && tasks == old(tasks)
      ensures error == (if exists t :: t in tasks && t.id == id then None else Some(NoSuchTask))
      ensures error.Some? ==> Now() == old(Now())
      ensures forall t :: t in tasks && t.id == id ==>
        old(Now()).Has(t) && Now() == if old(t.running) then old(Now()).Asleep(t) else old(Now())
    {
      hide State.Scheduled, State.Asleep, Distinct, TaskManager.Looks;
      var task := FindTask(id);
      if task == null {
        return Some(NoSuchTask);
      }
      forall t | t in tasks && t.id == id ensures t == task {
        OneTask(t, task);
      }
      SleepTask(task);
      error := None;
    }

    /** Wakeup; a negative level means the task's own. */
    method WakeupTask(task: Task, level: int)
      requires Scheduled() && task in tasks && level <= MAX_LEVEL
      modifies task`running, task`level, this`queues, this`currentLevel, this`levelChanged
      ensures Scheduled() && task.running && task.level == if level < 0 then old(task.level) else level
      ensures old(Now()).Has(task) && Now() == old(Now()).Awake(task, level)
    {
      hide State.Scheduled, Woken, Releveled, Distinct, TaskManager.Looks;
      ghost var now := Now();
      CurrentIsTask();
      Looking();
      if task.running {
        ChangeLevelRunning(task, level);
        return;
      }
      AwakeKeeps(now, idle, task, level);
      task.level := if level < 0 then task.level else level;
      task.running := true;
      LooksChanged(task);
      Enqueue(task);
    }

    /** What Wakeup does to the queues. */
    method Enqueue(task: Task)
      requires Q().Wf()
      modifies this`queues, this`levelChanged
      ensures Q() == Woken(old(Q()), task, task.level)
    {
      queues := queues[task.level := queues[task.level] + [task]];
      if task.level > currentLevel {
        levelChanged := true;
      }
    }

    method ChangeLevelRunning(task: Task, level: int)
      requires Scheduled() && task in tasks && task.running && level <= MAX_LEVEL
      modifies task`level, this`queues, this`currentLevel, this`levelChanged
      ensures Scheduled() && task.level == if level < 0 then old(task.level) else level
      ensures old(Now()).Has(task) && Now() == old(Now()).Awake(task, level)
    {
      hide State.Scheduled, Woken, Releveled, Distinct, TaskManager.Looks;
      ghost var now := Now();
      CurrentIsTask();
      Looking();
      AwakeKeeps(now, idle, task, level);
      if level < 0 || level == task.level {
        assert now.looks[task := task.Look()] == now.looks;
        return;
      }
      Requeue(task, level);
      task.level := level;
      LooksChanged(task);
    }

    /** What ChangeLevelRunning does to the queues. */
    method Requeue(task: Task, level: Level)
      requires Q().Live() && Distinct(queues[task.level])
      modifies this`queues, this`currentLevel, this`levelChanged
      ensures Q() == Releveled(old(Q()), task, task.level, level)
    {
      hide Hidden, Distinct;
      if task != queues[currentLevel][0] {
        var rest := Erase(queues[task.level], task);
        queues := queues[task.level := rest];
        queues := queues[level := queues[level] + [task]];
        if level > currentLevel {
          levelChanged := true;
        }
        return;
      }
      queues := queues[currentLevel := queues[currentLevel][1..]];
      queues := queues[level := [task] + queues[level]];
      if level >= currentLevel {
        currentLevel := level;
      } else {
        currentLevel := level;
        levelChanged := true;
      }
    }

    // ---------------------------------------------------------------- messages and exit codes

    /** Wakeup by id. */
    method Wakeup(id: nat, level: int) returns (error: Option<Error>)
      requires Valid() && level <= MAX_LEVEL
      modifies tasks`running, tasks`level, this`queues, this`currentLevel, this`levelChanged
      ensures Valid() && tasks == old(tasks)
      ensures error == (if exists t :: t in tasks && t.id == id then None else Some(NoSuchTask))
      ensures old(Now()).Live() && Moves(old(Now()), Wake(id, level), Now(), None, idle)
    {
      hide State.Scheduled, State.Parked, State.Codes, State.Awake, Distinct, TaskManager.Looks;
      ghost var now := Now();
      CurrentIsTask();
      Looking();
      var task := FindTask(id);
      if task == null {
        assert forall t :: t in now.looks ==> t in tasks;
        assert forall t :: t in now.looks ==> now.looks[t].id != id;
        assert Now() == now;
        assert OnTask(now, id, Now(), t requires now.Has(t) => now.Awake(t, level));
        return Some(NoSuchTask);
      }
      forall t | t in tasks && t.id == id ensures t == task {
        OneTask(t, task);
      }
      WakeupTask(task, level);
      AwakeIsSafe(now, task, level);
      error := None;
    }

    method SendTo(task: Task, msg: Message)
      requires Valid() && task in tasks
      modifies task, this`queues, this`currentLevel, this`levelChanged
      ensures Valid() && task.running && task.msgs == old(task.msgs) + [msg] && task.doing == old(task.doing)
      ensures old(Now()).Has(task) && Now() == old(Now()).Delivered(task, msg)
    {
      hide State.Scheduled, State.Parked, State.Codes, State.Awake, Distinct, TaskManager.Looks;
      ghost var now := Now();
      CurrentIsTask();
      Looking();
      task.msgs := task.msgs + [msg];
      LooksChanged(task);
      LookKeeps(now, idle, task, task.Look()) by { IdleIsFree(now, idle); }
      WakeupTask(task, -1);
      DeliveredIsSafe(now, task, msg);
      Looking();
    }

    method SendMessage(id: nat, msg: Message) returns (error: Option<Error>)
      requires Valid()
      modifies tasks, this`queues, this`currentLevel, this`levelChanged
      ensures Valid() && tasks == old(tasks)
      ensures error == (if exists t :: t in tasks && t.id == id then None else Some(NoSuchTask))
      ensures old(Now()).Live() && Moves(old(Now()), Send(id, msg), Now(), None, idle)
    {
      hide State.Scheduled, State.Parked, State.Codes, State.Delivered, Distinct, TaskManager.Looks;
      CurrentIsTask();
      Looking();
      var task := FindTask(id);
      if task == null {
        return Some(NoSuchTask);
      }
      forall t | t in tasks && t.id == id ensures t == task {
        OneTask(t, task);
      }
      SendTo(task, msg);
      error := None;
    }

    /** The step of a receive loop: the next message, or sleep until one comes. */
    method ReceiveOrSleep() returns (msg: Option<Message>)
      requires Valid() && Q().Live() && CurrentTask() != idle && !CurrentTask().doing.Waiting?
      modifies CurrentTask(), this`queues, this`currentLevel, this`levelChanged
      ensures Valid() && old(Now()).Live() && Now() == old(Now()).Received()
      ensures var t := old(CurrentTask());
        if old(t.msgs) == [] then msg == None && t.msgs == [] && t.doing == Receiving && !t.running
        else msg == Some(old(t.msgs)[0]) && t.msgs == old(t.msgs)[1..] && t.doing == Free && t.running
    {
      hide State.Scheduled, State.Parked, State.Codes, State.Asleep, Distinct, TaskManager.Looks;
      ghost var now := Now();
      CurrentIsTask();
      Looking();
      ReceivedKeeps(now, idle);
      ReceivedIsSafe(now);
      var task := CurrentTask();
      if task.msgs == [] {
        task.doing := Receiving;
        LooksChanged(task);
        LookKeeps(now, idle, task, task.Look());
        SleepTask(task);
        return None;
      }
      msg := Some(task.msgs[0]);
      task.msgs := task.msgs[1..];
      task.doing := Free;
      LooksChanged(task);
    }

    /** One turn of the loop of WaitFinish, by the current task. Each task is waited for by one task only,
        and not again once its exit code was handed over. */
    method WaitFinishStep(id: nat) returns (code: Option<int>)
      requires Valid() && Now().Live() && CurrentTask() != idle && AwaitsAlone(Now(), id)
      modifies CurrentTask(), this`queues, this`currentLevel, this`levelChanged
      modifies this`finishTasks, this`finishWaiter, this`collected
      ensures Valid() && old(Now()).Live() && Now() == old(Now()).Awaited(id)
      ensures code == if id in exitCodes then Some(exitCodes[id]) else None
      ensures id !in old(collected)
    {
      hide State.Scheduled, State.Parked, State.Asleep, Distinct, TaskManager.Looks;
      ghost var now := Now();
      CurrentIsTask();
      Looking();
      AwaitedKeeps(now, idle, id);
      AwaitedIsSafe(now, id);
      var task := CurrentTask();
      if id in finishTasks {
        code := Some(finishTasks[id]);
        finishTasks := finishTasks - {id};
        collected := collected + {id};
        task.doing := Free;
        LooksChanged(task);
      } else {
        finishWaiter := finishWaiter[id := task];
        task.doing := Waiting(id);
        LooksChanged(task);
        LookKeeps(now, idle, task, task.Look());
        OthersKeep(now.With(task, task.Look()), Now(), idle);
        SleepTask(task);
        code := None;
      }
    }

    /** The current task ends; its exit code is kept, and the task waiting for it runs again. */
    method Finish(exitCode: int)
      requires Valid() && Now().Live() && CurrentTask() != idle && CurrentTask().doing == Free
      modifies this, tasks`running, tasks`level
      ensures Valid() && tasks == Hidden(old(tasks), old(CurrentTask()))
      ensures old(Now()).Live() && old(Now()).Ended(exitCode, Now())
      ensures var id := old(CurrentTask()).id;
        exitCodes == old(exitCodes)[id := exitCode] && finishTasks == old(finishTasks)[id := exitCode]
    {
      hide State.Scheduled, State.Parked, State.Codes, State.Awake, State.Gone, Distinct, TaskManager.Looks, Hidden;
      ghost var now := Now();
      CurrentIsTask();
      Looking();
      GoneKeeps(now, idle, exitCode);
      GoneIsSafe(now, idle, exitCode);
      var waiter := EndCurrent(exitCode);
      if waiter.Some? {
        Looking();
        WakeupTask(waiter.value, -1);
      }
      EndedIsOrderly(now, idle, exitCode, Now());
      EndMoves(now, exitCode, Now(), None, idle);
    }

    /** Finish up to the wakeup of the task that waits for the current one, if there is one. */
    method EndCurrent(exitCode: int) returns (waiter: Option<Task>)
      requires Now().Live() && Now().Current() == CurrentTask().Look() && Distinct(tasks)
      modifies this`queues, this`currentLevel, this`levelChanged, this`tasks
      modifies this`finishTasks, this`exitCodes, this`finishWaiter
      ensures Distinct(tasks) && tasks == Hidden(old(tasks), old(CurrentTask()))
      ensures old(Now()).Live() && Now() == old(Now()).Gone(exitCode)
      ensures var id := old(CurrentTask()).id;
        waiter == if id in old(finishWaiter) then Some(old(finishWaiter)[id]) else None
    {
      hide Distinct, Hidden, Rotated, TaskManager.Looks;
      ghost var was, ending := tasks, CurrentTask();
      var task := RotateCurrentRunQueue(true);
      tasks := Erase(tasks, task);
      HiddenIs(was, ending);
      LooksWithout(task);
      finishTasks := finishTasks[task.id := exitCode];
      exitCodes := exitCodes[task.id := exitCode];
      if task.id in finishWaiter {
        waiter := Some(finishWaiter[task.id]);
        finishWaiter := finishWaiter - {task.id};
      } else {
        waiter := None;
        assert finishWaiter - {task.id} == finishWaiter;
      }
    }

    twostate lemma LooksWithout(t: Task)
      requires forall u :: u in tasks <==> u in old(tasks) && u != t
      requires forall u :: u in tasks ==> u.Look() == old(u.Look())
      ensures Looks() == old(Looks()) - {t}
    {
    }

    // ---------------------------------------------------------------- runs

    /** The next action in a run; one that is not possible now does nothing. */
    method Step(a: Action) returns (code: Option<(nat, int)>)
      requires Valid()
      modifies this, tasks
      ensures Valid() && forall t :: t in tasks ==> t in old(tasks) || fresh(t)
      ensures old(Now()).Live() && Moves(old(Now()), a, Now(), code, idle)
    {
      hide State.Scheduled, State.Parked, State.Codes, State.Received, State.Awaited, State.Created, Distinct, TaskManager.Looks,
        Rotated, Hidden;
      CurrentIsTask();
      Looking();
      code := None;
      match a {
        case Timer => SwitchTask();
        case Create => var task := NewTask();
        case Wake(id, level) => var error := Wakeup(id, level);
        case Send(id, msg) => var error := SendMessage(id, msg);
        case Receive =>
          if CurrentTask() != idle && !CurrentTask().doing.Waiting? {
            var msg := ReceiveOrSleep();
          }
        case Await(id) => code := AwaitOnce(id);
        case End(exitCode) =>
          if CurrentTask() != idle && CurrentTask().doing.Free? {
            HiddenIs(tasks, CurrentTask());
            Finish(exitCode);
          }
      }
    }

    /** A turn of WaitFinish for a task that is alive or has left its exit code, if nobody else waits
        for it. */
    method AwaitOnce(id: nat) returns (code: Option<(nat, int)>)
      requires Valid()
      modifies this, tasks
      ensures Valid() && tasks == old(tasks) && old(Now()).Live() && Moves(old(Now()), Await(id), Now(), code, idle)
    {
      hide State.Scheduled, State.Parked, State.Awaited, State.MayAwait, Distinct, TaskManager.Looks;
      CurrentIsTask();
      code := None;
      var may := MayWait(id);
      if may {
        MayAwaitAlone(Now(), idle, id);
        NotIdle(id);
        var c := WaitFinishStep(id);
        if c.Some? {
          code := Some((id, c.value));
        }
      }
    }

    lemma NotIdle(id: nat)
      requires Valid() && Now().Live() && Now().MayAwait(id, idle)
      ensures CurrentTask() != idle
    {
    }

    /** Whether a turn of WaitFinish is possible now. */
    method MayWait(id: nat) returns (may: bool)
      requires Valid()
      ensures Now().Live() && (may <==> Now().MayAwait(id, idle))
    {
      hide State.Scheduled, State.Parked, State.Codes, Distinct, TaskManager.Looks;
      CurrentIsTask();
      Looking();
      var task := FindTask(id);
      var free := forall i :: 0 <= i < |tasks| ==> tasks[i].doing != Waiting(id);
      ghost var looks := Looks();
      assert free <==> forall t :: t in looks ==> looks[t].doing != Waiting(id) by {
        if !free {
          var i :| 0 <= i < |tasks| && tasks[i].doing == Waiting(id);
          assert tasks[i] in looks;
        }
      }
      assert task != null <==> exists t :: t in looks && looks[t].id == id;
      may := CurrentTask() != idle && (CurrentTask().doing == Waiting(id)
           || (CurrentTask().doing.Free? && free && (task != null || id in finishTasks)));
    }

    /** Over every run: the trace of states follows the actions, everything stays in order in all of them,
        and each exit code that is handed over is that of its task and is handed over once. */
    method Run(actions: seq<Action>) returns (codes: seq<Option<(nat, int)>>, ghost trace: seq<State<Task>>)
      requires Valid()
      modifies this, tasks
      ensures Valid() && |codes| == |actions| && |trace| == |actions| + 1
      ensures trace[0] == old(Now()) && trace[|actions|] == Now()
      ensures forall k :: 0 <= k < |trace| ==> trace[k].Live() && trace[k].Orderly(idle)
      ensures forall k :: 0 <= k < |actions| ==> Moves(trace[k], actions[k], trace[k + 1], codes[k], idle)
      ensures forall k :: 0 <= k < |codes| && codes[k].Some? ==> Kept(exitCodes, codes[k].value)
      ensures forall j, k :: 0 <= j < k < |codes| && codes[j].Some? && codes[k].Some? ==> codes[j].value.0 != codes[k].value.0
      ensures forall k :: 0 <= k < |codes| && codes[k].Some? && codes[k].value.0 !in old(exitCodes) ==>
        exists j :: 0 <= j < k && actions[j] == End(codes[k].value.1) && trace[j].Current().id == codes[k].value.0
    {
      hide State.Scheduled, State.Parked, State.Codes, Distinct, Moves, TaskManager.Looks;
      codes, trace := [], [Now()];
      CurrentIsTask();
      for n := 0 to |actions|
        invariant Valid() && |codes| == n && |trace| == n + 1
        invariant forall k :: 0 <= k < |tasks| ==> tasks[k] in old(tasks) || fresh(tasks[k])
        invariant trace[0] == old(Now()) && trace[n] == Now()
        invariant forall k :: 0 <= k <= n ==> trace[k].Live() && trace[k].Orderly(idle)
        invariant forall k :: 0 <= k < n ==> Moves(trace[k], actions[k], trace[k + 1], codes[k], idle)
        invariant forall k :: 0 <= k < n && codes[k].Some? ==> Kept(exitCodes, codes[k].value) && codes[k].value.0 in collected
        invariant forall j, k :: 0 <= j < k < n && codes[j].Some? && codes[k].Some? ==> codes[j].value.0 != codes[k].value.0
      {
        ghost var before := tasks;
        var code := Step(actions[n]);
        forall k | 0 <= k < |tasks| ensures tasks[k] in old(tasks) || fresh(tasks[k]) {
          var t := tasks[k];
          assert t in tasks;
          if t in before {
            assert before[IndexOf(before, t)] == t;
          }
        }
        HandedOver(trace[n], actions[n], Now(), code, idle);
        CurrentIsTask();
        codes, trace := codes + [code], trace + [Now()];
      }
      forall k | 0 <= k < |codes| && codes[k].Some? && codes[k].value.0 !in old(exitCodes)
        ensures exists j :: 0 <= j < k && actions[j] == End(codes[k].value.1) && trace[j].Current().id == codes[k].value.0
      {
        CodeKept(trace[k], actions[k], trace[k + 1], codes[k], idle);
        var j := CodeFrom(trace, actions, codes, idle, k, codes[k].value.0);
      }
    }
  }

  ghost predicate Kept(exitCodes: map<nat, int>, code: (nat, int)) {
    code.0 in exitCodes && exitCodes[code.0] == code.1
  }
}
