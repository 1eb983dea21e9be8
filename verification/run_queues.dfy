/** The multi-level run queues as values: what each scheduler operation does to them, the invariant
    they keep, and how long a task waits. */
module RunQueues {
  import opened Stacks

  const MAX_LEVEL := 3

  type Level = lv: nat | lv <= MAX_LEVEL

  /** queues[lv] holds the runnable tasks of a level; the task running now is the front of the queue at
      level current. changed tells that another level may have to become current. */
  datatype Queues<T> = Queues(queues: seq<seq<T>>, current: nat, changed: bool) {
    predicate Wf() {
      |queues| == MAX_LEVEL + 1 && current <= MAX_LEVEL
    }

    predicate Live() {
      Wf() && queues[current] != []
    }

    function Front(): T
      requires Live()
    {
      queues[current][0]
    }
  }

  /** levels gives the level of every task that is marked running. Each such task is in the queue of
      its level, once, and in no other queue. */
  ghost predicate Placed<T>(queues: seq<seq<T>>, levels: map<T, nat>)
    requires |queues| == MAX_LEVEL + 1
  {
    && (forall lv :: 0 <= lv <= MAX_LEVEL ==> Distinct(queues[lv]))
    && (forall lv :: 0 <= lv <= MAX_LEVEL ==> forall t :: t in queues[lv] ==> t in levels && levels[t] == lv)
    && (forall t :: t in levels ==> levels[t] <= MAX_LEVEL && t in queues[levels[t]])
  }

  /** Moreover some task is current, and unless a level change is pending no task waits above it. */
  ghost predicate Consistent<T>(q: Queues<T>, levels: map<T, nat>) {
    && q.Live() && Placed(q.queues, levels)
    && (!q.changed ==> forall lv :: q.current < lv <= MAX_LEVEL ==> q.queues[lv] == [])
  }

  // ---------------------------------------------------------------- the operations

  /** The highest level up to lv that has a task; the given one if there is none. */
  function Highest<T>(queues: seq<seq<T>>, lv: nat, current: nat): (r: nat)
    requires lv < |queues| && current < |queues|
    ensures r < |queues| && (r == current || (r <= lv && queues[r] != []))
    ensures forall k :: 0 <= k <= lv && queues[k] != [] ==> k <= r <= lv && queues[r] != []
  {
    if queues[lv] != [] then lv else if lv == 0 then current else Highest(queues, lv - 1, current)
  }

  /** RotateCurrentRunQueue */
  function Rotated<T>(q: Queues<T>, currentSleep: bool): (r: Queues<T>)
    requires q.Live()
  {
    var rest := q.queues[q.current][1..] + if currentSleep then [] else [q.Front()];
    var queues := q.queues[q.current := rest];
    Queues(queues, if q.changed || rest == [] then Highest(queues, MAX_LEVEL, q.current) else q.current, false)
  }

  /** Sleep of a running task. */
  ghost function Slept<T>(q: Queues<T>, t: T, lv: nat): (r: Queues<T>)
    requires q.Live() && lv <= MAX_LEVEL
  {
    if t == q.Front() then Rotated(q, true) else q.(queues := q.queues[lv := Hidden(q.queues[lv], t)])
  }

  /** Wakeup of a task that is not running. */
  function Woken<T>(q: Queues<T>, t: T, lv: nat): (r: Queues<T>)
    requires q.Wf() && lv <= MAX_LEVEL
  {
    q.(queues := q.queues[lv := q.queues[lv] + [t]], changed := q.changed || lv > q.current)
  }

  /** ChangeLevelRunning of a task from its level to another one. */
  ghost function Releveled<T>(q: Queues<T>, t: T, from: nat, to: nat): (r: Queues<T>)
    requires q.Live() && from <= MAX_LEVEL && to <= MAX_LEVEL
  {
    if t != q.Front() then
      var queues := q.queues[from := Hidden(q.queues[from], t)];
      q.(queues := queues[to := queues[to] + [t]], changed := q.changed || to > q.current)
    else
      var queues := q.queues[q.current := q.queues[q.current][1..]];
      Queues(queues[to := [t] + queues[to]], to, q.changed || to < q.current)
  }

  // ---------------------------------------------------------------- the invariant

  lemma TailIs<T>(items: seq<T>)
    requires Distinct(items) && items != []
    ensures Distinct(items[1..]) && items[0] !in items[1..]
    ensures forall y :: y in items[1..] <==> y in items && y != items[0]
  {
    forall y | y in items && y != items[0] ensures y in items[1..] {
      var i := IndexOf(items, y);
      assert items[1..][i - 1] == y;
    }
  }

  lemma AppendIs<T>(items: seq<T>, x: T)
    requires Distinct(items) && x !in items
    ensures Distinct(items + [x]) && Distinct([x] + items)
  {
  }

  /** Taking a task out of its queue. */
  lemma TakenOut<T>(queues: seq<seq<T>>, levels: map<T, nat>, t: T, rest: seq<T>)
    requires |queues| == MAX_LEVEL + 1 && Placed(queues, levels) && t in levels
    requires Distinct(rest) && forall y :: y in rest <==> y in queues[levels[t]] && y != t
    ensures Placed(queues[levels[t] := rest], levels - {t})
  {
  }

  /** Putting a task that is in no queue into one, at either end. */
  lemma PutIn<T>(queues: seq<seq<T>>, levels: map<T, nat>, t: T, lv: nat)
    requires |queues| == MAX_LEVEL + 1 && Placed(queues, levels) && t !in levels && lv <= MAX_LEVEL
    ensures Placed(queues[lv := queues[lv] + [t]], levels[t := lv])
    ensures Placed(queues[lv := [t] + queues[lv]], levels[t := lv])
  {
  }

  lemma HighestIsRight<T>(queues: seq<seq<T>>, levels: map<T, nat>, current: nat)
    requires |queues| == MAX_LEVEL + 1 && Placed(queues, levels) && current <= MAX_LEVEL && levels != map[]
    ensures Consistent(Queues(queues, Highest(queues, MAX_LEVEL, current), false), levels)
  {
  }

  /** The front goes to the end of its queue. */
  lemma RotatedIsConsistent<T>(q: Queues<T>, levels: map<T, nat>)
    requires Consistent(q, levels)
    ensures Consistent(Rotated(q, false), levels)
  {
    var t := q.Front();
    assert t in q.queues[q.current];
    TailIs(q.queues[q.current]);
    var tail := q.queues[q.current][1..];
    TakenOut(q.queues, levels, t, tail);
    var without := q.queues[q.current := tail];
    PutIn(without, levels - {t}, t, q.current);
    assert (levels - {t})[t := q.current] == levels;
    var queues := q.queues[q.current := tail + [t]];
    assert without[q.current := tail + [t]] == queues;
    HighestIsRight(queues, levels, q.current);
  }

  /** The front leaves its queue; some other task, such as the idle task, must remain. */
  lemma FrontGone<T>(q: Queues<T>, levels: map<T, nat>)
    requires Consistent(q, levels) && exists t :: t in levels && t != q.Front()
    ensures q.Front() in levels && Consistent(Rotated(q, true), levels - {q.Front()})
  {
    var t := q.Front();
    assert t in q.queues[q.current];
    TailIs(q.queues[q.current]);
    var tail := q.queues[q.current][1..];
    TakenOut(q.queues, levels, t, tail);
    assert tail + [] == tail;
    var u :| u in levels && u != t;
    assert u in levels - {t};
    HighestIsRight(q.queues[q.current := tail], levels - {t}, q.current);
  }

  lemma SleptIsConsistent<T>(q: Queues<T>, levels: map<T, nat>, t: T)
    requires Consistent(q, levels) && t in levels && exists u :: u in levels && u != t
    ensures Consistent(Slept(q, t, levels[t]), levels - {t})
  {
    if t == q.Front() {
      FrontGone(q, levels);
    } else {
      HiddenIs(q.queues[levels[t]], t);
      TakenOut(q.queues, levels, t, Hidden(q.queues[levels[t]], t));
      assert q.Front() in q.queues[q.current];
      var q' := Slept(q, t, levels[t]);
      assert q.Front() in q'.queues[q.current];
    }
  }

  lemma WokenIsConsistent<T>(q: Queues<T>, levels: map<T, nat>, t: T, lv: nat)
    requires Consistent(q, levels) && t !in levels && lv <= MAX_LEVEL
    ensures Consistent(Woken(q, t, lv), levels[t := lv])
  {
    PutIn(q.queues, levels, t, lv);
  }

  lemma ReleveledIsConsistent<T>(q: Queues<T>, levels: map<T, nat>, t: T, to: nat)
    requires Consistent(q, levels) && t in levels && to <= MAX_LEVEL && to != levels[t]
    ensures Consistent(Releveled(q, t, levels[t], to), levels[t := to])
  {
    var from := levels[t];
    assert (levels - {t})[t := to] == levels[t := to];
    if t == q.Front() {
      assert t in q.queues[q.current];
      TailIs(q.queues[from]);
      TakenOut(q.queues, levels, t, q.queues[from][1..]);
      PutIn(q.queues[from := q.queues[from][1..]], levels - {t}, t, to);
    } else {
      HiddenIs(q.queues[from], t);
      var rest := Hidden(q.queues[from], t);
      TakenOut(q.queues, levels, t, rest);
      PutIn(q.queues[from := rest], levels - {t}, t, to);
      var q' := Releveled(q, t, from, to);
      assert q.Front() in q.queues[q.current];
      assert q.Front() in q'.queues[q.current];
      assert t in q.queues[from];
    }
  }

  // ---------------------------------------------------------------- who comes where

  /** A rotation sends the current task to the end of its queue, or out of it, leaves the order of all others,
      and then, if a level change was pending or the queue is empty, goes to the highest level with a task. */
  lemma RotatedIs<T>(q: Queues<T>, currentSleep: bool)
    requires q.Live()
    ensures var r := Rotated(q, currentSleep);
      && !r.changed && |r.queues| == |q.queues|
      && (forall lv :: 0 <= lv < |q.queues| && lv != q.current ==> r.queues[lv] == q.queues[lv])
      && [q.Front()] + r.queues[q.current] == q.queues[q.current] + (if currentSleep then [] else [q.Front()])
      && (!q.changed && r.queues[q.current] != [] ==> r.current == q.current)
      && ((q.changed || r.queues[q.current] == []) && (exists lv :: 0 <= lv <= MAX_LEVEL && r.queues[lv] != []) ==>
            r.Live() && forall lv :: r.current < lv <= MAX_LEVEL ==> r.queues[lv] == [])
  {
  }

  /** A task that wakes up comes last in its level, and the current task goes on. */
  lemma WokenIs<T>(q: Queues<T>, t: T, lv: nat)
    requires q.Live() && lv <= MAX_LEVEL
    ensures var r := Woken(q, t, lv);
      && r.Live() && r.Front() == q.Front() && r.current == q.current && (r.changed <==> q.changed || lv > q.current)
      && r.queues[lv] == q.queues[lv] + [t]
      && forall k :: 0 <= k <= MAX_LEVEL && k != lv ==> r.queues[k] == q.queues[k]
  {
  }

  /** A task that sleeps leaves the others as they were; unless it is the current one, that goes on. */
  lemma SleptIs<T>(q: Queues<T>, levels: map<T, nat>, t: T)
    requires Consistent(q, levels) && t in levels && t != q.Front()
    ensures var r := Slept(q, t, levels[t]);
      && r.Live() && r.Front() == q.Front() && r.current == q.current && r.changed == q.changed
      && (forall k :: 0 <= k <= MAX_LEVEL && k != levels[t] ==> r.queues[k] == q.queues[k])
      && forall u :: u in r.queues[levels[t]] <==> u in q.queues[levels[t]] && u != t
  {
    HiddenIs(q.queues[levels[t]], t);
    if levels[t] == q.current {
      var i := IndexOf(q.queues[q.current], t);
      assert i > 0;
    }
  }

  /** A task that changes its level comes last there, unless it is the current one: that stays current, and its
      level becomes the current one. */
  lemma ReleveledIs<T>(q: Queues<T>, levels: map<T, nat>, t: T, to: nat)
    requires Consistent(q, levels) && t in levels && to <= MAX_LEVEL && to != levels[t]
    ensures var r := Releveled(q, t, levels[t], to);
      && r.Live() && r.Front() == q.Front()
      && (if t == q.Front() then r.current == to && r.queues[to] == [t] + q.queues[to] && (r.changed <==> q.changed || to <= q.current)
          else r.current == q.current && r.queues[to] == q.queues[to] + [t]
               && (r.changed <==> q.changed || to > q.current))
      && (forall u :: u in r.queues[levels[t]] <==> u in q.queues[levels[t]] && u != t)
      && forall k :: 0 <= k <= MAX_LEVEL && k != levels[t] && k != to ==> r.queues[k] == q.queues[k]
  {
    var from := levels[t];
    HiddenIs(q.queues[from], t);
    TailIs(q.queues[q.current]);
    if t == q.Front() {
      assert t in q.queues[q.current];
    } else if from == q.current {
      var i := IndexOf(q.queues[from], t);
      assert i > 0;
    }
  }

  // ---------------------------------------------------------------- waiting for one's turn

  /** What can happen to the queues: the timer, and tasks that sleep, finish, wake or change level. */
  datatype Event<T> = Tick | Leave(who: T) | Join(who: T, level: nat) | Relevel(who: T, level: nat)

  ghost predicate Possible<T>(levels: map<T, nat>, e: Event<T>) {
    match e
    case Tick => true
    case Leave(t) => t in levels && exists u :: u in levels && u != t
    case Join(t, lv) => t !in levels && lv <= MAX_LEVEL
    case Relevel(t, lv) => t in levels && lv <= MAX_LEVEL && lv != levels[t]
  }

  ghost function NextLevels<T>(levels: map<T, nat>, e: Event<T>): map<T, nat> {
    match e
    case Tick => levels
    case Leave(t) => levels - {t}
    case Join(t, lv) => levels[t := lv]
    case Relevel(t, lv) => levels[t := lv]
  }

  ghost function Next<T>(q: Queues<T>, levels: map<T, nat>, e: Event<T>): Queues<T>
    requires Consistent(q, levels) && Possible(levels, e)
  {
    match e
    case Tick => Rotated(q, false)
    case Leave(t) => Slept(q, t, levels[t])
    case Join(t, lv) => Woken(q, t, lv)
    case Relevel(t, lv) => Releveled(q, t, levels[t], lv)
  }

  lemma NextIsConsistent<T>(q: Queues<T>, levels: map<T, nat>, e: Event<T>)
    requires Consistent(q, levels) && Possible(levels, e)
    ensures Consistent(Next(q, levels, e), NextLevels(levels, e))
  {
    match e
    case Tick => RotatedIsConsistent(q, levels);
    case Leave(t) => SleptIsConsistent(q, levels, t);
    case Join(t, lv) => WokenIsConsistent(q, levels, t, lv);
    case Relevel(t, lv) => ReleveledIsConsistent(q, levels, t, lv);
  }

  /** The event takes the current task from the front: the timer, or its own sleep or end. */
  predicate Rotates<T(==)>(q: Queues<T>, e: Event<T>)
    requires q.Live()
  {
    e.Tick? || (e.Leave? && e.who == q.Front())
  }

  /** How many tasks are before t in the current queue. */
  ghost function Position<T>(q: Queues<T>, t: T): int
    requires q.Live()
  {
    IndexOf(q.queues[q.current], t)
  }

  /** While the level of a waiting task stays current, nothing that other tasks do sets it back, and
      each rotation brings it forward by one. */
  lemma PositionFalls<T>(q: Queues<T>, levels: map<T, nat>, e: Event<T>, t: T)
    requires Consistent(q, levels) && Possible(levels, e)
    requires t in levels && levels[t] == q.current && t != q.Front()
    requires e.Tick? || e.who != t
    requires Next(q, levels, e).current == q.current
    ensures Next(q, levels, e).Live()
    ensures var k, k' := Position(q, t), Position(Next(q, levels, e), t);
      0 <= k' <= k && (Rotates(q, e) ==> k' == k - 1)
  {
    NextIsConsistent(q, levels, e);
    var items, items' := q.queues[q.current], Next(q, levels, e).queues[q.current];
    var k := Position(q, t);
    if Rotates(q, e) {
      assert items'[k - 1] == t;
      IndexUnique(items', k - 1);
    } else if e.Leave? || e.Relevel? {
      if levels[e.who] == q.current {
        assert e.who != q.Front();
        HiddenIndex(items, e.who, t);
        var k' := IndexOf(Hidden(items, e.who), t);
        IndexUnique(items', k');
      } else {
        IndexUnique(items', k);
      }
    } else {
      IndexUnique(items', k);
    }
  }

  /** The queues after the first n events. */
  ghost predicate Trace<T>(qs: seq<Queues<T>>, ls: seq<map<T, nat>>, es: seq<Event<T>>) {
    && |qs| == |ls| == |es| + 1
    && Consistent(qs[0], ls[0])
    && forall i :: 0 <= i < |es| ==>
         Consistent(qs[i], ls[i]) && Possible(ls[i], es[i])
         && qs[i + 1] == Next(qs[i], ls[i], es[i]) && ls[i + 1] == NextLevels(ls[i], es[i])
  }

  /** The rotations among the first n events. */
  ghost function Rotations<T>(qs: seq<Queues<T>>, es: seq<Event<T>>, n: nat): nat
    requires n <= |es| < |qs| && forall i :: 0 <= i < |es| ==> qs[i].Live()
  {
    if n == 0 then 0 else Rotations(qs, es, n - 1) + if Rotates(qs[n - 1], es[n - 1]) then 1 else 0
  }

  /** Bounded wait: in any run in which the level of t stays current and only other tasks sleep, end,
      wake or change level, t gets its turn within as many rotations as there were tasks before it. */
  lemma {:induction false} BoundedWait<T>(qs: seq<Queues<T>>, ls: seq<map<T, nat>>, es: seq<Event<T>>, t: T) returns (turn: nat)
    requires Trace(qs, ls, es) && t in ls[0]
    requires forall i :: 0 <= i < |es| ==> es[i].Tick? || es[i].who != t
    requires forall i :: 0 <= i < |qs| ==> qs[i].current == ls[0][t]
    requires Rotations(qs, es, |es|) >= Position(qs[0], t)
    ensures turn < |qs| && qs[turn].Live() && qs[turn].Front() == t
  {
    var k;
    turn, k := TurnOrProgress(qs, ls, es, t, |es|);
  }

  lemma {:induction false} TurnOrProgress<T>(qs: seq<Queues<T>>, ls: seq<map<T, nat>>, es: seq<Event<T>>, t: T, n: nat)
    returns (turn: nat, k: nat)
    requires n <= |es| && Trace(qs, ls, es) && t in ls[0]
    requires forall i :: 0 <= i < |es| ==> es[i].Tick? || es[i].who != t
    requires forall i :: 0 <= i < |qs| ==> qs[i].current == ls[0][t]
    ensures turn < |qs| && qs[turn].Live() && Consistent(qs[n], ls[n])
    ensures qs[turn].Front() == t
            || (qs[n].Front() != t && t in ls[n] && ls[n][t] == ls[0][t]
                && k == Position(qs[n], t) && k + Rotations(qs, es, n) <= Position(qs[0], t))
    ensures qs[turn].Front() == t || k > 0
  {
    hide Placed, Next;
    if n == 0 {
      assert t in qs[0].queues[qs[0].current] by { InItsQueue(qs[0], ls[0], t); }
      turn, k := 0, Position(qs[0], t);
    } else {
      turn, k := TurnOrProgress(qs, ls, es, t, n - 1);
      NextIsConsistent(qs[n - 1], ls[n - 1], es[n - 1]);
      assert qs[n - 1 + 1] == Next(qs[n - 1], ls[n - 1], es[n - 1]);
      if qs[turn].Front() != t {
        PositionFalls(qs[n - 1], ls[n - 1], es[n - 1], t);
        k := Position(qs[n], t);
        if qs[n].Front() == t {
          turn := n;
        }
      }
    }
  }

  lemma InItsQueue<T>(q: Queues<T>, levels: map<T, nat>, t: T)
    requires Consistent(q, levels) && t in levels
    ensures t in q.queues[levels[t]]
  {
  }
}
