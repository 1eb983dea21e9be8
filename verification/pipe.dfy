/** The pipe between two terminals: a byte stream carried by messages to the reading task. */
module Pipes {
  import opened Results
  import opened Streams
  import opened RunQueues
  import opened TaskStates
  import opened Tasks

  const PIPE_DATA_BYTES := 16

  /** The bytes of the pipe messages in a mailbox, in order. */
  function PipeBytes(msgs: seq<Message>): seq<char> {
    if msgs == [] then [] else (if msgs[0].Pipe? then msgs[0].data else []) + PipeBytes(msgs[1..])
  }

  /** Whether the mailbox holds the message that closes the pipe, and that one is the last. */
  ghost predicate EndsClosed(msgs: seq<Message>) {
    msgs != [] && if msgs[0] == Pipe([]) then NoPipe(msgs[1..]) else EndsClosed(msgs[1..])
  }

  ghost predicate NoPipe(msgs: seq<Message>) {
    forall m :: m in msgs ==> !m.Pipe?
  }

  ghost predicate NoClose(msgs: seq<Message>) {
    forall m :: m in msgs ==> m != Pipe([])
  }

  lemma {:induction false} PipeBytesAppend(msgs: seq<Message>, m: Message)
    ensures PipeBytes(msgs + [m]) == PipeBytes(msgs) + if m.Pipe? then m.data else []
  {
    var tail := if m.Pipe? then m.data else [];
    if msgs == [] {
      assert [m][1..] == [] && msgs + [m] == [m];
      assert PipeBytes([m]) == tail + PipeBytes([]);
    } else {
      var head, rest := if msgs[0].Pipe? then msgs[0].data else [], PipeBytes(msgs[1..]);
      PipeBytesAppend(msgs[1..], m);
      assert (msgs + [m])[0] == msgs[0] && (msgs + [m])[1..] == msgs[1..] + [m];
      assert PipeBytes(msgs + [m]) == head + (rest + tail);
    }
  }

  lemma {:induction false} EndsClosedAppend(msgs: seq<Message>, m: Message)
    ensures EndsClosed(msgs) && !m.Pipe? ==> EndsClosed(msgs + [m])
    ensures NoClose(msgs) ==> EndsClosed(msgs + [Pipe([])])
  {
    if msgs != [] {
      assert msgs[0] in msgs && forall x :: x in msgs[1..] ==> x in msgs;
      assert NoPipe(msgs[1..]) && !m.Pipe? ==> NoPipe(msgs[1..] + [m]);
      EndsClosedAppend(msgs[1..], m);
      assert (msgs + [m])[1..] == msgs[1..] + [m];
      assert (msgs + [Pipe([])])[1..] == msgs[1..] + [Pipe([])];
    } else {
      assert [Pipe([])][1..] == [];
      assert msgs + [Pipe([])] == [Pipe([])];
    }
  }

  lemma {:induction false} NoPipeNoBytes(msgs: seq<Message>)
    requires NoPipe(msgs)
    ensures PipeBytes(msgs) == []
  {
    if msgs != [] {
      NoPipeNoBytes(msgs[1..]);
    }
  }

  // ---------------------------------------------------------------- what each action does

  /** What can happen next to the two ends of a pipe. */
  datatype PipeAction = BeginWrite(buf: seq<char>) | SendNext | Close | Interrupted(kind: nat) | Switch | ReadBytes(len: nat)

  /** What the reader keeps: bytes of the last message, and whether the pipe was closed. */
  datatype Reader = Reader(data: seq<char>, closed: bool) {
    predicate Receives() {
      data == [] && !closed
    }
  }

  function Least(a: nat, b: nat): nat {
    if b < a then b else a
  }

  /** One look at the mailbox at most: what the reader keeps then, and what Read returns, if it does. */
  function Reading(r: Reader, msgs: seq<Message>, len: nat): (Reader, Option<seq<char>>) {
    if r.data != [] then
      var n := Least(|r.data|, len);
      (r.(data := r.data[n..]), Some(r.data[..n]))
    else if r.closed then (r, Some([]))
    else if msgs == [] || !msgs[0].Pipe? then (r, None)
    else if msgs[0].data == [] then (r.(closed := true), Some([]))
    else
      var n := Least(|msgs[0].data|, len);
      (r.(data := msgs[0].data[n..]), Some(msgs[0].data[..n]))
  }

  /** The tasks, the two ends of the pipe, and what went in and out so far. outgoing is the rest of the buffer
      that is being written. */
  datatype World<T> = World(m: State<T>, r: Reader, finished: bool, outgoing: seq<char>,
                            buffers: seq<seq<char>>, received: seq<seq<char>>) {
    ghost predicate Live(task: T) {
      m.Live() && task in m.looks
    }

    ghost function Msgs(task: T): seq<Message>
      requires Live(task)
    {
      m.looks[task].msgs
    }

    /** It is the reader's turn, and it is not waiting for the end of a task. */
    ghost predicate Turn(task: T)
      requires Live(task)
    {
      m.q.Front() == task && !m.looks[task].doing.Waiting?
    }

    /** Nothing is lost, doubled or reordered. */
    ghost predicate Conserves(task: T)
      requires Live(task)
    {
      Concat(received) + r.data + PipeBytes(Msgs(task)) + outgoing == Concat(buffers)
    }
  }

  /** What an action does, and what Read returns. An action that is not possible does nothing. */
  ghost function PipeNext<T>(w: World<T>, task: T, a: PipeAction): (World<T>, Option<seq<char>>)
    requires w.Live(task)
  {
    match a
    case BeginWrite(buf) =>
      (if w.outgoing == [] && !w.finished then w.(outgoing := buf, buffers := w.buffers + [buf]) else w, None)
    case SendNext =>
      var n := Least(PIPE_DATA_BYTES, |w.outgoing|);
      (if n > 0 then w.(outgoing := w.outgoing[n..], m := w.m.Delivered(task, Pipe(w.outgoing[..n]))) else w, None)
    case Close =>
      (if w.outgoing == [] && !w.finished then w.(finished := true, m := w.m.Delivered(task, Pipe([]))) else w, None)
    case Interrupted(kind) => (w.(m := w.m.Delivered(task, Other(kind))), None)
    case Switch => (w.(m := w.m.(q := Rotated(w.m.q, false))), None)
    case ReadBytes(len) =>
      if !w.Turn(task) then (w, None)
      else
        var (r, buf) := Reading(w.r, w.Msgs(task), len);
        (w.(r := r, m := if w.r.Receives() then w.m.Received() else w.m,
            received := w.received + if buf.Some? then [buf.value] else []), buf)
  }

  /** What a read may do: it returns at most len bytes, all of what the reader has left or of the next message if
      they fit, and keeps the others; the empty message closes the pipe. */
  ghost predicate ReadsRightly(r: Reader, msgs: seq<Message>, len: nat, r': Reader, out: Option<seq<char>>) {
    var piped := msgs != [] && msgs[0].Pipe? && r.data == [] && !r.closed;
    var bytes := if piped then msgs[0].data else r.data;
    && (out.Some? ==> |out.value| <= len && out.value + r'.data == bytes)
    && (bytes != [] ==> out.Some? && (|out.value| == len || r'.data == []))
    && (r'.closed <==> r.closed || (piped && bytes == []))
    && (out.None? ==> bytes == [] && r' == r && !r.closed && !piped)
  }

  lemma ReadingIsRight(r: Reader, msgs: seq<Message>, len: nat)
    ensures ReadsRightly(r, msgs, len, Reading(r, msgs, len).0, Reading(r, msgs, len).1)
  {
  }

  /** One step of a run; a read returns no more than it asked for, and the end of the stream only when all that
      was written has been read and the pipe was closed. */
  ghost predicate Moved<T>(w: World<T>, task: T, a: PipeAction, w': World<T>, out: Option<seq<char>>)
    requires w.Live(task)
  {
    && PipeNext(w, task, a) == (w', out)
    && (a.ReadBytes? && out.Some? ==> |out.value| <= a.len)
    && (a.ReadBytes? && a.len > 0 && out == Some([]) ==> w.finished && Concat(w.received) == Concat(w.buffers))
  }

  lemma ReadsAtMost<T>(w: World<T>, task: T, a: PipeAction)
    requires w.Live(task)
    ensures var out := PipeNext(w, task, a).1; a.ReadBytes? && out.Some? ==> |out.value| <= a.len
  {
    if a.ReadBytes? {
      ReadingIsRight(w.r, w.Msgs(task), a.len);
    }
  }

  /** What each action does, by what it changes: a new buffer is taken on when the last one is sent; each message
      has sixteen bytes or the rest of the buffer; the pipe is closed by an empty one; a read at the reader's turn
      looks at the oldest message only when it has nothing left. */
  lemma PipeNextIs<T>(w: World<T>, task: T, a: PipeAction)
    requires w.Live(task)
    ensures var (w', out) := PipeNext(w, task, a);
      && task in w'.m.looks
      && var msgs, msgs' := w.Msgs(task), w'.m.looks[task].msgs;
      && (a.BeginWrite? && w.outgoing == [] && !w.finished ==> w'.outgoing == a.buf && w'.buffers == w.buffers + [a.buf])
      && (a.SendNext? && w.outgoing != [] ==>
            && |msgs'| == |msgs| + 1 && msgs'[..|msgs|] == msgs && msgs'[|msgs|].Pipe?
            && var piece := msgs'[|msgs|].data;
               piece + w'.outgoing == w.outgoing && 0 < |piece| <= 16 && (|piece| == 16 || w'.outgoing == []))
      && (a.Close? && w.outgoing == [] && !w.finished ==> w'.finished && msgs' == msgs + [Pipe([])])
      && ((a.BeginWrite? || a.Close?) && (w.outgoing != [] || w.finished) ==> w' == w && out == None)
      && ((a.SendNext? && w.outgoing == []) || (a.ReadBytes? && !w.Turn(task)) ==> w' == w && out == None)
      && (a.Interrupted? ==> msgs' == msgs + [Other(a.kind)])
      && (a.Switch? ==> w'.m.q == Rotated(w.m.q, false) && w' == w.(m := w.m.(q := w'.m.q)))
      && (w'.finished <==> w.finished || (a.Close? && w.outgoing == []))
      && (!a.BeginWrite? ==> w'.buffers == w.buffers)
      && (a.ReadBytes? && w.Turn(task) ==>
            && ReadsRightly(w.r, msgs, a.len, w'.r, out) && w'.received == w.received + (if out.Some? then [out.value] else [])
            && msgs' == if w.r.data == [] && !w.r.closed && msgs != [] then msgs[1..] else msgs)
  {
    hide Rotated, Slept, Woken, Releveled;
    if a.ReadBytes? {
      ReadingIsRight(w.r, w.Msgs(task), a.len);
    }
  }

  class PipeDescriptor {
    const manager: TaskManager
    const task: Task
    var data: seq<char>
    var closed: bool
    ghost var written: seq<char>
    ghost var delivered: seq<char>
    ghost var finished: bool

    constructor (manager: TaskManager, task: Task)
      requires PipeBytes(task.msgs) == [] && NoPipe(task.msgs)
      ensures Valid() && this.manager == manager && this.task == task
      ensures written == [] && delivered == [] && !finished
    {
      this.manager, this.task := manager, task;
      data, closed, written, delivered, finished := [], false, [], [], false;
    }

    function Ends(): Reader
      reads this
    {
      Reader(data, closed)
    }

    /** What was delivered, what the reader keeps for its next read and what is still in the mailbox
        make up what was written. */
    ghost predicate Valid()
      reads this, task`msgs
    {
      && delivered + data + PipeBytes(task.msgs) == written
      && |data| <= PIPE_DATA_BYTES
      && (forall m :: m in task.msgs && m.Pipe? ==> |m.data| <= PIPE_DATA_BYTES)
      && (closed ==> finished && data == [] && NoPipe(task.msgs))
      && (!closed && finished ==> EndsClosed(task.msgs))
      && (!finished ==> NoClose(task.msgs))
    }

    /** The body of the loop of Write: one message with the next bytes of the buffer. */
    method WriteStep(buf: seq<char>, sentBytes: nat) returns (sent: nat)
      requires manager.Valid() && task in manager.tasks && Valid() && !finished && sentBytes < |buf|
      modifies this`written, task, manager`queues, manager`currentLevel, manager`levelChanged
      ensures manager.Valid() && Valid() && task.running
      ensures sent == sentBytes + Least(PIPE_DATA_BYTES, |buf| - sentBytes)
      ensures sentBytes < sent <= |buf| && (sent == sentBytes + 16 || (sent == |buf| && sent < sentBytes + 16))
      ensures written == old(written) + buf[sentBytes..sent]
      ensures old(manager.Now()).Has(task)
              && manager.Now() == old(manager.Now()).Delivered(task, Pipe(buf[sentBytes..sent]))
    {
      hide TaskManager.Valid, TaskManager.Now, State.Delivered;
      var len := Least(PIPE_DATA_BYTES, |buf| - sentBytes);
      sent := sentBytes + len;
      var msg := Pipe(buf[sentBytes..sent]);
      PipeBytesAppend(task.msgs, msg);
      manager.SendTo(task, msg);
      written := written + msg.data;
    }

    /** Write, when no other task gets to run in between. */
    method Write(buf: seq<char>) returns (len: nat)
      requires manager.Valid() && task in manager.tasks && Valid() && !finished
      modifies this`written, task, manager`queues, manager`currentLevel, manager`levelChanged
      ensures manager.Valid() && Valid()
      ensures len == |buf| && written == old(written) + buf
    {
      hide TaskManager.Valid, TaskManager.Now, State.Delivered;
      var sentBytes := 0;
      while sentBytes < |buf|
        invariant sentBytes <= |buf| && manager.Valid() && Valid()
        invariant written == old(written) + buf[..sentBytes]
      {
        var sent := WriteStep(buf, sentBytes);
        assert buf[..sent] == buf[..sentBytes] + buf[sentBytes..sent];
        sentBytes := sent;
      }
      assert buf[..sentBytes] == buf;
      len := |buf|;
    }

    method FinishWrite()
      requires manager.Valid() && task in manager.tasks && Valid() && !finished
      modifies this`finished, task, manager`queues, manager`currentLevel, manager`levelChanged
      ensures manager.Valid() && Valid() && finished && task.running
      ensures old(manager.Now()).Has(task) && manager.Now() == old(manager.Now()).Delivered(task, Pipe([]))
    {
      hide TaskManager.Valid, TaskManager.Now, State.Delivered;
      PipeBytesAppend(task.msgs, Pipe([]));
      EndsClosedAppend(task.msgs, Pipe([]));
      manager.SendTo(task, Pipe([]));
      finished := true;
    }

    /** Some other message for the reading task. */
    method Interrupt(kind: nat)
      requires manager.Valid() && task in manager.tasks && Valid()
      modifies task, manager`queues, manager`currentLevel, manager`levelChanged
      ensures manager.Valid() && Valid()
      ensures old(manager.Now()).Has(task) && manager.Now() == old(manager.Now()).Delivered(task, Other(kind))
    {
      hide TaskManager.Valid, TaskManager.Now, State.Delivered;
      PipeBytesAppend(task.msgs, Other(kind));
      EndsClosedAppend(task.msgs, Other(kind));
      manager.SendTo(task, Other(kind));
    }

    /** Read, up to the point where it returns or has to look for another message. */
    method ReadStep(len: nat) returns (buf: Option<seq<char>>)
      requires manager.Valid() && Valid() && manager.Q().Live() && manager.CurrentTask() == task
      requires task != manager.idle && !task.doing.Waiting?
      modifies this`data, this`closed, this`delivered
      modifies task, manager`queues, manager`currentLevel, manager`levelChanged
      ensures manager.Valid() && Valid()
      ensures delivered == old(delivered) + if buf.Some? then buf.value else []
      ensures (Ends(), buf) == Reading(old(Ends()), old(task.msgs), len)
      ensures ReadsRightly(old(Ends()), old(task.msgs), len, Ends(), buf) && (buf.Some? ==> |buf.value| <= len)
      ensures old(manager.Now()).Live()
              && manager.Now() == if old(Ends()).Receives() then old(manager.Now()).Received() else old(manager.Now())
      ensures buf == Some([]) && len > 0 ==> finished && delivered == written
    {
      hide TaskManager.Valid, State.Received, TaskManager.Now, ReadsRightly;
      Lives();
      ReadMost(len);
      if |data| > 0 {
        var copyBytes := Least(|data|, len);
        buf := Some(data[..copyBytes]);
        delivered := delivered + data[..copyBytes];
        data := data[copyBytes..];
        return;
      }
      if closed {
        NoPipeNoBytes(task.msgs);
        return Some([]);
      }
      buf := ReceiveStep(len);
    }

    lemma ReadMost(len: nat)
      ensures var (r, out) := Reading(Ends(), task.msgs, len);
        ReadsRightly(Ends(), task.msgs, len, r, out) && (out.Some? ==> |out.value| <= len)
    {
      ReadingIsRight(Ends(), task.msgs, len);
    }

    /** The body of the loop of Read. */
    method ReceiveStep(len: nat) returns (buf: Option<seq<char>>)
      requires manager.Valid() && Valid() && manager.Q().Live() && manager.CurrentTask() == task
      requires task != manager.idle && !task.doing.Waiting? && data == [] && !closed
      modifies this`data, this`closed, this`delivered
      modifies task, manager`queues, manager`currentLevel, manager`levelChanged
      ensures manager.Valid() && Valid()
      ensures delivered == old(delivered) + if buf.Some? then buf.value else []
      ensures (Ends(), buf) == Reading(old(Ends()), old(task.msgs), len)
      ensures buf.Some? ==> |buf.value| <= len
      ensures old(manager.Now()).Live()
              && manager.Now() == if old(Ends()).Receives() then old(manager.Now()).Received() else old(manager.Now())
      ensures buf == Some([]) && len > 0 ==> finished && delivered == written
      ensures buf == None && old(task.msgs) == [] ==> !task.running && task.doing.Receiving?
    {
      hide TaskManager.Valid, State.Received, TaskManager.Now;
      ghost var msgs := task.msgs;
      assert msgs != [] ==> msgs[0] in msgs && forall m :: m in msgs[1..] ==> m in msgs;
      var msg := manager.ReceiveOrSleep();
      assert msg.Some? ==> msgs != [] && msg.value == msgs[0] && task.msgs == msgs[1..];
      if msg.None? {
        return None;
      }
      if !msg.value.Pipe? {
        return None;
      }
      if msg.value.data == [] {
        assert msgs[0] == Pipe([]);
        closed := true;
        NoPipeNoBytes(task.msgs);
        return Some([]);
      }
      var copyBytes := Least(|msg.value.data|, len);
      buf := Some(msg.value.data[..copyBytes]);
      data := msg.value.data[copyBytes..];
      delivered := delivered + msg.value.data[..copyBytes];
    }

    ghost function Around(outgoing: seq<char>, buffers: seq<seq<char>>, received: seq<seq<char>>): World<Task>
      reads this, manager, manager.tasks
    {
      World(manager.Now(), Ends(), finished, outgoing, buffers, received)
    }

    /** w is how things stand now; the writer has this rest of a buffer to send, or has closed the pipe. */
    ghost predicate Stands(w: World<Task>, outgoing: seq<char>, closing: bool)
      reads this, task, manager, manager.tasks
    {
      && manager.Valid() && task in manager.tasks && task != manager.idle && Valid()
      && w == Around(outgoing, w.buffers, w.received) && w.Live(task) && w.Msgs(task) == task.msgs
      && delivered == Concat(w.received) && Concat(w.buffers) == written + outgoing && (finished ==> outgoing == []) && closing == finished
    }

    lemma StandsConserves(w: World<Task>, outgoing: seq<char>, closing: bool)
      requires Stands(w, outgoing, closing)
      ensures manager.Valid() && Valid() && w.Live(task) && w.Conserves(task)
      ensures w == Around(w.outgoing, w.buffers, w.received)
    {
    }

    lemma AtFirst()
      requires manager.Valid() && task in manager.tasks && task != manager.idle && Valid()
      requires written == delivered == [] && !finished
      ensures Around([], [], []).Live(task) && Stands(Around([], [], []), [], false)
    {
      MsgsAre();
    }

    /** The next action in a run. */
    method Step(a: PipeAction, outgoing: seq<char>, closing: bool, ghost w: World<Task>)
      returns (out: Option<seq<char>>, rest: seq<char>, closes: bool)
      requires Stands(w, outgoing, closing)
      modifies this, task, manager`queues, manager`currentLevel, manager`levelChanged
      ensures Stands(PipeNext(w, task, a).0, rest, closes) && Moved(w, task, a, PipeNext(w, task, a).0, out)
    {
      hide TaskManager.Valid, State.Delivered, State.Received, Rotated, TaskManager.Looks, TaskManager.Now;
      out, rest, closes := None, outgoing, closing;
      ReadsAtMost(w, task, a);
      match a {
        case BeginWrite(_) => rest, closes := WriterStep(a, outgoing, closing, w);
        case SendNext => rest, closes := WriterStep(a, outgoing, closing, w);
        case Close => rest, closes := WriterStep(a, outgoing, closing, w);
        case Interrupted(kind) =>
          Interrupt(kind);
          MsgsAre();
        case Switch =>
          manager.SwitchTask();
          MsgsAre();
        case ReadBytes(len) => out := ReaderStep(len, outgoing, closing, w);
      }
    }

    method WriterStep(a: PipeAction, outgoing: seq<char>, closing: bool, ghost w: World<Task>)
      returns (rest: seq<char>, closes: bool)
      requires Stands(w, outgoing, closing) && (a.BeginWrite? || a.SendNext? || a.Close?)
      modifies this`written, this`finished, task, manager`queues, manager`currentLevel, manager`levelChanged
      ensures PipeNext(w, task, a).1 == None && Stands(PipeNext(w, task, a).0, rest, closes)
    {
      hide TaskManager.Valid, State.Delivered, TaskManager.Looks, TaskManager.Now;
      rest, closes := outgoing, closing;
      if a.BeginWrite? {
        if outgoing == [] && !closing {
          ConcatAppend(w.buffers, a.buf);
          rest := a.buf;
        }
      } else if a.SendNext? {
        if outgoing != [] {
          var sent := WriteStep(outgoing, 0);
          assert outgoing == outgoing[..sent] + outgoing[sent..];
          rest := outgoing[sent..];
          MsgsAre();
        }
      } else if outgoing == [] && !closing {
        FinishWrite();
        closes := true;
        MsgsAre();
      }
    }

    method ReaderStep(len: nat, outgoing: seq<char>, closing: bool, ghost w: World<Task>) returns (out: Option<seq<char>>)
      requires Stands(w, outgoing, closing)
      modifies this`data, this`closed, this`delivered, task, manager`queues, manager`currentLevel, manager`levelChanged
      ensures PipeNext(w, task, ReadBytes(len)).1 == out && Stands(PipeNext(w, task, ReadBytes(len)).0, outgoing, closing)
      ensures len > 0 && out == Some([]) ==> w.finished && Concat(w.received) == Concat(w.buffers)
    {
      hide TaskManager.Valid, PipeDescriptor.Valid, TaskManager.Now, State.Received, TaskManager.Looks, Reading, Concat, PipeBytes;
      out := None;
      MsgsAre();
      if manager.CurrentTask() == task && !task.doing.Waiting? {
        out := ReadStep(len);
        if out.Some? {
          ConcatAppend(w.received, out.value);
        }
        MsgsAre();
        assert w.received + [] == w.received;
      }
    }

    lemma Lives()
      requires manager.Valid()
      ensures manager.Now().Live()
    {
      manager.CurrentIsTask();
    }

    lemma MsgsAre()
      requires manager.Valid() && task in manager.tasks
      ensures manager.Now().Live() && task in manager.Now().looks && manager.Now().looks[task] == task.Look()
      ensures manager.Q().Live() && manager.Now().q == manager.Q()
    {
      manager.CurrentIsTask();
      manager.Looking();
    }

    /** In every interleaving of the writer's messages, the reader's steps, other messages and the timer,
        the pieces that were read are, in order, a prefix of the buffers that were written; the end of the
        stream is seen only once all of it was read. The trace follows the actions. */
    method Run(actions: seq<PipeAction>) returns (outs: seq<Option<seq<char>>>, ghost trace: seq<World<Task>>)
      requires manager.Valid() && task in manager.tasks && task != manager.idle && Valid()
      requires written == delivered == [] && !finished
      modifies this, task, manager`queues, manager`currentLevel, manager`levelChanged
      ensures manager.Valid() && Valid() && |outs| == |actions| && |trace| == |actions| + 1
      ensures trace[0] == old(Around([], [], [])) && forall k :: 0 <= k <= |actions| ==> trace[k].Live(task)
      ensures trace[|actions|] == Around(trace[|actions|].outgoing, trace[|actions|].buffers, trace[|actions|].received)
      ensures forall k :: 0 <= k < |actions| ==> Moved(trace[k], task, actions[k], trace[k + 1], outs[k])
      ensures forall k :: 0 <= k <= |actions| ==> trace[k].Conserves(task)
    {
      hide TaskManager.Valid, PipeDescriptor.Valid, Moved, PipeNext, PipeDescriptor.Stands, World.Live, World.Conserves;
      var outgoing, closing := [], false;
      outs, trace := [], [Around([], [], [])];
      AtFirst();
      StandsConserves(trace[0], outgoing, closing);
      for n := 0 to |actions|
        invariant manager.Valid() && Valid() && |outs| == n && |trace| == n + 1 && trace[0] == old(Around([], [], []))
        invariant Stands(trace[n], outgoing, closing)
        invariant trace[n] == Around(trace[n].outgoing, trace[n].buffers, trace[n].received)
        invariant forall k :: 0 <= k <= n ==> trace[k].Live(task) && trace[k].Conserves(task)
        invariant forall k :: 0 <= k < n ==> Moved(trace[k], task, actions[k], trace[k + 1], outs[k])
      {
        ghost var w := PipeNext(trace[n], task, actions[n]).0;
        var out;
        out, outgoing, closing := Step(actions[n], outgoing, closing, trace[n]);
        StandsConserves(w, outgoing, closing);
        outs, trace := outs + [out], trace + [w];
      }
    }
  }
}
