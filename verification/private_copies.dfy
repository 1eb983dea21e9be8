/** The reference semantics: every instance has its own full copy of the program's pages, and no
    page is ever shared. */
module PrivateCopies {
  import opened Results
  import opened PageTables
  import opened Words
  import opened Spaces
  import opened AppRegions

  /** An instance with a memory of its own. */
  datatype Private = Private(image: imap<LinearAddress, Page>, task: Task)

  type Machine = map<nat, Private>

  datatype Op = Launch(files: seq<seq<Byte>>) | Exit | User(op: UserOp)

  datatype Outcome = Done | Word(w: PageMapEntry) | Address(vaddr: nat) | Refused(error: Error)

  const OUT_OF_MEMORY := Refused(NoEnoughMemory)

  /** What an access by a program does to its own memory, and what the program learns from it. */
  ghost function UserNext(p: Private, op: UserOp): (Private, Outcome) {
    match op
    case Read(a, i) =>
      var backing := BackingAt(p.task, a, WORD_BYTES * i);
      if !Upper(a) || (a !in p.image && backing.Unbacked?) then (p, Refused(IndexOutOfRange))
      else (p.(image := Touched(p.image, a, backing)), Word(Touched(p.image, a, backing)[a][i]))
    case Write(a, i, w) =>
      var backing := BackingAt(p.task, a, WORD_BYTES * i);
      if !Upper(a) || (a !in p.image && backing.Unbacked?) then (p, Refused(IndexOutOfRange))
      else (p.(image := Stored(Touched(p.image, a, backing), a, i, w)), Done)
    case Demand(pages) =>
      (p.(task := p.task.(dpagingEnd := p.task.dpagingEnd + PAGE_BYTES * pages)), Address(p.task.dpagingEnd))
    case Map(fd) =>
      if !(0 <= fd < |p.task.files|) || |p.task.files[fd]| > p.task.fileMapEnd then (p, Refused(NoSuchEntry))
      else
        var begin := PageFloor(p.task.fileMapEnd - |p.task.files[fd]|);
        (p.(task := p.task.(fileMapEnd := begin,
                            fileMaps := p.task.fileMaps + [FileMapping(fd, begin, p.task.fileMapEnd)])), Address(begin))
  }

  /** What becomes of a program that did all this, where the steps without memory for them did nothing. */
  ghost function UserEnd(p: Private, ops: seq<UserOp>, outs: seq<Outcome>): Private
    requires |outs| == |ops|
  {
    if ops == [] then p
    else
      var n := |ops| - 1;
      var q := UserEnd(p, ops[..n], outs[..n]);
      if outs[n] == OUT_OF_MEMORY then q else UserNext(q, ops[n]).0
  }

  /** Everything the program learned is what it would have learned alone. */
  ghost predicate UserRun(p: Private, ops: seq<UserOp>, outs: seq<Outcome>) {
    && |outs| == |ops|
    && forall n :: 0 <= n < |ops| ==>
         outs[n] == OUT_OF_MEMORY || outs[n] == UserNext(UserEnd(p, ops[..n], outs[..n]), ops[n]).1
  }

  lemma NothingDone(p: Private)
    ensures UserRun(p, [], []) && UserEnd(p, [], []) == p
  {
  }

  lemma OneMoreDone(p: Private, ops: seq<UserOp>, outs: seq<Outcome>, op: UserOp, out: Outcome)
    requires UserRun(p, ops, outs)
    requires out == OUT_OF_MEMORY || out == UserNext(UserEnd(p, ops, outs), op).1
    ensures UserRun(p, ops + [op], outs + [out])
    ensures UserEnd(p, ops + [op], outs + [out]) ==
            if out == OUT_OF_MEMORY then UserEnd(p, ops, outs) else UserNext(UserEnd(p, ops, outs), op).0
  {
    hide UserNext;
    var ops', outs' := ops + [op], outs + [out];
    assert ops'[..|ops|] == ops && outs'[..|ops|] == outs;
    forall n | 0 <= n < |ops'|
      ensures outs'[n] == OUT_OF_MEMORY || outs'[n] == UserNext(UserEnd(p, ops'[..n], outs'[..n]), ops'[n]).1
    {
      if n < |ops| {
        assert ops'[..n] == ops[..n] && outs'[..n] == outs[..n];
      }
    }
  }

  /** Only an exit gives frames back. */
  ghost predicate MemoryStep(op: Op, out: Outcome, used0: set<nat>, used1: set<nat>) {
    && (if op.Exit? then used1 <= used0 && out != OUT_OF_MEMORY else used0 <= used1)
    && (out.Refused? && out != OUT_OF_MEMORY && !op.User? ==> used1 == used0)
  }

  /** One step of instance k. */
  ghost function Next(program: imap<LinearAddress, Page>, programEnd: nat, s: Machine, k: nat, op: Op): (Machine, Outcome) {
    match op
    case Launch(files) =>
      if k in s then (s, Refused(AlreadyAllocated))
      else (s[k := Private(StartImage(program), StartTask(0, programEnd, files))], Done)
    case Exit => if k in s then (s - {k}, Done) else (s, Refused(NoSuchTask))
    case User(userOp) =>
      if k !in s then (s, Refused(NoSuchTask))
      else var (p, out) := UserNext(s[k], userOp); (s[k := p], out)
  }

  /** What a step does to the instances: a launch adds one, an exit takes it away, and what a program does
      concerns itself alone. */
  lemma NextIs(program: imap<LinearAddress, Page>, programEnd: nat, s: Machine, k: nat, op: Op)
    ensures var (t, out) := Next(program, programEnd, s, k, op);
      && (forall j :: j in s && j != k ==> j in t && t[j] == s[j]) && (forall j :: j in t && j != k ==> j in s)
      && (op.Launch? && k !in s ==> out == Done && k in t && t[k].image == StartImage(program))
      && (op.Exit? && k in s ==> out == Done && k !in t)
      && (op.User? && k in s ==> k in t && (t[k], out) == UserNext(s[k], op.op))
      && ((k in s <==> op.Launch?) ==> out.Refused? && t == s)
  {
  }

  /** What a program that runs alone sees: a read finds what the last write left, and a write changes one word. */
  lemma UserNextIs(p: Private, a: LinearAddress, i: Index, w: PageMapEntry)
    requires Upper(a) && a in p.image
    ensures UserNext(p, Read(a, i)) == (p, Word(p.image[a][i]))
    ensures var (q, out) := UserNext(p, Write(a, i, w));
      && out == Done && q.task == p.task && UserNext(q, Read(a, i)).1 == Word(w)
      && forall b, j: Index :: Upper(b) && b in p.image && (b != a || j != i) ==>
           UserNext(q, Read(b, j)).1 == Word(p.image[b][j])
  {
  }

  /** A page that was demanded reads as zeros at first; one that was neither demanded nor mapped cannot be read. */
  lemma FirstRead(p: Private, a: LinearAddress, i: Index)
    requires Upper(a) && a !in p.image
    ensures var (q, out) := UserNext(p, Read(a, i));
      if p.task.dpagingBegin <= Vaddr(a, WORD_BYTES * i) < p.task.dpagingEnd then
        out == Word(ZERO) && q == p.(image := p.image[a := seq(ENTRIES, _ => ZERO)])
      else
        (forall m :: m in p.task.fileMaps ==> !(m.vaddrBegin <= Vaddr(a, WORD_BYTES * i) < m.vaddrEnd)) ==>
          out == Refused(IndexOutOfRange) && q == p
  {
    MappingFound(p.task.fileMaps, Vaddr(a, WORD_BYTES * i));
  }

  /** The outcomes of a run, and the state it leaves, are those of private copies; a step for which
      there was no memory changed nothing. */
  ghost predicate PrivateRun(program: imap<LinearAddress, Page>, programEnd: nat,
                             s: Machine, ops: seq<(nat, Op)>, outs: seq<Outcome>, s': Machine)
    decreases |ops|
  {
    && |outs| == |ops|
    && if ops == [] then s' == s
       else if outs[0] == OUT_OF_MEMORY then PrivateRun(program, programEnd, s, ops[1..], outs[1..], s')
       else
         var (t, out) := Next(program, programEnd, s, ops[0].0, ops[0].1);
         outs[0] == out && PrivateRun(program, programEnd, t, ops[1..], outs[1..], s')
  }

  /** The private view of a set of instances. */
  ghost function AsPrivate(instances: map<nat, Instance>, tasks: map<nat, Task>): Machine {
    map k | k in instances && k in tasks :: Private(instances[k].image, tasks[k].(cr3 := 0))
  }

  lemma AsPrivateUpdated(instances: map<nat, Instance>, tasks: map<nat, Task>, k: nat, i: Instance, t: Task)
    ensures AsPrivate(instances[k := i], tasks[k := t]) == AsPrivate(instances, tasks)[k := Private(i.image, t.(cr3 := 0))]
  {
  }

  lemma AsPrivateRemoved(instances: map<nat, Instance>, tasks: map<nat, Task>, k: nat)
    ensures AsPrivate(instances - {k}, tasks - {k}) == AsPrivate(instances, tasks) - {k}
  {
  }

  lemma StartTaskIgnoresTables(cr3: nat, programEnd: nat, files: seq<seq<Byte>>)
    ensures StartTask(cr3, programEnd, files).(cr3 := 0) == StartTask(0, programEnd, files)
  {
  }

  /** The regions, and so the backing of a page, do not depend on where the page tables are. */
  lemma BackingIgnoresTables(t: Task, a: LinearAddress, offset: nat)
    requires offset < PAGE_BYTES
    ensures BackingAt(t.(cr3 := 0), a, offset) == BackingAt(t, a, offset)
  {
  }
}
