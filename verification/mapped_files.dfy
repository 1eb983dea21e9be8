/** Memory-mapped files over a whole run of a program: what it reads from a mapping is the file. */
module MappedFiles {
  import opened Results
  import opened PageTables
  import opened Words
  import opened Spaces
  import opened AppRegions
  import opened PrivateCopies

  predicate Demanded(t: Task, vaddr: nat) {
    t.dpagingBegin <= vaddr < t.dpagingEnd
  }

  /** The page lies in mapping k. */
  ghost predicate InMapping(t: Task, k: nat, a: LinearAddress) {
    k < |t.fileMaps| && t.fileMaps[k].vaddrBegin <= Vaddr(a, 0) < t.fileMaps[k].vaddrEnd
  }

  /** The page of the file that belongs there. */
  function MappedPage(t: Task, k: nat, a: LinearAddress): Page
    requires k < |t.fileMaps|
  {
    var m := t.fileMaps[k];
    if m.fd < |t.files| && m.vaddrBegin <= Vaddr(a, 0) then FilePage(t.files[m.fd], Vaddr(a, 0) - m.vaddrBegin)
    else ZeroPage()
  }

  /** A page of a mapping that is touched for the first time is filled from the file, unless it lies in the
      demand-paged range, which is looked at first: then it is zeroed. */
  lemma MappedBacking(t: Task, k: nat, a: LinearAddress, offset: nat)
    requires TaskOk(t) && offset < PAGE_BYTES && InMapping(t, k, a)
    ensures t.fileMaps[k].fd < |t.files|
    ensures BackingAt(t, a, offset) ==
      if Demanded(t, Vaddr(a, offset)) then Zeros
      else FileBytes(t.files[t.fileMaps[k].fd], Vaddr(a, 0) - t.fileMaps[k].vaddrBegin)
  {
    hide Vaddr, MappingAt;
    BackingIsPageWide(t, a, offset);
    VaddrPage(a, offset);
    MappingPageWide(t.fileMaps, Vaddr(a, 0), offset);
    MappingFound(t.fileMaps, Vaddr(a, 0));
  }

  /** So a page is filled from a file exactly if it is in a mapping and not in the demand-paged range. */
  lemma FileBackedExactly(t: Task, a: LinearAddress, offset: nat)
    requires TaskOk(t) && offset < PAGE_BYTES
    ensures BackingAt(t, a, offset).FileBytes? <==> (exists k: nat :: InMapping(t, k, a)) && !Demanded(t, Vaddr(a, offset))
  {
    hide Vaddr, MappingAt;
    BackingIsPageWide(t, a, offset);
    MappingFound(t.fileMaps, Vaddr(a, 0));
    DemandPageWide(t, a, offset);
    if MappingAt(t.fileMaps, Vaddr(a, 0)).Some? {
      var k :| 0 <= k < |t.fileMaps| && t.fileMaps[k].vaddrBegin <= Vaddr(a, 0) < t.fileMaps[k].vaddrEnd;
      assert InMapping(t, k, a);
      MappedBacking(t, k, a, offset);
    }
  }

  /** Byte i of a mapping is byte i of the file, or zero after its end, exactly if it does not lie in the
      demand-paged range or is zero anyway. */
  lemma MappedFileByte(t: Task, k: nat, a: LinearAddress, offset: nat)
    requires TaskOk(t) && offset < PAGE_BYTES && InMapping(t, k, a)
    ensures t.fileMaps[k].fd < |t.files| && t.fileMaps[k].vaddrBegin <= Vaddr(a, offset)
    ensures var byte := FileByte(t.files[t.fileMaps[k].fd], Vaddr(a, offset) - t.fileMaps[k].vaddrBegin);
      PageByte(BackingAt(t, a, offset).Content(), offset) == byte <==> !Demanded(t, Vaddr(a, offset)) || byte == 0
  {
    hide Vaddr, MappingAt, FilePage, PageByte;
    MappedBacking(t, k, a, offset);
    VaddrPage(a, offset);
    ZeroPageByte(offset);
    FilePageByte(t.files[t.fileMaps[k].fd], Vaddr(a, 0) - t.fileMaps[k].vaddrBegin, offset);
  }

  /** The demand-paged range and the mappings are apart, and between them nothing is present yet. */
  ghost predicate Apart(p: Private) {
    var t := p.task;
    && TaskOk(t) && t.dpagingBegin <= t.dpagingEnd <= t.fileMapEnd
    && forall a :: Upper(a) && a in p.image ==> !(t.dpagingEnd <= Vaddr(a, 0) < t.fileMapEnd)
  }

  /** Moreover the pages of the mappings that are present and were not written hold what the files hold. */
  ghost predicate ShowsFiles(p: Private, written: set<LinearAddress>) {
    && Apart(p)
    && forall k: nat, a :: InMapping(p.task, k, a) && Upper(a) && a in p.image && a !in written ==>
         p.image[a] == MappedPage(p.task, k, a)
  }

  ghost function WrittenBy(op: UserOp): set<LinearAddress> {
    if op.Write? then {op.a} else {}
  }

  // ---------------------------------------------------------------- every step keeps it

  lemma TouchedKeeps(p: Private, a: LinearAddress, offset: nat, written: set<LinearAddress>)
    requires ShowsFiles(p, written) && Upper(a) && offset < PAGE_BYTES
    requires a in p.image || !BackingAt(p.task, a, offset).Unbacked?
    ensures ShowsFiles(p.(image := Touched(p.image, a, BackingAt(p.task, a, offset))), written)
  {
    hide Vaddr, MappingAt, FilePage, TaskOk;
    if a !in p.image {
      var t := p.task;
      NewPage(t, a, offset);
      forall k: nat | InMapping(t, k, a)
        ensures BackingAt(t, a, offset).Content() == MappedPage(t, k, a)
      {
        MappedBacking(t, k, a, offset);
        MappingAbove(t, k, a);
        VaddrPage(a, offset);
        DemandPageWide(t, a, offset);
      }
    }
  }

  lemma DemandPageWide(t: Task, a: LinearAddress, offset: nat)
    requires TaskOk(t) && offset < PAGE_BYTES
    ensures Demanded(t, Vaddr(a, offset)) <==> Demanded(t, Vaddr(a, 0))
  {
    hide Vaddr;
    VaddrPage(a, offset);
    BoundaryOf(t.dpagingBegin, Vaddr(a, 0), offset);
    BoundaryOf(t.dpagingEnd, Vaddr(a, 0), offset);
  }

  lemma MappingAbove(t: Task, k: nat, a: LinearAddress)
    requires TaskOk(t) && InMapping(t, k, a)
    ensures t.fileMapEnd <= t.fileMaps[k].vaddrBegin <= Vaddr(a, 0) && t.fileMaps[k].fd < |t.files|
  {
  }

  /** A page that becomes present is in one of the two ranges. */
  lemma NewPage(t: Task, a: LinearAddress, offset: nat)
    requires TaskOk(t) && offset < PAGE_BYTES && !BackingAt(t, a, offset).Unbacked?
    ensures Vaddr(a, 0) < t.dpagingEnd || t.fileMapEnd <= Vaddr(a, 0)
  {
    hide Vaddr, MappingAt;
    BackingIsPageWide(t, a, offset);
    VaddrPage(a, offset);
    MappingPageWide(t.fileMaps, Vaddr(a, 0), offset);
    MappingFound(t.fileMaps, Vaddr(a, 0));
    BoundaryOf(t.dpagingEnd, Vaddr(a, 0), offset);
  }

  /** Whatever the program does, its mapped files stay right, as long as the demand-paged range does not grow
      into the mappings. */
  lemma StepShowsFiles(p: Private, op: UserOp, written: set<LinearAddress>)
    requires ShowsFiles(p, written)
    requires UserNext(p, op).0.task.dpagingEnd <= UserNext(p, op).0.task.fileMapEnd
    ensures ShowsFiles(UserNext(p, op).0, written + WrittenBy(op))
  {
    hide Vaddr, BackingAt, FilePage;
    match op
    case Read(a, i) =>
      if UserNext(p, op).1 != Refused(IndexOutOfRange) {
        TouchedKeeps(p, a, WORD_BYTES * i, written);
      }
    case Write(a, i, w) =>
      if UserNext(p, op).1 != Refused(IndexOutOfRange) {
        TouchedKeeps(p, a, WORD_BYTES * i, written);
      }
    case Demand(pages) => DemandKeeps(p, pages, written);
    case Map(fd) =>
      if UserNext(p, op).1 != Refused(NoSuchEntry) {
        MapKeeps(p, fd, written);
      }
  }

  lemma DemandKeeps(p: Private, pages: nat, written: set<LinearAddress>)
    requires ShowsFiles(p, written) && p.task.dpagingEnd + PAGE_BYTES * pages <= p.task.fileMapEnd
    ensures ShowsFiles(UserNext(p, Demand(pages)).0, written)
  {
    hide Vaddr, FilePage;
    WholePages(p.task.dpagingEnd, pages);
    var t, t' := p.task, UserNext(p, Demand(pages)).0.task;
    assert forall k: nat, a :: InMapping(t', k, a) ==> InMapping(t, k, a) && MappedPage(t', k, a) == MappedPage(t, k, a);
  }

  lemma WholePages(v: nat, pages: nat)
    ensures (v + PAGE_BYTES * pages) % PAGE_BYTES == v % PAGE_BYTES
  {
  }

  /** A new mapping takes pages that are not present. */
  lemma MapKeeps(p: Private, fd: int, written: set<LinearAddress>)
    requires ShowsFiles(p, written) && 0 <= fd < |p.task.files| && |p.task.files[fd]| <= p.task.fileMapEnd
    requires p.task.dpagingEnd <= UserNext(p, Map(fd)).0.task.fileMapEnd
    ensures ShowsFiles(UserNext(p, Map(fd)).0, written)
  {
    hide Vaddr, FilePage, PageFloor, TaskOk;
    var t, t' := p.task, UserNext(p, Map(fd)).0.task;
    MappedIsOk(t, fd, t'.fileMapEnd);
    forall k: nat, a | InMapping(t', k, a) && Upper(a) && a in p.image && a !in written
      ensures k < |t.fileMaps| && p.image[a] == MappedPage(t', k, a)
    {
      MappingAbove(t', k, a);
      assert k < |t.fileMaps| ==> InMapping(t, k, a);
    }
  }

  // ---------------------------------------------------------------- over a run

  ghost function Written(ops: seq<UserOp>): set<LinearAddress> {
    if ops == [] then {} else Written(ops[..|ops| - 1]) + WrittenBy(ops[|ops| - 1])
  }

  /** The two ranges only grow towards each other. */
  lemma RangesGrow(p: Private, op: UserOp)
    ensures p.task.dpagingEnd <= UserNext(p, op).0.task.dpagingEnd
    ensures UserNext(p, op).0.task.fileMapEnd <= p.task.fileMapEnd
  {
    hide BackingAt, Touched, Stored;
  }

  /** Over any run: if in the end the demand-paged range has not reached the mappings, the mapped pages that
      the program did not write hold what the files hold. */
  lemma {:induction false} RunShowsFiles(p: Private, ops: seq<UserOp>, outs: seq<Outcome>)
    requires |outs| == |ops| && ShowsFiles(p, {})
    requires UserEnd(p, ops, outs).task.dpagingEnd <= UserEnd(p, ops, outs).task.fileMapEnd
    ensures ShowsFiles(UserEnd(p, ops, outs), Written(ops))
    decreases |ops|
  {
    hide ShowsFiles, UserNext;
    if ops != [] {
      var n := |ops| - 1;
      var q := UserEnd(p, ops[..n], outs[..n]);
      RangesGrow(q, ops[n]);
      RunShowsFiles(p, ops[..n], outs[..n]);
      if outs[n] == OUT_OF_MEMORY {
        ShowsLess(q, Written(ops[..n]), Written(ops));
      } else {
        StepShowsFiles(q, ops[n], Written(ops[..n]));
      }
    }
  }

  lemma ShowsLess(p: Private, written: set<LinearAddress>, more: set<LinearAddress>)
    requires ShowsFiles(p, written) && written <= more
    ensures ShowsFiles(p, more)
  {
  }

  /** A freshly launched instance, whose program lies below the end that was recorded for it. */
  lemma StartShowsFiles(program: imap<LinearAddress, Page>, programEnd: nat, files: seq<seq<Byte>>)
    requires PageCeil(programEnd) <= Vaddr(STACK_ADDRESS, 0)
    requires forall a :: a in program ==> Vaddr(a, 0) < programEnd
    ensures ShowsFiles(Private(StartImage(program), StartTask(0, programEnd, files)), {})
  {
    StartTaskOk(0, programEnd, files);
    FloorIs(programEnd + PAGE_BYTES - 1);
  }

  /** What a launched program reads from a mapping that it has not written to there is the file: word i of a
      page holds the file's bytes at that place, and zeros after its end. */
  lemma MappedFileRead(program: imap<LinearAddress, Page>, programEnd: nat, files: seq<seq<Byte>>,
                       ops: seq<UserOp>, outs: seq<Outcome>, n: nat, k: nat)
    requires PageCeil(programEnd) <= Vaddr(STACK_ADDRESS, 0)
    requires forall a :: a in program ==> Vaddr(a, 0) < programEnd
    requires UserRun(Private(StartImage(program), StartTask(0, programEnd, files)), ops, outs)
    requires n < |ops| && ops[n].Read? && outs[n] != OUT_OF_MEMORY
    requires var p := UserEnd(Private(StartImage(program), StartTask(0, programEnd, files)), ops[..n], outs[..n]);
      p.task.dpagingEnd <= p.task.fileMapEnd && InMapping(p.task, k, ops[n].a)
    requires Upper(ops[n].a) && ops[n].a !in Written(ops[..n])
    ensures var p := UserEnd(Private(StartImage(program), StartTask(0, programEnd, files)), ops[..n], outs[..n]);
      outs[n] == Word(MappedPage(p.task, k, ops[n].a)[ops[n].i])
  {
    hide StartImage, StartTask, FilePage, Vaddr, PageCeil, UserEnd, ShowsFiles, UserNext;
    var start := Private(StartImage(program), StartTask(0, programEnd, files));
    StartShowsFiles(program, programEnd, files);
    RunShowsFiles(start, ops[..n], outs[..n]);
    var p := UserEnd(start, ops[..n], outs[..n]);
    OutcomeIs(start, ops, outs, n);
    FileIsRead(p, Written(ops[..n]), k, ops[n].a, ops[n].i);
  }

  lemma OutcomeIs(p: Private, ops: seq<UserOp>, outs: seq<Outcome>, n: nat)
    requires UserRun(p, ops, outs) && n < |ops| && outs[n] != OUT_OF_MEMORY
    ensures outs[n] == UserNext(UserEnd(p, ops[..n], outs[..n]), ops[n]).1
  {
  }

  lemma FileIsRead(p: Private, written: set<LinearAddress>, k: nat, a: LinearAddress, i: Index)
    requires ShowsFiles(p, written) && InMapping(p.task, k, a) && Upper(a) && a !in written
    ensures UserNext(p, Read(a, i)).1 == Word(MappedPage(p.task, k, a)[i])
  {
    hide Vaddr, FilePage, MappingAt;
    MappingAbove(p.task, k, a);
    MappedBacking(p.task, k, a, WORD_BYTES * i);
    DemandPageWide(p.task, a, WORD_BYTES * i);
  }

  /** Byte i of a mapping is byte i of the file, or zero after its end. */
  lemma MappedPageByte(t: Task, k: nat, a: LinearAddress, offset: nat)
    requires TaskOk(t) && InMapping(t, k, a) && offset < PAGE_BYTES
    ensures t.fileMaps[k].fd < |t.files|
    ensures PageByte(MappedPage(t, k, a), offset)
            == FileByte(t.files[t.fileMaps[k].fd], Vaddr(a, offset) - t.fileMaps[k].vaddrBegin)
  {
    hide Vaddr, FilePage;
    VaddrPage(a, offset);
    MappingAbove(t, k, a);
    FilePageByte(t.files[t.fileMaps[k].fd], Vaddr(a, 0) - t.fileMaps[k].vaddrBegin, offset);
  }

  // ---------------------------------------------------------------- when the ranges meet

  /** The input for which a mapping does not show its file: the program demands all pages up to its stack and
      then maps a file of one byte. The page of the mapping lies in the demand-paged range and reads as zeros. */
  lemma HiddenMapping(b: Byte, pages: nat)
    requires b != 0 && PAGE_BYTES * pages == Vaddr(STACK_ADDRESS, 0) - Vaddr(USER_START, 0)
    ensures var a := STACK_ADDRESS.(page := STACK_ADDRESS.page - 1);
      var p := UserNext(UserNext(Private(StartImage(imap[]), StartTask(0, Vaddr(USER_START, 0), [[b]])), Demand(pages)).0, Map(0)).0;
      && InMapping(p.task, 0, a) && p.task.fileMaps[0].fd == 0
      && UserNext(p, Read(a, 0)).1 == Word(ZERO)
      && PageByte(MappedPage(p.task, 0, a), 0) == b
  {
    hide StartImage, FilePage;
    var a := STACK_ADDRESS.(page := STACK_ADDRESS.page - 1);
    var high := Vaddr(STACK_ADDRESS, 0);
    NotInStart(a);
    HiddenStart(b, pages);
    var t := Task(0, Vaddr(USER_START, 0), high, high - PAGE_BYTES, [FileMapping(0, high - PAGE_BYTES, high)], [[b]]);
    assert BackingAt(t, a, 0) == Zeros;
    FilePageByte([b], 0, 0);
  }

  lemma HiddenStart(b: Byte, pages: nat)
    requires PAGE_BYTES * pages == Vaddr(STACK_ADDRESS, 0) - Vaddr(USER_START, 0)
    ensures var low, high := Vaddr(USER_START, 0), Vaddr(STACK_ADDRESS, 0);
      UserNext(UserNext(Private(StartImage(imap[]), StartTask(0, low, [[b]])), Demand(pages)).0, Map(0)).0
      == Private(StartImage(imap[]), Task(0, low, high, high - PAGE_BYTES, [FileMapping(0, high - PAGE_BYTES, high)], [[b]]))
  {
    hide StartImage, FilePage, Touched, Stored, BackingAt;
    var low, high := Vaddr(USER_START, 0), Vaddr(STACK_ADDRESS, 0);
    assert PageCeil(low) == low && PageFloor(high - 1) == high - PAGE_BYTES;
  }

  lemma NotInStart(a: LinearAddress)
    requires a == STACK_ADDRESS.(page := STACK_ADDRESS.page - 1)
    ensures a !in StartImage(imap[]) && Upper(a)
  {
  }
}
