/** What an app instance's task records about its address space: the demand-paged range and the
    memory-mapped files. */
module AppRegions {
  import opened Results
  import opened PageTables
  import opened Words
  import opened Spaces

  const ARGS_ADDRESS := LinearAddress(511, 511, 511, 511)
  const STACK_PAGES: nat := 16
  const STACK_ADDRESS := LinearAddress(511, 511, 511, 495)
  const USER_START := LinearAddress(256, 0, 0, 0)

  /** The 64-bit address of a byte in a page of the upper half. */
  function Vaddr(a: LinearAddress, offset: nat): nat {
    0xffff_0000_0000_0000 + a.PageNumber(4) * PAGE_BYTES + offset
  }

  function PageFloor(v: nat): nat {
    v - v % PAGE_BYTES
  }

  datatype FileMapping = FileMapping(fd: nat, vaddrBegin: nat, vaddrEnd: nat)

  datatype Task = Task(cr3: nat, dpagingBegin: nat, dpagingEnd: nat, fileMapEnd: nat,
                       fileMaps: seq<FileMapping>, files: seq<seq<Byte>>)

  /** The first mapping that contains the address. */
  ghost function MappingAt(maps: seq<FileMapping>, vaddr: nat): Option<FileMapping> {
    if maps == [] then None
    else if maps[0].vaddrBegin <= vaddr < maps[0].vaddrEnd then Some(maps[0])
    else MappingAt(maps[1..], vaddr)
  }

  method FindFileMapping(maps: seq<FileMapping>, vaddr: nat) returns (r: Option<FileMapping>)
    ensures r == MappingAt(maps, vaddr)
  {
    for i := 0 to |maps|
      invariant MappingAt(maps, vaddr) == MappingAt(maps[i..], vaddr)
    {
      if maps[i].vaddrBegin <= vaddr < maps[i].vaddrEnd {
        return Some(maps[i]);
      }
    }
    return None;
  }

  // ---------------------------------------------------------------- regions of a task

  /** File mappings are page-aligned, pairwise disjoint, below the stack, and exactly as long as
      their file rounded up to whole pages. */
  ghost predicate TaskOk(t: Task) {
    && t.dpagingBegin % PAGE_BYTES == 0 && t.dpagingEnd % PAGE_BYTES == 0
    && t.fileMapEnd % PAGE_BYTES == 0 && t.fileMapEnd <= Vaddr(STACK_ADDRESS, 0)
    && (forall i :: 0 <= i < |t.fileMaps| ==>
          var m := t.fileMaps[i];
          && m.fd < |t.files|
          && m.vaddrBegin % PAGE_BYTES == 0 && m.vaddrEnd % PAGE_BYTES == 0
          && t.fileMapEnd <= m.vaddrBegin && m.vaddrEnd <= Vaddr(STACK_ADDRESS, 0)
          && |t.files[m.fd]| <= m.vaddrEnd - m.vaddrBegin < |t.files[m.fd]| + PAGE_BYTES)
    && (forall i, j :: 0 <= i < j < |t.fileMaps| ==> t.fileMaps[j].vaddrEnd <= t.fileMaps[i].vaddrBegin)
  }

  /** A new mapping takes whole pages just below the others. */
  lemma MappedIsOk(t: Task, fd: nat, begin: nat)
    requires TaskOk(t) && fd < |t.files| && |t.files[fd]| <= t.fileMapEnd
    requires begin == PageFloor(t.fileMapEnd - |t.files[fd]|)
    ensures begin % PAGE_BYTES == 0 && begin + |t.files[fd]| <= t.fileMapEnd < begin + |t.files[fd]| + PAGE_BYTES
    ensures TaskOk(t.(fileMapEnd := begin, fileMaps := t.fileMaps + [FileMapping(fd, begin, t.fileMapEnd)]))
  {
    hide PageFloor, Vaddr;
    FloorIs(t.fileMapEnd - |t.files[fd]|);
  }

  lemma FloorIs(v: nat)
    ensures PageFloor(v) % PAGE_BYTES == 0 && PageFloor(v) <= v < PageFloor(v) + PAGE_BYTES
  {
  }

  /** What a page that is not present yet is to hold when the task touches it. */
  datatype Backing = Zeros | FileBytes(file: seq<Byte>, offset: nat) | Unbacked {
    function Content(): Page {
      if FileBytes? then FilePage(file, offset) else ZeroPage()
    }
  }

  ghost function BackingAt(t: Task, a: LinearAddress, offset: nat): Backing
    requires offset < PAGE_BYTES
  {
    var vaddr := Vaddr(a, offset);
    if t.dpagingBegin <= vaddr < t.dpagingEnd then Zeros
    else
      var m := MappingAt(t.fileMaps, vaddr);
      if m.Some? && m.value.fd < |t.files| && m.value.vaddrBegin <= Vaddr(a, 0)
      then FileBytes(t.files[m.value.fd], Vaddr(a, 0) - m.value.vaddrBegin)
      else Unbacked
  }

  lemma {:induction false} MappingFound(maps: seq<FileMapping>, vaddr: nat)
    ensures MappingAt(maps, vaddr).Some? ==>
      exists i :: 0 <= i < |maps| && maps[i] == MappingAt(maps, vaddr).value && maps[i].vaddrBegin <= vaddr < maps[i].vaddrEnd
    ensures MappingAt(maps, vaddr).None? ==>
      forall i :: 0 <= i < |maps| ==> !(maps[i].vaddrBegin <= vaddr < maps[i].vaddrEnd)
  {
    if maps != [] && !(maps[0].vaddrBegin <= vaddr < maps[0].vaddrEnd) {
      MappingFound(maps[1..], vaddr);
    }
  }

  /** All bytes of a page are backed alike, and a file is only read below its size. */
  lemma BackingIsPageWide(t: Task, a: LinearAddress, offset: nat)
    requires TaskOk(t) && offset < PAGE_BYTES
    ensures BackingAt(t, a, offset) == BackingAt(t, a, 0)
    ensures BackingAt(t, a, offset).Unbacked? <==>
      !(t.dpagingBegin <= Vaddr(a, offset) < t.dpagingEnd) && MappingAt(t.fileMaps, Vaddr(a, offset)).None?
    ensures BackingAt(t, a, offset).FileBytes? ==>
      var m := MappingAt(t.fileMaps, Vaddr(a, offset)).value;
      m.fd < |t.files| && m.vaddrBegin <= Vaddr(a, 0) < m.vaddrBegin + |t.files[m.fd]|
  {
    hide Vaddr, MappingAt;
    VaddrPage(a, offset);
    var x := Vaddr(a, 0);
    BoundaryOf(t.dpagingBegin, x, offset);
    BoundaryOf(t.dpagingEnd, x, offset);
    MappingPageWide(t.fileMaps, x, offset);
    MappingFound(t.fileMaps, x);
    if MappingAt(t.fileMaps, x).Some? {
      var m := MappingAt(t.fileMaps, x).value;
      BoundaryOf(m.vaddrEnd, x, 0);
    }
  }

  /** A page boundary is above or below a whole page. */
  lemma BoundaryOf(v: nat, x: nat, offset: nat)
    requires v % PAGE_BYTES == 0 && x % PAGE_BYTES == 0 && offset < PAGE_BYTES
    ensures v <= x + offset <==> v <= x
    ensures x < v ==> x + PAGE_BYTES <= v
  {
  }

  lemma {:induction false} MappingPageWide(maps: seq<FileMapping>, x: nat, offset: nat)
    requires x % PAGE_BYTES == 0 && offset < PAGE_BYTES
    requires forall i :: 0 <= i < |maps| ==> maps[i].vaddrBegin % PAGE_BYTES == 0 && maps[i].vaddrEnd % PAGE_BYTES == 0
    ensures MappingAt(maps, x + offset) == MappingAt(maps, x)
  {
    if maps != [] {
      BoundaryOf(maps[0].vaddrBegin, x, offset);
      BoundaryOf(maps[0].vaddrEnd, x, offset);
      MappingPageWide(maps[1..], x, offset);
    }
  }

  lemma VaddrPage(a: LinearAddress, offset: nat)
    requires offset < PAGE_BYTES
    ensures Vaddr(a, 0) % PAGE_BYTES == 0 && Vaddr(a, offset) == Vaddr(a, 0) + offset
  {
  }

  /** An image after its page at a was touched, and after one word of that page was stored. */
  ghost function Touched(image: imap<LinearAddress, Page>, a: LinearAddress, backing: Backing): (r: imap<LinearAddress, Page>)
    ensures a in r
  {
    if a in image then image else image[a := backing.Content()]
  }

  ghost function Stored(image: imap<LinearAddress, Page>, a: LinearAddress, i: Index, w: PageMapEntry): imap<LinearAddress, Page>
    requires a in image
  {
    image[a := image[a][i := w]]
  }

  function PageCeil(v: nat): nat {
    PageFloor(v + PAGE_BYTES - 1)
  }

  function StartTask(cr3: nat, programEnd: nat, files: seq<seq<Byte>>): Task {
    Task(cr3, PageCeil(programEnd), PageCeil(programEnd), Vaddr(STACK_ADDRESS, 0), [], files)
  }

  lemma StartTaskOk(cr3: nat, programEnd: nat, files: seq<seq<Byte>>)
    ensures TaskOk(StartTask(cr3, programEnd, files))
    ensures StartTask(cr3, programEnd, files).cr3 == cr3
  {
  }

  /** What a freshly launched instance sees: the program, one page for the arguments, the stack. */
  ghost function StartImage(program: imap<LinearAddress, Page>): imap<LinearAddress, Page> {
    program + ZeroPages(ARGS_ADDRESS.PageNumber(4), 1) + ZeroPages(STACK_ADDRESS.PageNumber(4), STACK_PAGES)
  }

  /** The page of the arguments and the sixteen pages of the stack, the last ones there are. */
  predicate AtTop(a: LinearAddress) {
    a.pml4 == 511 && a.pdp == 511 && a.dir == 511 && 495 <= a.page
  }

  /** A program sees its own pages at its start, and zeros there. */
  lemma StartImageIs(program: imap<LinearAddress, Page>)
    requires forall a :: AtTop(a) ==> a !in program
    ensures var image := StartImage(program);
      && (forall a :: a in image <==> a in program || AtTop(a))
      && (forall a :: a in program ==> image[a] == program[a])
      && (forall a, i: Index :: AtTop(a) ==> image[a][i] == ZERO)
  {
    forall a: LinearAddress
      ensures AtTop(a) <==> Upper(a) && (InRange(a, 4, ARGS_ADDRESS.PageNumber(4), 1)
                                         || InRange(a, 4, STACK_ADDRESS.PageNumber(4), STACK_PAGES))
    {
      TopPage(a);
    }
  }

  lemma TopPage(a: LinearAddress)
    ensures AtTop(a) <==> STACK_ADDRESS.PageNumber(4) <= a.PageNumber(4)
  {
  }

  /** A program starts without demanded pages and mappings: demanded pages begin with the first page behind the
      program, mappings end below the stack. */
  lemma StartTaskIs(cr3: nat, programEnd: nat, files: seq<seq<Byte>>)
    ensures var t := StartTask(cr3, programEnd, files);
      && t.dpagingBegin == t.dpagingEnd && t.dpagingBegin % 4096 == 0
      && programEnd <= t.dpagingBegin < programEnd + 4096
      && t.fileMapEnd == 0xffff_ffff_fffe_f000 && t.fileMaps == [] && t.files == files && t.cr3 == cr3
  {
    FloorIs(programEnd + PAGE_BYTES - 1);
  }

  /** What a running program can do to its address space. */
  datatype UserOp =
    | Read(a: LinearAddress, i: Index)
    | Write(a: LinearAddress, i: Index, w: PageMapEntry)
    | Demand(pages: nat)
    | Map(fd: int)
}
