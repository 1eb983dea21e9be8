/** Loading a program for the first time: the page map that later instances are copied from. */
module AppLoading {
  import opened Results
  import opened PageTables
  import opened Words
  import opened Spaces
  import opened AppSpaces
  import Paging

  /** A loadable segment: the page its address lies in, the offset in that page, and its size in memory. */
  datatype Segment = Segment(start: LinearAddress, offset: nat, memorySize: nat) {
    /** The pages reserved for it, whatever the offset. */
    function Pages(): nat {
      (memorySize + PAGE_BYTES - 1) / PAGE_BYTES
    }

    ghost predicate Covers(a: LinearAddress) {
      Upper(a) && InRange(a, 4, start.PageNumber(4), Pages())
    }

    /** The page of byte i of the segment, counted from its first page. */
    function PageOf(i: nat): nat {
      (offset + i) / PAGE_BYTES
    }
  }

  /** All bytes of a segment lie in the pages reserved for it exactly if the offset and the size together do
      not need a page more than the size alone; so they do when it begins with a page. */
  lemma SegmentFits(s: Segment)
    ensures (forall i :: 0 <= i < s.memorySize ==> s.PageOf(i) < s.Pages()) <==>
            s.memorySize == 0 || s.offset + s.memorySize <= PAGE_BYTES * s.Pages()
    ensures s.memorySize <= PAGE_BYTES * s.Pages() < s.memorySize + PAGE_BYTES
  {
    if s.memorySize > 0 {
      assert s.PageOf(s.memorySize - 1) < s.Pages() <==> s.offset + s.memorySize <= PAGE_BYTES * s.Pages();
      assert forall i :: 0 <= i < s.memorySize ==> s.PageOf(i) <= s.PageOf(s.memorySize - 1);
    }
  }

  ghost predicate Covered(segments: seq<Segment>, n: nat, a: LinearAddress)
    requires n <= |segments|
  {
    exists i :: 0 <= i < n && segments[i].Covers(a)
  }

  /** Exactly the pages of the first n segments are mapped, all of them read-only. */
  ghost predicate Loaded(m: Memory, pml4: nat, segments: seq<Segment>, n: nat)
    requires n <= |segments|
  {
    forall a: LinearAddress :: Upper(a) ==>
      var e := Lookup(m, pml4, 4, a);
      (e.present <==> Covered(segments, n, a)) && (e.present ==> !e.writable)
  }

  lemma SegmentLoaded(m0: Memory, m1: Memory, used0: set<nat>, pml4: nat, segments: seq<Segment>, n: nat, next: nat)
    requires n < next == n + 1 <= |segments|
    requires Loaded(m0, pml4, segments, n)
    requires RangeMapped(m0, m1, used0, pml4, 4, USER_PML4, segments[n].start.PageNumber(4), segments[n].Pages(), false)
    ensures Loaded(m1, pml4, segments, next)
  {
    hide Lookup;
    forall a: LinearAddress | Upper(a)
      ensures Covered(segments, next, a) <==> Covered(segments, n, a) || segments[n].Covers(a)
    {
      if segments[n].Covers(a) {
        assert Covered(segments, next, a);
      }
    }
    forall a: LinearAddress | Upper(a)
      ensures var e := Lookup(m1, pml4, 4, a);
        (e.present <==> Covered(segments, next, a)) && (e.present ==> !e.writable)
    {
      assert segments[n].Covers(a) <==> InRange(a, 4, segments[n].start.PageNumber(4), segments[n].Pages());
    }
  }

  /** A page map that maps the segments read-only and owns every frame it reaches. */
  method LoadElf(memory: Paging.PhysicalMemory, kernelPml4: nat, segments: seq<Segment>)
    returns (pml4: nat, error: Option<Error>)
    requires memory.Valid() && kernelPml4 in memory.Used()
    requires forall i :: 0 <= i < |segments| ==>
      Upper(segments[i].start) && segments[i].start.PageNumber(4) + segments[i].Pages() <= PagesBelow(4)
    modifies memory`frames, memory.manager.allocMap
    ensures memory.Valid() && SameOn(old(memory.frames), memory.frames, old(memory.Used()))
    ensures error.Some? ==> error.value == NoEnoughMemory && memory.Full()
    ensures error.None? ==> Template(memory.frames, pml4, memory.Used())
    ensures error.None? ==> Loaded(memory.frames, pml4, segments, |segments|)
    ensures error.None? ==>
      memory.Used() == old(memory.Used()) + {pml4} + Frames(memory.frames, pml4, 4, USER_PML4, AllLeaves)
  {
    hide Tree, Frames, Lookup, RangeMapped, Loaded, Paging.PhysicalMemory.Used, Paging.PhysicalMemory.Full;
    ghost var m0, used0 := memory.frames, memory.Used();
    var table := memory.NewPageMap();
    if table.Err? {
      return 0, Some(table.error);
    }
    pml4, error := table.value, None;
    memory.frames := memory.frames[pml4 := KernelHalf(Get(memory.frames, kernelPml4))];
    EmptyTable(memory.frames, pml4, 4, USER_PML4, AllLeaves);
    NothingLoaded(memory.frames, pml4, segments);
    for i := 0 to |segments|
      invariant error.None? && memory.Valid()
      invariant memory.Holds(pml4, 4, USER_PML4, AllLeaves)
      invariant SameOn(m0, memory.frames, used0)
      invariant Loaded(memory.frames, pml4, segments, i)
      invariant pml4 !in used0 && Frames(memory.frames, pml4, 4, USER_PML4, AllLeaves) !! used0
      invariant memory.Used() == used0 + {pml4} + Frames(memory.frames, pml4, 4, USER_PML4, AllLeaves)
    {
      ghost var m1, used1 := memory.frames, memory.Used();
      LeavesOrder(m1, pml4, 4, USER_PML4);
      var remain;
      ghost var mapped;
      remain, error, mapped := memory.SetupPageMap(pml4, 4, segments[i].start, segments[i].Pages(), false, USER_PML4, AllLeaves);
      if error.Some? {
        return;
      }
      SegmentLoaded(m1, memory.frames, used1, pml4, segments, i, i + 1);
    }
  }

  lemma NothingLoaded(m: Memory, pml4: nat, segments: seq<Segment>)
    requires forall a: LinearAddress :: a.Part(4) >= USER_PML4 ==> Lookup(m, pml4, 4, a) == ZERO
    ensures Loaded(m, pml4, segments, 0)
  {
  }
}
