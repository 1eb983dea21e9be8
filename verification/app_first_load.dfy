/** A program that is not loaded yet: loading it, and running it then. */
module AppFirstLoad {
  import opened Results
  import opened PageTables
  import opened Words
  import opened Spaces
  import opened AppRegions
  import opened PrivateCopies
  import opened AppLoading
  import opened AppLifetime
  import Paging

  /** No segment reaches into the stack and the page of the arguments. */
  ghost predicate BelowStack(segments: seq<Segment>) {
    forall i :: 0 <= i < |segments| ==>
      segments[i].start.PageNumber(4) + segments[i].Pages() <= STACK_ADDRESS.PageNumber(4)
  }

  lemma StackIsFree(m: Memory, pml4: nat, segments: seq<Segment>)
    requires BelowStack(segments) && Loaded(m, pml4, segments, |segments|)
    ensures Unmapped(m, pml4, STACK_ADDRESS.PageNumber(4), STACK_PAGES + 1)
  {
    hide Lookup;
    forall a: LinearAddress | Upper(a) && InRange(a, 4, STACK_ADDRESS.PageNumber(4), STACK_PAGES + 1)
      ensures a !in View(m, pml4)
    {
      assert forall i :: 0 <= i < |segments| ==> !segments[i].Covers(a);
      assert !Covered(segments, |segments|, a);
    }
  }

  /** Loads the program, and then runs it once. Of the frames it takes only those of the loaded program stay
      allocated, and the run is that of a private copy. */
  method LoadAndExecute(memory: Paging.PhysicalMemory, kernelPml4: nat, segments: seq<Segment>, programEnd: nat,
                        files: seq<seq<Byte>>, ops: seq<UserOp>)
    returns (error: Option<Error>, outs: seq<Outcome>, ghost pml4: nat)
    requires memory.Valid() && kernelPml4 in memory.Used() && BelowStack(segments)
    requires forall i :: 0 <= i < |segments| ==>
      Upper(segments[i].start) && segments[i].start.PageNumber(4) + segments[i].Pages() <= PagesBelow(4)
    modifies memory`frames, memory.manager.allocMap
    ensures memory.Valid()
    ensures error.Some? ==> error.value == NoEnoughMemory && memory.Full()
    ensures error.None? ==> Loaded(memory.frames, pml4, segments, |segments|)
    ensures error.None? ==>
      memory.Used() == old(memory.Used()) + {pml4} + Frames(memory.frames, pml4, 4, USER_PML4, AllLeaves)
    ensures error.None? ==>
      UserRun(Private(StartImage(View(memory.frames, pml4)), StartTask(0, programEnd, files)), ops, outs)
  {
    hide Tree, Frames, Lookup, View, Loaded, BelowStack, UserRun, StartImage, StartTask, Kernel.Inv, Covered,
      Paging.PhysicalMemory.Used, Paging.PhysicalMemory.Full;
    outs := [];
    var program;
    program, error := LoadElf(memory, kernelPml4, segments);
    pml4 := program;
    if error.Some? {
      return;
    }
    ghost var loaded := memory.frames;
    StackIsFree(loaded, pml4, segments);
    var kernel := new Kernel(memory, kernelPml4, program, programEnd);
    ghost var held := kernel.held;
    error, outs := kernel.ExecuteFile(0, files, ops);
    ProgramKept(loaded, memory.frames, pml4, held, segments);
  }

  lemma ProgramKept(m0: Memory, m1: Memory, pml4: nat, base: set<nat>, segments: seq<Segment>)
    requires Template(m0, pml4, base) && SameOn(m0, m1, base)
    ensures Frames(m1, pml4, 4, USER_PML4, AllLeaves) == Frames(m0, pml4, 4, USER_PML4, AllLeaves)
    ensures View(m1, pml4) == View(m0, pml4)
    ensures Loaded(m0, pml4, segments, |segments|) ==> Loaded(m1, pml4, segments, |segments|)
  {
    hide Tree, Frames, Lookup, Covered;
    TemplateKept(m0, m1, pml4, base);
    LeavesOrder(m0, pml4, 4, USER_PML4);
    TreeFrame(m0, m1, pml4, 4, USER_PML4, AllLeaves);
  }
}
