/** Loading, running and ending app instances that share one loaded program: page faults, memory
    mapped files, and what becomes of the frames. */
module AppLifetime {
  import opened Results
  import opened PageTables
  import opened Words
  import opened Spaces
  import opened AppRegions
  import opened AppSpaces
  import opened PrivateCopies
  import Paging

  class Kernel {
    const memory: Paging.PhysicalMemory
    const kernelPml4: nat
    const template: nat          // the page map that app_loads keeps for the program
    const programEnd: nat        // one past the program's last address
    var tasks: map<nat, Task>    // the running instances
    ghost var held: set<nat>     // frames no instance owns: the kernel's, the program's, those lost by failed launches

    constructor (memory: Paging.PhysicalMemory, kernelPml4: nat, template: nat, programEnd: nat)
      requires memory.Valid() && kernelPml4 in memory.Used()
      requires Template(memory.frames, template, memory.Used())
      requires Unmapped(memory.frames, template, STACK_ADDRESS.PageNumber(4), STACK_PAGES + 1)
      ensures this.memory == memory && this.template == template && this.programEnd == programEnd
      ensures tasks == map[] && held == memory.Used() && Inv()
    {
      this.memory := memory;
      this.kernelPml4 := kernelPml4;
      this.template := template;
      this.programEnd := programEnd;
      tasks := map[];
      held := memory.Used();
    }

    ghost function Roots(): map<nat, nat>
      reads this
    {
      map k | k in tasks :: tasks[k].cr3
    }

    ghost predicate Inv()
      reads this, memory, memory.manager, memory.manager.allocMap
    {
      && memory.Valid()
      && kernelPml4 in held
      && Separate(memory.frames, held, template, Roots())
      && memory.Used() == held + Owned(memory.frames, Roots())
      && Unmapped(memory.frames, template, STACK_ADDRESS.PageNumber(4), STACK_PAGES + 1)
      && forall k :: k in tasks ==> TaskOk(tasks[k])
    }

    /** The pages of the loaded program. */
    ghost function Program(): imap<LinearAddress, Page>
      reads this, memory
    {
      View(memory.frames, template)
    }

    /** What every instance sees and which frames it owns. */
    ghost function Instances(): map<nat, Instance>
      reads this, memory
    {
      InstancesOf(memory.frames, Roots())
    }

    ghost function Image(k: nat): imap<LinearAddress, Page>
      requires k in tasks
      reads this, memory
    {
      View(memory.frames, tasks[k].cr3)
    }

    /** Since the old state, only instance k may see a difference; the program's frames, and all
        others that no instance owns, still hold what they held. */
    twostate predicate OnlyImageOf(k: nat)
      requires k in tasks
      reads this, memory
    {
      && tasks == old(tasks) && held == old(held)
      && SameOn(old(memory.frames), memory.frames, held) && Program() == old(Program())
      && Instances() == old(Instances())[k := InstanceAt(memory.frames, tasks[k].cr3)]
    }

    method SetupPageMaps(root: nat, addr: LinearAddress, n: nat)
      returns (error: Option<Error>, ghost mapped: nat)
      requires memory.Valid() && Upper(addr)
      requires Space(memory.frames, root, template) && Template(memory.frames, template, held)
      requires Footprint(memory.frames, root) !! held && held + Footprint(memory.frames, root) <= memory.Used()
      requires addr.PageNumber(4) + n <= PagesBelow(4)
      requires Unmapped(memory.frames, root, addr.PageNumber(4), n)
      modifies memory`frames, memory.manager.allocMap
      ensures memory.Valid() && old(memory.Used()) <= memory.Used()
      ensures SpaceStep(old(memory.frames), memory.frames, old(memory.Used()), memory.Used(), root, template)
      ensures View(memory.frames, root) == View(old(memory.frames), root) + ZeroPages(addr.PageNumber(4), mapped)
      ensures forall a: LinearAddress :: Upper(a) && InRange(a, 4, addr.PageNumber(4), mapped) ==>
        Lookup(memory.frames, root, 4, a).present && Lookup(memory.frames, root, 4, a).writable
      ensures error.None? ==> mapped == n
      ensures error.Some? ==> error.value == NoEnoughMemory && memory.Full() && mapped < n
    {
      hide Tree, Frames, Lookup, View, Extended, RangeMapped, Permits, SpaceStep, Footprint;
      ghost var m0, used0 := memory.frames, memory.Used();
      SpaceFrames(m0, root, template, held);
      UnmappedPermits(m0, root, addr.PageNumber(4), n);
      assert root in Footprint(m0, root) by { RootInFootprint(m0, root); }
      var remain;
      remain, error, mapped := memory.SetupPageMap(root, 4, addr, n, true, USER_PML4, WritableLeaves);
      UnmappedPrefix(m0, root, addr.PageNumber(4), mapped, n);
      MapStep(m0, memory.frames, used0, memory.Used(), root, template, held, addr.PageNumber(4), mapped);
    }

    /** A store through a writable mapping of the running instance. */
    method StorePage(k: nat, a: LinearAddress, page: Page)
      requires Inv() && k in tasks && Upper(a)
      requires Lookup(memory.frames, tasks[k].cr3, 4, a).present && Lookup(memory.frames, tasks[k].cr3, 4, a).writable
      modifies memory`frames
      ensures Inv() && OnlyImageOf(k) && old(memory.Used()) <= memory.Used()
      ensures Image(k) == old(Image(k))[a := page]
      ensures Lookup(memory.frames, tasks[k].cr3, 4, a) == Lookup(old(memory.frames), tasks[k].cr3, 4, a)
    {
      hide Tree, Frames, Lookup, View, SpaceStep, Footprint, Separate;
      ghost var m0, used, root := memory.frames, memory.Used(), tasks[k].cr3;
      SeparateAt(m0, held, template, Roots(), k);
      StoreStep(m0, used, root, template, held, a, page);
      memory.frames := memory.frames[Lookup(memory.frames, tasks[k].cr3, 4, a).addr := page];
      StepKeepsSeparate(m0, memory.frames, used, used, held, template, Roots(), k);
    }

    method PreparePageCache(k: nat, m: FileMapping, a: LinearAddress) returns (error: Option<Error>)
      requires Inv() && k in tasks && Upper(a) && a !in Image(k)
      requires m.fd < |tasks[k].files| && m.vaddrBegin <= Vaddr(a, 0) < m.vaddrBegin + |tasks[k].files[m.fd]|
      modifies memory`frames, memory.manager.allocMap
      ensures Inv() && OnlyImageOf(k) && old(memory.Used()) <= memory.Used()
      ensures error.Some? ==> error.value == NoEnoughMemory && memory.Full() && Image(k) == old(Image(k))
      ensures error.None? ==>
        Image(k) == old(Image(k))[a := FilePage(tasks[k].files[m.fd], Vaddr(a, 0) - m.vaddrBegin)]
      ensures error.None? ==> var e := Lookup(memory.frames, tasks[k].cr3, 4, a); e.present && e.writable
    {
      hide View, InstancesOf, InstanceAt, Footprint, Separate, Owned, Lookup, FilePage, Unmapped,
        Paging.PhysicalMemory.Used, Paging.PhysicalMemory.Full;
      error := DemandPage(k, a);
      if error.None? {
        var fileOffset := Vaddr(a, 0) - m.vaddrBegin;
        StorePage(k, a, FilePage(tasks[k].files[m.fd], fileOffset));  // fd.Load(page_cache, 4096, file_offset)
      }
    }

    /** Maps the absent page at a. */
    method DemandPage(k: nat, a: LinearAddress) returns (error: Option<Error>)
      requires Inv() && k in tasks && Upper(a) && a !in Image(k)
      modifies memory`frames, memory.manager.allocMap
      ensures Inv() && OnlyImageOf(k) && old(memory.Used()) <= memory.Used()
      ensures error.Some? ==> error.value == NoEnoughMemory && memory.Full() && Image(k) == old(Image(k))
      ensures error.None? ==> Image(k) == old(Image(k))[a := ZeroPage()]
      ensures error.None? ==> var e := Lookup(memory.frames, tasks[k].cr3, 4, a); e.present && e.writable
    {
      hide Tree, Frames, View, SpaceStep, Footprint, Separate, Owned, InstancesOf, InstanceAt, TaskOk,
        Paging.PhysicalMemory.Used, Paging.PhysicalMemory.Full;
      ghost var m0, used0 := memory.frames, memory.Used();
      SeparateAt(m0, held, template, Roots(), k);
      OnePage(a);
      PageNumberBounds(a, 4);
      ghost var mapped;
      error, mapped := SetupPageMaps(tasks[k].cr3, a, 1);
      assert InRange(a, 4, a.PageNumber(4), 1);
      assert error.Some? ==> ZeroPages(a.PageNumber(4), mapped) == imap[];
      StepKeepsSeparate(m0, memory.frames, used0, memory.Used(), held, template, Roots(), k);
    }

    /** Decides what to do about a page fault of the running instance. */
    method HandlePageFault(k: nat, present: bool, rw: bool, user: bool, a: LinearAddress, offset: nat)
      returns (error: Option<Error>)
      requires Inv() && k in tasks && Upper(a) && offset < PAGE_BYTES
      requires present == (a in Image(k))
      requires present && rw && user ==> !Lookup(memory.frames, tasks[k].cr3, 4, a).writable
      modifies memory`frames, memory.manager.allocMap
      ensures Inv() && OnlyImageOf(k) && old(memory.Used()) <= memory.Used()
      ensures error.Some? || present ==> Image(k) == old(Image(k))
      ensures error.None? && !present ==> Image(k) == old(Image(k))[a := BackingAt(tasks[k], a, offset).Content()]
      ensures error.None? ==> var e := Lookup(memory.frames, tasks[k].cr3, 4, a); e.present && e.writable
      ensures error == Some(AlreadyAllocated) <==> present && !(rw && user)
      ensures error == Some(IndexOutOfRange) <==> !present && BackingAt(tasks[k], a, offset).Unbacked?
      ensures error.Some? ==> error.value in {AlreadyAllocated, IndexOutOfRange, NoEnoughMemory}
      ensures error == Some(NoEnoughMemory) ==> memory.Full()
    {
      hide View, Separate, Owned, FilePage, MappingAt, Paging.PhysicalMemory.Used, Paging.PhysicalMemory.Full, TaskOk;
      assert present == Lookup(memory.frames, tasks[k].cr3, 4, a).present by { PresentInView(memory.frames, tasks[k].cr3, a); }
      hide Lookup;
      if present && rw && user {
        error := CopyPage(k, a);
        return;
      } else if present {
        return Some(AlreadyAllocated);
      }
      BackingIsPageWide(tasks[k], a, offset);
      var task, causalAddr := tasks[k], Vaddr(a, offset);
      if task.dpagingBegin <= causalAddr < task.dpagingEnd {
        error := DemandPage(k, a);
        return;
      }
      var m := FindFileMapping(task.fileMaps, causalAddr);
      if m.Some? {
        error := PreparePageCache(k, m.value, a);
        return;
      }
      return Some(IndexOutOfRange);
    }

    method CopyPage(k: nat, a: LinearAddress) returns (error: Option<Error>)
      requires Inv() && k in tasks && Upper(a)
      requires var e := Lookup(memory.frames, tasks[k].cr3, 4, a); e.present && !e.writable
      modifies memory`frames, memory.manager.allocMap
      ensures Inv() && OnlyImageOf(k) && old(memory.Used()) <= memory.Used()
      ensures Image(k) == old(Image(k))
      ensures error.Some? ==> error.value == NoEnoughMemory && memory.Full()
      ensures error.None? ==> var e := Lookup(memory.frames, tasks[k].cr3, 4, a); e.present && e.writable
    {
      hide Tree, Frames, Lookup, View, SpaceStep, Footprint, Separate, PageReplaced,
        Paging.PhysicalMemory.Used, Paging.PhysicalMemory.Full, TaskOk;
      var root := tasks[k].cr3;
      ghost var m0, used0 := memory.frames, memory.Used();
      SeparateAt(m0, held, template, Roots(), k);
      FootprintIs(m0, root);
      PageFrame(m0, root, template, held, a);
      ghost var f;
      error, f := memory.CopyOnePage(root, a, USER_PML4);
      if error.None? {
        CopyStep(m0, m0[f := Get(m0, Lookup(m0, root, 4, a).addr)], memory.frames, used0, memory.Used(),
                 root, template, held, a, f);
        StepKeepsSeparate(m0, memory.frames, used0, memory.Used(), held, template, Roots(), k);
      }
    }

    /** One user-mode access by instance k: the frame it reaches, after at most one page fault. */
    method Access(k: nat, a: LinearAddress, offset: nat, write: bool) returns (r: Result<nat>)
      requires Inv() && k in tasks && Upper(a) && offset < PAGE_BYTES
      modifies memory`frames, memory.manager.allocMap
      ensures Inv() && OnlyImageOf(k) && old(memory.Used()) <= memory.Used()
      ensures r.Err? ==> Image(k) == old(Image(k)) && r.error in {IndexOutOfRange, NoEnoughMemory}
      ensures r == Err(NoEnoughMemory) ==> memory.Full()
      ensures r == Err(IndexOutOfRange) <==> a !in old(Image(k)) && BackingAt(tasks[k], a, offset).Unbacked?
      ensures r.Ok? ==> Image(k) == Touched(old(Image(k)), a, BackingAt(tasks[k], a, offset))
      ensures r.Ok? ==> var e := Lookup(memory.frames, tasks[k].cr3, 4, a);
        e.present && e.addr == r.value && (write ==> e.writable)
    {
      hide View, Separate, Owned, FilePage, Paging.PhysicalMemory.Used, Paging.PhysicalMemory.Full, TaskOk;
      var root := tasks[k].cr3;
      SpaceAt(k);
      PresentInView(memory.frames, root, a);
      TranslateIsLookup(memory.frames, root, 4, USER_PML4, WritableLeaves, a);
      hide Lookup, Translate;
      var t := Translate(memory.frames, root, 4, a);
      if t.Mapped? && t.user && (write ==> t.writable) {
        return Ok(t.frame);
      }
      var error := HandlePageFault(k, t.Mapped?, write, true, a, offset);
      if error.Some? {
        return Err(error.value);
      }
      SpaceAt(k);
      TranslateIsLookup(memory.frames, root, 4, USER_PML4, WritableLeaves, a);
      r := Ok(Translate(memory.frames, root, 4, a).frame);
    }

    lemma SpaceAt(k: nat)
      requires Inv() && k in tasks
      ensures Tree(memory.frames, tasks[k].cr3, 4, USER_PML4, WritableLeaves)
    {
      SeparateAt(memory.frames, held, template, Roots(), k);
    }

    method UserRead(k: nat, a: LinearAddress, i: Index) returns (r: Result<PageMapEntry>)
      requires Inv() && k in tasks && Upper(a)
      modifies memory`frames, memory.manager.allocMap
      ensures Inv() && OnlyImageOf(k) && old(memory.Used()) <= memory.Used()
      ensures r.Err? ==> Image(k) == old(Image(k)) && r.error in {IndexOutOfRange, NoEnoughMemory}
      ensures r == Err(NoEnoughMemory) ==> memory.Full()
      ensures r == Err(IndexOutOfRange) <==> a !in old(Image(k)) && BackingAt(tasks[k], a, WORD_BYTES * i).Unbacked?
      ensures r.Ok? ==> Image(k) == Touched(old(Image(k)), a, BackingAt(tasks[k], a, WORD_BYTES * i))
      ensures r.Ok? ==> a in Image(k) && r.value == Image(k)[a][i]
    {
      hide View, InstancesOf, InstanceAt, Footprint, Lookup, Separate, Owned, FilePage, Unmapped, TaskOk, BackingAt,
        Paging.PhysicalMemory.Used, Paging.PhysicalMemory.Full;
      var f := Access(k, a, WORD_BYTES * i, false);
      if f.Err? {
        return Err(f.error);
      }
      PresentInView(memory.frames, tasks[k].cr3, a);
      r := Ok(Get(memory.frames, f.value)[i]);
    }

    method UserWrite(k: nat, a: LinearAddress, i: Index, w: PageMapEntry) returns (error: Option<Error>)
      requires Inv() && k in tasks && Upper(a)
      modifies memory`frames, memory.manager.allocMap
      ensures Inv() && OnlyImageOf(k) && old(memory.Used()) <= memory.Used()
      ensures error.Some? ==> Image(k) == old(Image(k)) && error.value in {IndexOutOfRange, NoEnoughMemory}
      ensures error == Some(NoEnoughMemory) ==> memory.Full()
      ensures error == Some(IndexOutOfRange) <==>
        a !in old(Image(k)) && BackingAt(tasks[k], a, WORD_BYTES * i).Unbacked?
      ensures error.None? ==>
        Image(k) == Stored(Touched(old(Image(k)), a, BackingAt(tasks[k], a, WORD_BYTES * i)), a, i, w)
      ensures error.None? ==>
        && (forall b :: b in Image(k) <==> b in old(Image(k)) || b == a) && Image(k)[a][i] == w
        && (forall b :: b in old(Image(k)) && b != a ==> Image(k)[b] == old(Image(k))[b])
        && (a in old(Image(k)) ==> forall j: Index :: j != i ==> Image(k)[a][j] == old(Image(k))[a][j])
    {
      hide View, InstancesOf, InstanceAt, Footprint, Lookup, Separate, Owned, FilePage, Unmapped, TaskOk, BackingAt,
        Paging.PhysicalMemory.Used, Paging.PhysicalMemory.Full;
      var f := Access(k, a, WORD_BYTES * i, true);
      if f.Err? {
        return Some(f.error);
      }
      PresentInView(memory.frames, tasks[k].cr3, a);
      StorePage(k, a, Get(memory.frames, f.value)[i := w]);
      error := None;
    }

    /** SyscallDemandPages: extends the demand-paged range. */
    method DemandPages(k: nat, numPages: nat) returns (oldEnd: nat)
      requires Inv() && k in tasks
      modifies this`tasks
      ensures Inv()
      ensures oldEnd == old(tasks[k].dpagingEnd)
      ensures tasks == old(tasks)[k := old(tasks[k]).(dpagingEnd := oldEnd + PAGE_BYTES * numPages)]
      ensures Instances() == old(Instances())
    {
      hide View, Separate, InstancesOf, InstanceAt, Footprint, Owned, Unmapped,
        Paging.PhysicalMemory.Used, Paging.PhysicalMemory.Full,
        Paging.PhysicalMemory.Valid;
      oldEnd := tasks[k].dpagingEnd;
      tasks := tasks[k := tasks[k].(dpagingEnd := oldEnd + PAGE_BYTES * numPages)];
      assert Roots() == old(Roots());
    }

    /** SyscallMapFile: takes the next lower pages for the file; None for a bad descriptor. */
    method MapFile(k: nat, fd: int) returns (vaddrBegin: Option<nat>)
      requires Inv() && k in tasks
      requires 0 <= fd < |tasks[k].files| ==> |tasks[k].files[fd]| <= tasks[k].fileMapEnd
      modifies this`tasks
      ensures Inv()
      ensures vaddrBegin.None? <==> !(0 <= fd < |old(tasks[k]).files|)
      ensures vaddrBegin.None? ==> tasks == old(tasks)
      ensures vaddrBegin.Some? ==> var begin, t := vaddrBegin.value, old(tasks[k]);
        && begin % PAGE_BYTES == 0 && begin + |t.files[fd]| <= t.fileMapEnd < begin + |t.files[fd]| + PAGE_BYTES
        && tasks == old(tasks)[k := t.(fileMapEnd := begin, fileMaps := t.fileMaps + [FileMapping(fd, begin, t.fileMapEnd)])]
      ensures Instances() == old(Instances())
    {
      hide View, Separate, InstancesOf, InstanceAt, Footprint, Owned, Unmapped, TaskOk,
        Paging.PhysicalMemory.Used, Paging.PhysicalMemory.Full,
        Paging.PhysicalMemory.Valid;
      var task := tasks[k];
      if !(0 <= fd < |task.files|) {
        return None;
      }
      var begin := PageFloor(task.fileMapEnd - |task.files[fd]|);
      MappedIsOk(task, fd, begin);
      tasks := tasks[k := task.(fileMapEnd := begin, fileMaps := task.fileMaps + [FileMapping(fd, begin, task.fileMapEnd)])];
      assert Roots() == old(Roots());
      return Some(begin);
    }

    /** A new top table whose lower half is the kernel's. */
    method SetupPML4() returns (r: Result<nat>)
      requires memory.Valid() && kernelPml4 in memory.Used()
      modifies memory`frames, memory.manager.allocMap
      ensures memory.Valid()
      ensures r.Err? ==> r.error == NoEnoughMemory && memory.Full() && memory.frames == old(memory.frames) && memory.Used() == old(memory.Used())
      ensures r.Ok? ==>
        && r.value !in old(memory.Used()) && memory.Used() == old(memory.Used()) + {r.value}
        && memory.frames == old(memory.frames)[r.value := KernelHalf(Get(old(memory.frames), kernelPml4))]
    {
      r := memory.NewPageMap();
      if r.Ok? {
        memory.frames := memory.frames[r.value := KernelHalf(Get(memory.frames, kernelPml4))];
      }
    }

    /** LoadApp for a program that is already loaded: a new space that shows the program's pages. */
    method LoadApp() returns (root: nat, error: Option<Error>)
      requires Inv()
      modifies memory`frames, memory.manager.allocMap
      ensures memory.Valid()
      ensures error.Some? ==> error.value == NoEnoughMemory && memory.Full() && old(memory.Used()) <= memory.Used()
      ensures SameOn(old(memory.frames), memory.frames, old(memory.Used()))
      ensures error.None? ==>
        && UnderConstruction(old(memory.frames), memory.frames, old(memory.Used()), memory.Used(), root, template)
        && Template(memory.frames, template, held)
        && View(memory.frames, template) == View(old(memory.frames), template)
        && View(memory.frames, root) == View(memory.frames, template)
        && Unmapped(memory.frames, template, STACK_ADDRESS.PageNumber(4), STACK_PAGES + 1)
        && forall j: Index :: j < USER_PML4 ==> Get(memory.frames, root)[j] == Get(memory.frames, kernelPml4)[j]
    {
      hide Tree, Frames, Lookup, View, Footprint, Separate, Owned, CopyGrown, CopiedUpTo, Space, Template;
      ghost var m0, used0 := memory.frames, memory.Used();
      var pml4 := SetupPML4();
      if pml4.Err? {
        return 0, Some(pml4.error);
      }
      root := pml4.value;
      ghost var m1, used1 := memory.frames, memory.Used();
      LaunchCopy(m0, m1, used0, root, template, held, Roots());
      error := memory.CopyPageMaps(root, template, 4, USER_PML4);
      CopyFrame(m1, memory.frames, used1, memory.Used(), root);
      if error.None? {
        CopiedSpace(m1, memory.frames, used1, memory.Used(), root, template, held);
        CopyUnderConstruction(m0, m1, memory.frames, used0, used1, memory.Used(), root, template);
        TemplateStays(m0, memory.frames, template, held);
      }
    }

    /** The page for the arguments and the pages of the stack. */
    method BuildStacks(root: nat, ghost m0: Memory, ghost used0: set<nat>) returns (error: Option<Error>)
      requires memory.Valid() && Template(memory.frames, template, held) && held <= used0
      requires UnderConstruction(m0, memory.frames, used0, memory.Used(), root, template)
      requires View(memory.frames, root) == View(memory.frames, template)
      requires Unmapped(memory.frames, template, STACK_ADDRESS.PageNumber(4), STACK_PAGES + 1)
      modifies memory`frames, memory.manager.allocMap
      ensures memory.Valid()
      ensures UnderConstruction(m0, memory.frames, used0, memory.Used(), root, template)
      ensures error.Some? ==> error.value == NoEnoughMemory && memory.Full()
      ensures error.None? ==> View(memory.frames, root) == StartImage(View(old(memory.frames), template))
      ensures error.None? ==> forall a :: a in View(memory.frames, root) <==> a in View(old(memory.frames), template) || AtTop(a)
    {
      hide Tree, Frames, Lookup, View, Footprint, Space, SpaceStep, Template,
        Paging.PhysicalMemory.Used, Paging.PhysicalMemory.Full;
      ghost var m1, used1 := memory.frames, memory.Used();
      TopPages(m1, root, template);
      ConstructionFacts(m0, m1, used0, used1, root, template, held);
      ghost var mapped;
      error, mapped := SetupPageMaps(root, ARGS_ADDRESS, 1);
      ghost var m2, used2 := memory.frames, memory.Used();
      ConstructionStep(m0, m1, m2, used0, used1, used2, root, template);
      if error.Some? {
        return;
      }
      ConstructionFacts(m0, m2, used0, used2, root, template, held);
      ConstructionTemplate(m0, m1, m2, used0, template, held);
      StackStillFree(m1, m2, root);
      error, mapped := SetupPageMaps(root, STACK_ADDRESS, STACK_PAGES);
      NothingAtTop(m1, template);
      StartImageIs(View(m1, template));
      ConstructionStep(m0, m2, memory.frames, used0, used2, memory.Used(), root, template);
    }

    /** The frames a failed launch had taken stay allocated, owned by nobody. */
    ghost method GiveUp(m0: Memory, used0: set<nat>)
      requires memory.Valid() && kernelPml4 in held
      requires Separate(m0, held, template, Roots()) && used0 == held + Owned(m0, Roots())
      requires used0 <= memory.Used() && SameOn(m0, memory.frames, used0)
      requires Unmapped(m0, template, STACK_ADDRESS.PageNumber(4), STACK_PAGES + 1)
      requires forall k :: k in tasks ==> TaskOk(tasks[k])
      modifies this`held
      ensures Inv() && old(held) <= held
      ensures View(memory.frames, template) == View(m0, template)
      ensures Instances() == InstancesOf(m0, Roots())
    {
      hide Tree, Frames, Lookup, View, Footprint, Separate, Owned;
      FramesLost(m0, memory.frames, used0, memory.Used(), held, template, Roots());
      held := held + (memory.Used() - used0);
    }

    /** ExecuteFile up to the jump into the program: the space, the argument page, the stack and
        the task's regions. A launch that fails gives up the frames it had taken. */
    method Launch(k: nat, files: seq<seq<Byte>>) returns (error: Option<Error>)
      requires Inv() && k !in tasks
      modifies this, memory`frames, memory.manager.allocMap
      ensures Inv() && Program() == old(Program()) && old(held) <= held && old(memory.Used()) <= memory.Used()
      ensures SameOn(old(memory.frames), memory.frames, old(memory.Used()))
      ensures error.Some? ==> error.value == NoEnoughMemory && memory.Full() && tasks == old(tasks)
      ensures error.None? ==> held == old(held)
      ensures error.None? ==> k in tasks && tasks == old(tasks)[k := StartTask(tasks[k].cr3, programEnd, files)]
      ensures Instances() == if error.Some? then old(Instances()) else
                             old(Instances())[k := InstanceAt(memory.frames, tasks[k].cr3)]
      ensures error.None? ==> Image(k) == StartImage(old(Program()))
      ensures error.None? ==>
        && (forall a :: a in Image(k) <==> a in old(Program()) || AtTop(a))
        && (forall a :: a in old(Program()) ==> Image(k)[a] == old(Program())[a])
        && (forall a, i: Index :: AtTop(a) ==> Image(k)[a][i] == ZERO)
      ensures error.None? ==> var t := tasks[k];
        && t.dpagingBegin == t.dpagingEnd && t.dpagingBegin % 4096 == 0
        && programEnd <= t.dpagingBegin < programEnd + 4096
        && t.fileMapEnd == 0xffff_ffff_fffe_f000 && t.fileMaps == [] && t.files == files
      ensures error.None? ==> memory.Used() == old(memory.Used()) + Footprint(memory.frames, tasks[k].cr3)
    {
      hide Tree, Frames, Lookup, View, Footprint, Separate, Owned, Space, SpaceStep, Unmapped, Template, TaskOk, StartTask,
        StartImage, InstancesOf, InstanceAt, SameOn, Paging.PhysicalMemory.Used, Paging.PhysicalMemory.Full;
      ghost var m0, used0, roots := memory.frames, memory.Used(), Roots();
      var root;
      root, error := LoadApp();
      if error.Some? {
        GiveUp(m0, used0);
        return;
      }
      error := BuildStacks(root, m0, used0);
      if error.Some? {
        GiveUp(m0, used0);
        return;
      }
      RegisterSpace(m0, memory.frames, used0, memory.Used(), held, template, roots, k, root);
      StartTaskOk(root, programEnd, files);
      StartTaskIs(root, programEnd, files);
      NothingAtTop(m0, template);
      StartImageIs(View(m0, template));
      tasks := tasks[k := StartTask(root, programEnd, files)];
      assert Roots() == roots[k := root];
    }

    /** ExecuteFile after the program returned: its page maps are cleaned and its top table freed. */
    method Exit(k: nat)
      requires Inv() && k in tasks
      modifies this`tasks, memory`frames, memory.manager.allocMap
      ensures Inv() && Program() == old(Program())
      ensures tasks == old(tasks) - {k}
      ensures memory.Used() == old(memory.Used()) - old(Footprint(memory.frames, tasks[k].cr3))
      ensures SameOn(old(memory.frames), memory.frames, held)
      ensures Instances() == old(Instances()) - {k}
    {
      hide Tree, Frames, Lookup, View, Separate, Owned, Space, Template, Unmapped, TaskOk,
        Paging.PhysicalMemory.Used, Paging.PhysicalMemory.Full;
      ghost var m0, used0, roots := memory.frames, memory.Used(), Roots();
      var cr3 := tasks[k].cr3;
      ExitFacts(m0, held, template, roots, k);
      memory.CleanPageMap(cr3, 4, USER_START);
      memory.FreePageMap(cr3);
      UnregisterSpace(m0, memory.frames, used0, held, template, roots, k);
      tasks := tasks - {k};
      assert Roots() == roots - {k};
    }

    /** One thing the running program does. It learns, and its memory becomes, what they would be
        with a private copy of everything. */
    method UserStep(k: nat, op: UserOp) returns (out: Outcome)
      requires Inv() && k in tasks
      modifies this`tasks, memory`frames, memory.manager.allocMap
      ensures Inv() && Program() == old(Program()) && held == old(held)
      ensures k in tasks && tasks == old(tasks)[k := tasks[k]]
      ensures SameOn(old(memory.frames), memory.frames, held)
      ensures Instances() == old(Instances())[k := InstanceAt(memory.frames, tasks[k].cr3)]
      ensures var p := old(Private(Image(k), tasks[k].(cr3 := 0)));
        if out == OUT_OF_MEMORY then Private(Image(k), tasks[k].(cr3 := 0)) == p
        else (Private(Image(k), tasks[k].(cr3 := 0)), out) == UserNext(p, op)
      ensures old(memory.Used()) <= memory.Used() && (out == OUT_OF_MEMORY ==> memory.Full())
    {
      hide View, InstancesOf, InstanceAt, Footprint, Separate, Owned, Unmapped, TaskOk, Lookup, BackingAt, Touched, Stored,
        Paging.PhysicalMemory.Used, Paging.PhysicalMemory.Full;
      InstanceKeys(memory.frames, Roots());
      assert k in Roots() && Roots()[k] == tasks[k].cr3;
      match op {
        case Read(a, i) =>
          if !Upper(a) {
            return Refused(IndexOutOfRange);
          }
          BackingIgnoresTables(tasks[k], a, WORD_BYTES * i);
          var r := UserRead(k, a, i);
          return if r.Ok? then Word(r.value) else Refused(r.error);
        case Write(a, i, w) =>
          if !Upper(a) {
            return Refused(IndexOutOfRange);
          }
          BackingIgnoresTables(tasks[k], a, WORD_BYTES * i);
          var error := UserWrite(k, a, i, w);
          return if error.None? then Done else Refused(error.value);
        case Demand(pages) =>
          var end := DemandPages(k, pages);
          return Address(end);
        case Map(fd) =>
          if 0 <= fd < |tasks[k].files| && |tasks[k].files[fd]| > tasks[k].fileMapEnd {
            return Refused(NoSuchEntry);
          }
          var begin := MapFile(k, fd);
          return if begin.Some? then Address(begin.value) else Refused(NoSuchEntry);
      }
    }

    /** What the program does while it runs, whatever it is. */
    method RunProgram(k: nat, ops: seq<UserOp>) returns (outs: seq<Outcome>)
      requires Inv() && k in tasks
      modifies this`tasks, memory`frames, memory.manager.allocMap
      ensures Inv() && Program() == old(Program()) && held == old(held)
      ensures k in tasks && tasks == old(tasks)[k := tasks[k]]
      ensures SameOn(old(memory.frames), memory.frames, held)
      ensures Instances() == old(Instances())[k := InstanceAt(memory.frames, tasks[k].cr3)]
      ensures UserRun(old(Private(Image(k), tasks[k].(cr3 := 0))), ops, outs)
      ensures Private(Image(k), tasks[k].(cr3 := 0)) == UserEnd(old(Private(Image(k), tasks[k].(cr3 := 0))), ops, outs)
      ensures OUT_OF_MEMORY in outs ==> memory.Full()
    {
      hide View, InstancesOf, InstanceAt, Footprint, Separate, Owned, Unmapped, TaskOk, UserNext, UserRun, UserEnd, SameOn,
        Paging.PhysicalMemory.Used;
      InstanceKeys(memory.frames, Roots());
      assert k in Roots() && Roots()[k] == tasks[k].cr3;
      ghost var p := Private(Image(k), tasks[k].(cr3 := 0));
      outs := [];
      NothingDone(p);
      SameOnItself(memory.frames, held);
      assert ops[..0] == [];
      for n := 0 to |ops|
        invariant Inv() && Program() == old(Program()) && held == old(held)
        invariant k in tasks && tasks == old(tasks)[k := tasks[k]]
        invariant SameOn(old(memory.frames), memory.frames, held)
        invariant Instances() == old(Instances())[k := InstanceAt(memory.frames, tasks[k].cr3)]
        invariant |outs| == n
        invariant UserRun(p, ops[..n], outs) && Private(Image(k), tasks[k].(cr3 := 0)) == UserEnd(p, ops[..n], outs)
        invariant OUT_OF_MEMORY in outs ==> memory.Full()
      {
        ghost var m := memory.frames;
        var out := UserStep(k, ops[n]);
        SameOnTwice(old(memory.frames), m, memory.frames, held);
        OneMoreDone(p, ops[..n], outs, ops[n], out);
        assert ops[..n + 1] == ops[..n] + [ops[n]];
        outs := outs + [out];
      }
      assert ops[..|ops|] == ops;
    }

    /** A whole successful run of the program leaves exactly the frames allocated that were, and the program
        saw what it would have seen with a copy of its own. It only fails when no frame is left. */
    method ExecuteFile(k: nat, files: seq<seq<Byte>>, ops: seq<UserOp>) returns (error: Option<Error>, outs: seq<Outcome>)
      requires Inv() && k !in tasks
      modifies this, memory`frames, memory.manager.allocMap
      ensures Inv() && Program() == old(Program())
      ensures tasks == old(tasks)
      ensures error.None? ==> memory.Used() == old(memory.Used())
      ensures error.None? ==> UserRun(Private(StartImage(old(Program())), StartTask(0, programEnd, files)), ops, outs)
      ensures error.Some? ==> error.value == NoEnoughMemory && memory.Full()
      ensures Instances() == old(Instances())
      ensures SameOn(old(memory.frames), memory.frames, old(held))
    {
      hide View, InstancesOf, InstanceAt, Footprint, Separate, Owned, Unmapped, TaskOk, StartTask, StartImage, UserRun, UserEnd,
        Paging.PhysicalMemory.Used, Paging.PhysicalMemory.Full;
      InstanceKeys(memory.frames, Roots());
      outs := [];
      error := Launch(k, files);
      if error.Some? {
        return;
      }
      StartTaskIgnoresTables(tasks[k].cr3, programEnd, files);
      ghost var t1, i1 := tasks[k], InstanceAt(memory.frames, tasks[k].cr3);
      outs := RunProgram(k, ops);
      AddedAndRemoved(old(tasks), k, t1, tasks[k]);
      AddedAndRemoved(old(Instances()), k, i1, InstanceAt(memory.frames, tasks[k].cr3));
      Exit(k);
      SameOwned(old(memory.frames), memory.frames, Roots());
    }

    /** What the instances would be if each had a memory of its own. */
    ghost function AsMachine(): Machine
      reads this, memory
    {
      AsPrivate(Instances(), tasks)
    }

    /** One step of some instance: a launch, an exit, or something its program does. */
    method Step(k: nat, op: Op) returns (out: Outcome)
      requires Inv()
      modifies this, memory`frames, memory.manager.allocMap
      ensures Inv() && Program() == old(Program())
      ensures SameOn(old(memory.frames), memory.frames, old(held))
      ensures if out == OUT_OF_MEMORY then AsMachine() == old(AsMachine())
              else (AsMachine(), out) == Next(Program(), programEnd, old(AsMachine()), k, op)
      ensures old(held) <= held && (out != OUT_OF_MEMORY ==> held == old(held))
      ensures MemoryStep(op, out, old(memory.Used()), memory.Used()) && (out == OUT_OF_MEMORY ==> memory.Full())
    {
      hide View, InstancesOf, Footprint, Separate, Owned, Unmapped, TaskOk, UserNext, StartImage, StartTask,
        Paging.PhysicalMemory.Used, Paging.PhysicalMemory.Full, Paging.PhysicalMemory.Valid, SameOn;
      SameOnItself(memory.frames, held);
      InstanceKeys(memory.frames, Roots());
      assert k in AsMachine() <==> k in tasks;
      match op {
        case Launch(files) =>
          if k in tasks {
            return Refused(AlreadyAllocated);
          }
          ghost var m0, used := memory.frames, memory.Used();
          var error := Launch(k, files);
          SameOnFewer(m0, memory.frames, used, old(held));
          if error.Some? {
            return OUT_OF_MEMORY;
          }
          StartTaskIgnoresTables(tasks[k].cr3, programEnd, files);
          AsPrivateUpdated(old(Instances()), old(tasks), k, InstanceAt(memory.frames, tasks[k].cr3), tasks[k]);
          return Done;
        case Exit =>
          if k !in tasks {
            return Refused(NoSuchTask);
          }
          Exit(k);
          AsPrivateRemoved(old(Instances()), old(tasks), k);
          return Done;
        case User(userOp) =>
          if k !in tasks {
            return Refused(NoSuchTask);
          }
          assert Roots()[k] == tasks[k].cr3;
          out := UserStep(k, userOp);
          AsPrivateUpdated(old(Instances()), old(tasks), k, InstanceAt(memory.frames, tasks[k].cr3), tasks[k]);
      }
    }

    /** Any interleaving of launches, exits, reads, writes and faults of any number of instances
        shows every instance exactly what a private full copy of the program would, and leaves the
        program's own frames as they were. Memory runs out only when no frame is free: used tells the
        frames allocated before and after each step. */
    method Run(ops: seq<(nat, Op)>) returns (outs: seq<Outcome>, ghost used: seq<set<nat>>)
      requires Inv()
      modifies this, memory`frames, memory.manager.allocMap
      ensures Inv() && Program() == old(Program())
      ensures SameOn(old(memory.frames), memory.frames, old(held))
      ensures PrivateRun(old(Program()), programEnd, old(AsMachine()), ops, outs, AsMachine())
      ensures old(held) <= held && (OUT_OF_MEMORY !in outs ==> held == old(held))
      ensures |used| == |ops| + 1 && used[0] == old(memory.Used()) && used[|ops|] == memory.Used()
      ensures forall n :: 0 <= n < |ops| ==> MemoryStep(ops[n].1, outs[n], used[n], used[n + 1])
      ensures forall n :: 0 <= n < |ops| && outs[n] == OUT_OF_MEMORY ==> memory.AllUsed(used[n + 1])
      decreases |ops|
    {
      hide View, InstancesOf, Footprint, Separate, AsPrivate, Unmapped, TaskOk, Next, Owned, Paging.PhysicalMemory.Used;
      if ops == [] {
        return [], [memory.Used()];
      }
      var out := Step(ops[0].0, ops[0].1);
      var rest;
      ghost var later;
      rest, later := Run(ops[1..]);
      outs, used := [out] + rest, [old(memory.Used())] + later;
      assert outs[1..] == rest;
    }

    /** When no instance is left, no frame of one is allocated any more. */
    lemma NoInstancesLeft()
      requires Inv() && tasks == map[]
      ensures memory.Used() == held
    {
    }
  }
}
