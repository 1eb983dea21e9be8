/** The page-table builder, cleaner and copier, writing entries in place in physical memory. */
module Paging {
  import opened Results
  import opened MemoryManagement
  import opened PageTables

  class PhysicalMemory {
    var frames: Memory
    const manager: BitmapMemoryManager

    constructor (manager: BitmapMemoryManager, frames: Memory)
      ensures this.manager == manager && this.frames == frames
    {
      this.manager := manager;
      this.frames := frames;
    }

    ghost predicate Valid()
      reads manager, manager.allocMap
    {
      manager.Valid() && manager.rangeBegin <= FRAME_COUNT
    }

    ghost function Used(): set<nat>
      requires Valid()
      reads manager, manager.allocMap
    {
      manager.Allocated()
    }

    /** No frame of the managed range is free when these are allocated. */
    ghost predicate AllUsed(used: set<nat>)
      reads manager
    {
      forall f: nat :: manager.rangeBegin <= f < manager.rangeEnd ==> f in used
    }

    ghost predicate Full()
      requires Valid()
      reads manager, manager.allocMap
    {
      AllUsed(Used())
    }

    /** The entries lo..512 of table t form a tree all of whose frames are allocated. */
    ghost predicate Holds(t: nat, level: nat, lo: nat, own: Leaves)
      requires 1 <= level <= 4
      reads this, manager, manager.allocMap
    {
      && Valid()
      && Tree(frames, t, level, lo, own)
      && {t} + Frames(frames, t, level, lo, AllLeaves) <= Used()
    }

    method NewPageMap() returns (r: Result<nat>)
      requires Valid()
      modifies this`frames, manager.allocMap
      ensures Valid()
      ensures r.Err? ==> r.error == NoEnoughMemory && Full() && frames == old(frames) && Used() == old(Used())
      ensures r.Ok? ==>
        && r.value !in old(Used()) && Used() == old(Used()) + {r.value}
        && frames == old(frames)[r.value := ZeroPage()]
    {
      r := manager.Allocate(1);
      assert r.Err? ==> Full() by {
        forall f: nat | r.Err? && manager.rangeBegin <= f < manager.rangeEnd ensures f in Used() {
          assert !FreeRun(Used(), f, 1, manager.rangeEnd);
        }
      }
      if r.Ok? {
        frames := frames[r.value := ZeroPage()];
      }
    }

    /** The caller must hold the frame: freeing it twice is ruled out here. */
    method FreePageMap(table: nat)
      requires Valid() && table in Used()
      modifies manager.allocMap
      ensures Valid() && Used() == old(Used()) - {table}
    {
      manager.Free(table, 1);
    }

    method WriteEntry(t: nat, i: Index, e: PageMapEntry)
      modifies this`frames
      ensures frames == old(frames)[t := Get(old(frames), t)[i := e]]
    {
      frames := frames[t := Get(frames, t)[i := e]];
    }

    method SetNewPageMapIfNotPresent(t: nat, i: Index) returns (r: Result<nat>)
      requires Valid() && t in Used()
      modifies this`frames, manager.allocMap
      ensures Valid()
      ensures r.Err? ==> r.error == NoEnoughMemory && Full() && frames == old(frames) && Used() == old(Used())
      ensures r.Ok? && Get(old(frames), t)[i].present ==>
        r.value == Get(old(frames), t)[i].addr && frames == old(frames) && Used() == old(Used())
      ensures r.Ok? && !Get(old(frames), t)[i].present ==>
        && r.value !in old(Used()) && Used() == old(Used()) + {r.value}
        && frames == old(frames)[r.value := ZeroPage()]
                                [t := Get(old(frames), t)[i := Get(old(frames), t)[i].(addr := r.value, present := true)]]
    {
      if Get(frames, t)[i].present {
        return Ok(Get(frames, t)[i].addr);
      }
      r := NewPageMap();
      if r.Ok? {
        WriteEntry(t, i, Get(frames, t)[i].(addr := r.value));
        WriteEntry(t, i, Get(frames, t)[i].(present := true));
        assert Get(frames, t) == Get(old(frames), t)[i := Get(old(frames), t)[i].(addr := r.value, present := true)];
        assert frames == old(frames)[r.value := ZeroPage()]
                                    [t := Get(old(frames), t)[i := Get(old(frames), t)[i].(addr := r.value, present := true)]];
      }
    }

    /** Makes entry i of t present, open to user mode and writable as asked. */
    method FillEntry(t: nat, i: Index, writable: bool) returns (r: Result<nat>)
      requires Valid() && t in Used()
      modifies this`frames, manager.allocMap
      ensures Valid()
      ensures r.Err? ==> r.error == NoEnoughMemory && Full() && frames == old(frames) && Used() == old(Used())
      ensures r.Ok? ==> EntryFilled(old(frames), frames, old(Used()), Used(), t, i, writable, r.value)
    {
      r := SetNewPageMapIfNotPresent(t, i);
      if r.Ok? {
        WriteEntry(t, i, Get(frames, t)[i].(user := true));
        WriteEntry(t, i, Get(frames, t)[i].(writable := writable));
      }
    }

    /** Maps the n pages from addr on that lie below table t, creating tables on the way; a page already
        present gets the permission asked for. Only a tree that owns its writable pages alone depends on
        what the present pages permit: see RemappingTakesFrames. */
    method SetupPageMap(t: nat, level: nat, addr0: LinearAddress, n: nat, writable: bool, ghost lo: nat, ghost own: Leaves)
      returns (remain: nat, error: Option<Error>, ghost mapped: nat)
      requires 1 <= level <= 4 && lo <= addr0.Part(level)
      requires own.AllLeaves? || (writable && own.WritableLeaves?)
      requires Holds(t, level, lo, own)
      requires own.AllLeaves? || Permits(frames, t, level, lo, addr0.PageNumber(level), n, writable)
      modifies this`frames, manager.allocMap
      ensures Holds(t, level, lo, own)
      ensures Extended(old(frames), frames, old(Used()), Used(), t, level, lo, own)
      ensures RangeMapped(old(frames), frames, old(Used()), t, level, lo, addr0.PageNumber(level), mapped, writable)
      ensures error.None? ==> remain == n - mapped
      ensures error.None? ==> mapped == if n < PagesBelow(level) - addr0.PageNumber(level) then n
                                        else PagesBelow(level) - addr0.PageNumber(level)
      ensures error.Some? ==> error.value == NoEnoughMemory && Full() && mapped < n && mapped < PagesBelow(level) - addr0.PageNumber(level)
      decreases level, 1
    {
      hide Extended, RangeMapped, Permits, Tree, Frames, Lookup;
      ExtendedSelf(frames, Used(), t, level, lo, own, addr0.PageNumber(level), n, writable);
      var addr := addr0;
      remain, error, mapped := n, None, 0;
      PageNumberBounds(addr0, level);
      while remain > 0
        invariant lo <= addr.Part(level)
        invariant error.None? && remain == n - mapped
        invariant mapped <= PagesBelow(level) - addr0.PageNumber(level)
        invariant remain > 0 ==> addr.PageNumber(level) == addr0.PageNumber(level) + mapped
        invariant Holds(t, level, lo, own)
        invariant Extended(old(frames), frames, old(Used()), Used(), t, level, lo, own)
        invariant RangeMapped(old(frames), frames, old(Used()), t, level, lo, addr0.PageNumber(level), mapped, writable)
        invariant remain > 0 && !own.AllLeaves? ==> Permits(frames, t, level, lo, addr.PageNumber(level), remain, writable)
        decreases remain
      {
        var entryIndex := addr.Part(level);
        PageNumberBounds(addr, level);
        ghost var m1, used1 := frames, Used();
        ghost var more: nat;
        var left;
        left, error, more := SetupEntry(t, level, addr, remain, writable, lo, own);
        ExtendedTwice(old(frames), m1, frames, old(Used()), used1, Used(), t, level, lo, own);
        MappedTwice(old(frames), m1, frames, old(Used()), used1, Used(), t, level, lo, own,
                    addr0.PageNumber(level), mapped, more, writable);
        if !own.AllLeaves? {
          StillPermits(old(frames), frames, old(Used()), t, level, lo, addr0.PageNumber(level), mapped + more, n, writable);
        }
        mapped := mapped + more;
        if error.Some? {
          return;
        }
        remain := left;
        if entryIndex == 511 {
          break;
        }
        addr := NextTable(addr, level);
      }
    }

    /** Steps to the first page below the next entry. */
    method NextTable(addr0: LinearAddress, level: nat) returns (addr: LinearAddress)
      requires 1 <= level <= 4 && addr0.Part(level) < 511
      ensures addr.Part(level) == addr0.Part(level) + 1
      ensures addr.PageNumber(level) == addr0.PageNumber(level) - addr0.PageNumber(level - 1) + PagesBelow(level - 1)
    {
      addr := addr0.SetPart(level, addr0.Part(level) + 1);
      for l := level downto 1
        invariant addr.Part(level) == addr0.Part(level) + 1
        invariant forall k :: l <= k < level ==> addr.Part(k) == 0
      {
        addr := addr.SetPart(l, 0);
      }
      ZeroBelow(addr, level - 1);
    }

    /** One round of SetupPageMap's loop: the pages of the range that lie below one entry of t. */
    method SetupEntry(t: nat, level: nat, addr: LinearAddress, n: nat, writable: bool, ghost lo: nat, ghost own: Leaves)
      returns (remain: nat, error: Option<Error>, ghost mapped: nat)
      requires 1 <= level <= 4 && lo <= addr.Part(level) && n > 0
      requires own.AllLeaves? || (writable && own.WritableLeaves?)
      requires Holds(t, level, lo, own)
      requires own.AllLeaves? || Permits(frames, t, level, lo, addr.PageNumber(level), n, writable)
      modifies this`frames, manager.allocMap
      ensures Holds(t, level, lo, own)
      ensures Extended(old(frames), frames, old(Used()), Used(), t, level, lo, own)
      ensures RangeMapped(old(frames), frames, old(Used()), t, level, lo, addr.PageNumber(level), mapped, writable)
      ensures error.None? ==> remain == n - mapped
      ensures error.None? ==> mapped == if n < PagesBelow(level - 1) - addr.PageNumber(level - 1) then n
                                        else PagesBelow(level - 1) - addr.PageNumber(level - 1)
      ensures error.Some? ==> error.value == NoEnoughMemory && Full() && mapped < n && mapped < PagesBelow(level - 1) - addr.PageNumber(level - 1)
      decreases level, 0
    {
      hide Extended, RangeMapped, Permits, Tree, Frames, Lookup, EntryFilled;
      ghost var m0, used0 := frames, Used();
      ExtendedSelf(m0, used0, t, level, lo, own, addr.PageNumber(level), n, writable);
      var childMap := FillEntry(t, addr.Part(level), if level == 1 then writable else true);
      if childMap.Err? {
        return n, Some(childMap.error), 0;
      }
      if level == 1 {
        LeafMapped(m0, frames, used0, Used(), t, lo, own, addr, n, writable, childMap.value);
        return n - 1, None, 1;
      }
      ghost var m1, used1 := frames, Used();
      TableAdded(m0, m1, used0, used1, t, level, lo, own, addr, n, writable, childMap.value);
      remain, error, mapped := SetupPageMap(childMap.value, level - 1, addr, n, writable, 0, own);
      SubtreeMapped(m1, frames, used1, Used(), t, level, lo, own, addr, mapped, writable);
      ExtendedTwice(m0, m1, frames, used0, used1, Used(), t, level, lo, own);
      MappedTwice(m0, m1, frames, used0, used1, Used(), t, level, lo, own, addr.PageNumber(level), 0, mapped, writable);
      if error.Some? {
        remain := n;
      }
    }

    /** Frees every frame the entries from addr on own, each exactly once, and clears the entries.
        Lower tables are cleaned from the same address parts, so these must be zero. */
    method CleanPageMap(t: nat, level: nat, addr: LinearAddress)
      requires 1 <= level <= 4 && forall k :: 1 <= k < level ==> addr.Part(k) == 0
      requires Valid() && Tree(frames, t, level, addr.Part(level), WritableLeaves)
      requires Frames(frames, t, level, addr.Part(level), WritableLeaves) <= Used()
      modifies this`frames, manager.allocMap
      ensures Valid()
      ensures Used() == old(Used()) - Frames(old(frames), t, level, addr.Part(level), WritableLeaves)
      ensures forall i: Index ::
        Get(frames, t)[i] == if i >= addr.Part(level) && Get(old(frames), t)[i].present then ZERO else Get(old(frames), t)[i]
      ensures forall f :: f != t && f !in Frames(old(frames), t, level, addr.Part(level), NoLeaves) ==>
        Get(frames, f) == Get(old(frames), f)
      decreases level, 1
    {
      hide Tree, Frames, BitmapMemoryManager.Allocated;
      ghost var m0, used0, lo := frames, Used(), addr.Part(level);
      NoFramesPastEnd(m0, t, level, WritableLeaves);
      for i := addr.Part(level) to ENTRIES
        invariant Valid()
        invariant Used() == used0 - (Frames(m0, t, level, lo, WritableLeaves) - Frames(m0, t, level, i, WritableLeaves))
        invariant forall j: Index :: Get(frames, t)[j] == if lo <= j < i && Get(m0, t)[j].present then ZERO else Get(m0, t)[j]
        invariant SameOn(m0, frames, Frames(m0, t, level, i, NoLeaves))
        invariant forall f :: f != t && f !in Frames(m0, t, level, lo, NoLeaves) ==> Get(frames, f) == Get(m0, f)
      {
        var entry := Get(frames, t)[i];
        TailTree(m0, t, level, lo, i, WritableLeaves);
        TailFrames(m0, t, level, i, WritableLeaves);
        TailFrames(m0, t, level, i, NoLeaves);
        if !entry.present {
          continue;
        }
        EntryFrame(m0, frames, entry, level, WritableLeaves);
        EntryLeavesOrder(m0, entry, level);
        CleanEntry(t, level, i, addr);
      }
    }

    /** One round of CleanPageMap's loop, for a present entry. */
    method CleanEntry(t: nat, level: nat, i: Index, addr: LinearAddress)
      requires 1 <= level <= 4 && forall k :: 1 <= k < level ==> addr.Part(k) == 0
      requires Valid() && Get(frames, t)[i].present && EntryOk(frames, Get(frames, t)[i], level, WritableLeaves)
      requires t !in FramesOf(frames, Get(frames, t)[i], level, WritableLeaves)
      requires FramesOf(frames, Get(frames, t)[i], level, WritableLeaves) <= Used()
      modifies this`frames, manager.allocMap
      ensures Valid()
      ensures Used() == old(Used()) - FramesOf(old(frames), old(Get(frames, t)[i]), level, WritableLeaves)
      ensures Get(frames, t) == old(Get(frames, t))[i := ZERO]
      ensures forall f :: f != t && f !in FramesOf(old(frames), old(Get(frames, t)[i]), level, NoLeaves) ==>
        Get(frames, f) == Get(old(frames), f)
      decreases level, 0
    {
      hide Tree, Frames, BitmapMemoryManager.Allocated;
      var entry := Get(frames, t)[i];
      EntryLeavesOrder(frames, entry, level);
      if level > 1 {
        RootOutside(frames, entry.addr, level - 1, 0, WritableLeaves);
        CleanPageMap(entry.addr, level - 1, addr);
      }
      if entry.writable {
        FreePageMap(entry.addr);
      }
      WriteEntry(t, i, ZERO);
    }

    /** Points the page at addr to another frame and makes it writable. */
    method SetPageContent(t: nat, part: nat, addr: LinearAddress, content: nat, ghost lo: nat)
      requires 1 <= part <= 4 && lo <= addr.Part(part)
      requires Tree(frames, t, part, lo, WritableLeaves)
      requires Lookup(frames, t, part, addr).present && !Lookup(frames, t, part, addr).writable
      requires content !in {t} + Frames(frames, t, part, lo, WritableLeaves)
      modifies this`frames
      ensures PageReplaced(old(frames), frames, t, part, lo, addr, content)
      decreases part
    {
      hide Tree, Frames, PageReplaced;
      ghost var m0 := frames;
      var i := addr.Part(part);
      if part == 1 {
        WriteEntry(t, i, Get(frames, t)[i].(addr := content));
        WriteEntry(t, i, Get(frames, t)[i].(writable := true));
        assert Get(frames, t) == Get(m0, t)[i := Get(m0, t)[i].(addr := content, writable := true)];
        LeafReplaced(m0, frames, t, lo, addr, content);
        return;
      }
      EntryFacts(frames, t, part, lo, WritableLeaves, i);
      FramesOfSubset(frames, t, part, lo, WritableLeaves, i);
      SetPageContent(Get(frames, t)[i].addr, part - 1, addr, content, 0);
      SubtreeReplaced(m0, frames, t, part, lo, addr, content);
    }

    /** Makes entry i of dest a copy of e that points to a new table. */
    method LinkTable(dest: nat, i: Index, e: PageMapEntry) returns (r: Result<nat>)
      requires Valid() && dest in Used()
      modifies this`frames, manager.allocMap
      ensures Valid()
      ensures r.Err? ==> r.error == NoEnoughMemory && Full() && frames == old(frames) && Used() == old(Used())
      ensures r.Ok? ==> TableLinked(old(frames), frames, old(Used()), Used(), dest, i, e, r.value)
    {
      r := NewPageMap();
      if r.Ok? {
        WriteEntry(dest, i, e);
        WriteEntry(dest, i, Get(frames, dest)[i].(addr := r.value));
      }
    }

    /** Copies the entries start.. of src to dest: new tables, the same page frames, read-only. */
    method CopyPageMaps(dest: nat, src: nat, part: nat, start: nat) returns (error: Option<Error>)
      requires 1 <= part <= 4 && start <= ENTRIES
      requires Valid() && dest in Used() && src in Used()
      requires Tree(frames, src, part, start, AllLeaves)
      requires Frames(frames, src, part, start, AllLeaves) <= Used()
      requires dest !in {src} + Frames(frames, src, part, start, AllLeaves)
      requires forall j: Index :: j >= start ==> !Get(frames, dest)[j].present
      modifies this`frames, manager.allocMap
      ensures Valid()
      ensures CopyGrown(old(frames), frames, old(Used()), Used(), dest, part, start)
      ensures error.None? ==> CopiedUpTo(old(frames), frames, dest, src, part, start, ENTRIES)
      ensures error.Some? ==> error.value == NoEnoughMemory && Full()
      decreases part
    {
      hide Tree, Frames, Lookup, CopyGrown, CopiedUpTo;
      ghost var m0, used0 := frames, Used();
      CopyStart(m0, used0, dest, src, part, start);
      for i := start to ENTRIES
        invariant Valid() && dest in Used()
        invariant CopyGrown(m0, frames, used0, Used(), dest, part, start)
        invariant CopiedUpTo(m0, frames, dest, src, part, start, i)
        invariant Get(frames, src) == Get(m0, src)
      {
        ghost var m1, used1 := frames, Used();
        if part == 1 {
          if Get(frames, src)[i].present {
            WriteEntry(dest, i, Get(frames, src)[i]);
            WriteEntry(dest, i, Get(frames, dest)[i].(writable := false));
          }
          LeafCopied(m0, m1, frames, used0, Used(), dest, src, start, i);
        } else if Get(frames, src)[i].present {
          var table := LinkTable(dest, i, Get(frames, src)[i]);
          if table.Err? {
            return Some(table.error);
          }
          ghost var m2, used2 := frames, Used();
          SourceKept(m0, m1, m2, used0, used1, used2, dest, src, part, start, i, table.value);
          error := CopyPageMaps(table.value, Get(frames, src)[i].addr, part - 1, 0);
          SubtreeCopied(m0, m1, m2, frames, used0, used1, used2, Used(), dest, src, part, start, i, table.value);
          if error.Some? {
            return;
          }
        } else {
          AbsentCopied(m0, frames, dest, src, part, start, i);
        }
      }
      error := None;
    }

    /** Gives the space at root its own writable copy of the page at addr. */
    method CopyOnePage(root: nat, addr: LinearAddress, ghost lo: nat) returns (error: Option<Error>, ghost f: nat)
      requires Valid() && lo <= addr.Part(4)
      requires Tree(frames, root, 4, lo, WritableLeaves)
      requires {root} + Frames(frames, root, 4, lo, WritableLeaves) <= Used()
      requires Lookup(frames, root, 4, addr).present && !Lookup(frames, root, 4, addr).writable
      requires Lookup(frames, root, 4, addr).addr in Used()
      modifies this`frames, manager.allocMap
      ensures Valid()
      ensures error.Some? ==> error.value == NoEnoughMemory && Full() && frames == old(frames) && Used() == old(Used())
      ensures error.None? ==> f !in old(Used()) && Used() == old(Used()) + {f}
      ensures error.None? ==>
        PageReplaced(old(frames)[f := Get(old(frames), Lookup(old(frames), root, 4, addr).addr)], frames, root, 4, lo, addr, f)
    {
      hide Tree, Frames, Lookup, PageReplaced;
      ghost var m0 := frames;
      var source := Lookup(frames, root, 4, addr).addr;  // what the processor reads at addr
      var p := NewPageMap();
      if p.Err? {
        return Some(p.error), 0;
      }
      f := p.value;
      frames := frames[p.value := Get(frames, source)];
      LeavesOrder(m0, root, 4, lo);
      TreeFrame(m0, frames, root, 4, lo, WritableLeaves);
      assert frames == m0[f := Get(m0, source)];
      SetPageContent(root, 4, addr, p.value, lo);
      error := None;
    }
  }
}
