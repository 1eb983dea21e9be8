/** Physical frame allocator: a bitmap of one bit per 4 KiB frame, kept in 64-bit lines. */
module MemoryManagement {
  import opened Results

  const BITS_PER_MAP_LINE: nat := 64
  const FRAME_COUNT: nat := 0x200_0000  // 128 GiB / 4 KiB

  /** One word of the bitmap, as the sequence of its bits from the lowest. */
  type MapLine = line: seq<bool> | |line| == BITS_PER_MAP_LINE witness seq(BITS_PER_MAP_LINE, _ => false)

  // ---------------------------------------------------------------- first fit

  /** n free frames starting at s, all below end. */
  ghost predicate FreeRun(used: set<nat>, s: nat, n: nat, end: nat) {
    && (n > 0 ==> s + n <= end)
    && forall f :: s <= f < s + n ==> f !in used
  }

  /** The lowest run of n free frames at or above begin. */
  ghost predicate FirstFit(used: set<nat>, begin: nat, end: nat, n: nat, s: nat) {
    && begin <= s
    && FreeRun(used, s, n, end)
    && forall k :: begin <= k < s ==> !FreeRun(used, k, n, end)
  }

  ghost function Span(start: nat, n: nat): (frames: set<nat>)
    ensures forall f :: f in frames <==> start <= f < start + n
  {
    if n == 0 then {} else Span(start, n - 1) + {start + n - 1}
  }

  class BitmapMemoryManager {
    const allocMap: array<MapLine>
    var rangeBegin: nat
    var rangeEnd: nat

    ghost predicate Valid()
      reads this
    {
      && allocMap.Length * BITS_PER_MAP_LINE == FRAME_COUNT
      && rangeEnd <= FRAME_COUNT
    }

    predicate GetBit(frame: nat)
      requires frame / BITS_PER_MAP_LINE < allocMap.Length
      reads this, allocMap
    {
      allocMap[frame / BITS_PER_MAP_LINE][frame % BITS_PER_MAP_LINE]
    }

    /** The frames whose bit is set. */
    ghost function Allocated(): set<nat>
      requires Valid()
      reads this, allocMap
    {
      set f | 0 <= f < FRAME_COUNT && GetBit(f)
    }

    constructor ()
      ensures Valid() && fresh(allocMap)
      ensures rangeBegin == 0 && rangeEnd == FRAME_COUNT
      ensures Allocated() == {}
    {
      allocMap := new MapLine[FRAME_COUNT / BITS_PER_MAP_LINE](_ => seq(BITS_PER_MAP_LINE, _ => false));
      rangeBegin, rangeEnd := 0, FRAME_COUNT;
    }

    method SetBit(frame: nat, inUse: bool)
      requires Valid() && frame < FRAME_COUNT
      modifies allocMap
      ensures Allocated() == if inUse then old(Allocated()) + {frame} else old(Allocated()) - {frame}
    {
      var lineIndex, bitIndex := frame / BITS_PER_MAP_LINE, frame % BITS_PER_MAP_LINE;
      allocMap[lineIndex] := allocMap[lineIndex][bitIndex := inUse];
    }

    method MarkAllocated(startFrame: nat, numFrames: nat)
      requires Valid() && startFrame + numFrames <= FRAME_COUNT
      modifies allocMap
      ensures Allocated() == old(Allocated()) + Span(startFrame, numFrames)
    {
      for i := 0 to numFrames
        invariant Allocated() == old(Allocated()) + Span(startFrame, i)
      {
        SetBit(startFrame + i, true);
      }
    }

    method Free(startFrame: nat, numFrames: nat)
      requires Valid() && startFrame + numFrames <= FRAME_COUNT
      modifies allocMap
      ensures Allocated() == old(Allocated()) - Span(startFrame, numFrames)
    {
      for i := 0 to numFrames
        invariant Allocated() == old(Allocated()) - Span(startFrame, i)
      {
        SetBit(startFrame + i, false);
      }
    }

    method SetMemoryRange(begin: nat, end: nat)
      requires Valid() && end <= FRAME_COUNT
      modifies this
      ensures Valid() && rangeBegin == begin && rangeEnd == end
      ensures Allocated() == old(Allocated())
    {
      rangeBegin, rangeEnd := begin, end;
    }

    /** First fit: fails exactly when no run of numFrames free frames lies in the managed range. */
    method Allocate(numFrames: nat) returns (r: Result<nat>)
      requires Valid()
      requires rangeBegin <= FRAME_COUNT
      modifies allocMap
      ensures r.Err? <==> forall s :: rangeBegin <= s ==> !FreeRun(old(Allocated()), s, numFrames, rangeEnd)
      ensures r.Err? ==> r.error == NoEnoughMemory && Allocated() == old(Allocated())
      ensures r.Ok? ==>
        && FirstFit(old(Allocated()), rangeBegin, rangeEnd, numFrames, r.value)
        && Allocated() == old(Allocated()) + Span(r.value, numFrames)
    {
      ghost var used := Allocated();
      var start := rangeBegin;
      while true
        invariant rangeBegin <= start
        invariant start <= rangeBegin || start <= rangeEnd
        invariant forall k :: rangeBegin <= k < start ==> !FreeRun(used, k, numFrames, rangeEnd)
        invariant Allocated() == used
        decreases rangeEnd - start
      {
        var i := 0;
        while i < numFrames
          invariant i <= numFrames
          invariant i > 0 ==> start + i <= rangeEnd
          invariant forall f :: start <= f < start + i ==> f !in used
        {
          if start + i >= rangeEnd {
            return Err(NoEnoughMemory);
          }
          if GetBit(start + i) {
            break;
          }
          i := i + 1;
        }
        if i == numFrames {
          assert FreeRun(used, start, numFrames, rangeEnd);
          MarkAllocated(start, numFrames);
          return Ok(start);
        }
        forall k | start <= k <= start + i ensures !FreeRun(used, k, numFrames, rangeEnd) {
          assert i < numFrames && start + i in used;
        }
        start := start + i + 1;
      }
    }
  }

  // ---------------------------------------------------------------- boot

  const BYTES_PER_FRAME: nat := 4096

  // The UEFI memory types that the kernel may use once boot services have ended.
  const BOOT_SERVICES_CODE: nat := 3
  const BOOT_SERVICES_DATA: nat := 4
  const CONVENTIONAL_MEMORY: nat := 7

  datatype MemoryDescriptor = MemoryDescriptor(memoryType: nat, physicalStart: nat, numberOfPages: nat) {
    predicate IsAvailable() {
      memoryType in {BOOT_SERVICES_CODE, BOOT_SERVICES_DATA, CONVENTIONAL_MEMORY}
    }

    function PhysicalEnd(): nat {
      physicalStart + numberOfPages * BYTES_PER_FRAME
    }

    predicate Covers(frame: nat) {
      physicalStart / BYTES_PER_FRAME <= frame < PhysicalEnd() / BYTES_PER_FRAME
    }
  }

  /** Page-aligned descriptors in address order, without overlap, inside the bitmap. */
  ghost predicate SortedMap(descs: seq<MemoryDescriptor>) {
    && (forall i :: 0 <= i < |descs| ==>
          && descs[i].physicalStart % BYTES_PER_FRAME == 0
          && descs[i].PhysicalEnd() <= FRAME_COUNT * BYTES_PER_FRAME)
    && (forall i, j :: 0 <= i < j < |descs| ==> descs[i].PhysicalEnd() <= descs[j].physicalStart)
  }

  /** Some available descriptor among the first n covers the frame. */
  ghost predicate Usable(descs: seq<MemoryDescriptor>, n: nat, frame: nat)
    requires n <= |descs|
  {
    exists i :: 0 <= i < n && descs[i].IsAvailable() && descs[i].Covers(frame)
  }

  /** A frame of 4096 bytes lies in the memory that a descriptor describes, and the firmware no longer needs
      that: types 3, 4 and 7 of the UEFI specification. */
  predicate CanUse(d: MemoryDescriptor, frame: nat) {
    && (d.memoryType == 3 || d.memoryType == 4 || d.memoryType == 7)
    && d.physicalStart <= 4096 * frame && 4096 * (frame + 1) <= d.physicalStart + 4096 * d.numberOfPages
  }

  lemma UsableIs(descs: seq<MemoryDescriptor>, frame: nat)
    requires forall i :: 0 <= i < |descs| ==> descs[i].physicalStart % BYTES_PER_FRAME == 0
    ensures Usable(descs, |descs|, frame) <==> exists i :: 0 <= i < |descs| && CanUse(descs[i], frame)
  {
    forall i | 0 <= i < |descs|
      ensures descs[i].IsAvailable() && descs[i].Covers(frame) <==> CanUse(descs[i], frame)
    {
      CoversIs(descs[i], frame);
    }
  }

  lemma CoversIs(d: MemoryDescriptor, frame: nat)
    requires d.physicalStart % BYTES_PER_FRAME == 0
    ensures d.Covers(frame) <==>
      d.physicalStart <= 4096 * frame && 4096 * (frame + 1) <= d.physicalStart + 4096 * d.numberOfPages
  {
    var first := d.physicalStart / BYTES_PER_FRAME;
    assert d.physicalStart == 4096 * first && d.PhysicalEnd() == 4096 * (first + d.numberOfPages);
  }

  lemma UsableStep(descs: seq<MemoryDescriptor>, n: nat, next: nat)
    requires n < next == n + 1 <= |descs|
    ensures forall f: nat ::
      Usable(descs, next, f) <==> (Usable(descs, n, f) || (descs[n].IsAvailable() && descs[n].Covers(f)))
  {
    forall f: nat | descs[n].IsAvailable() && descs[n].Covers(f) ensures Usable(descs, next, f) {
    }
  }

  /** Boot marking: below the end of the last available descriptor, a frame is left free exactly
      when an available descriptor covers it. */
  method InitializeMemoryManager(descs: seq<MemoryDescriptor>) returns (manager: BitmapMemoryManager)
    requires SortedMap(descs)
    ensures fresh(manager) && fresh(manager.allocMap) && manager.Valid()
    ensures manager.rangeBegin == 1
    ensures forall f: nat :: f < manager.rangeEnd ==> (f !in manager.Allocated() <==> Usable(descs, |descs|, f))
    ensures forall f: nat :: manager.rangeEnd <= f ==> !Usable(descs, |descs|, f)
  {
    manager := new BitmapMemoryManager();
    var availableEnd: nat := 0;
    for i := 0 to |descs|
      invariant manager.Valid()
      invariant availableEnd % BYTES_PER_FRAME == 0
      invariant forall j :: i <= j < |descs| ==> availableEnd <= descs[j].physicalStart
      invariant availableEnd <= FRAME_COUNT * BYTES_PER_FRAME
      invariant forall f: nat :: f < availableEnd / BYTES_PER_FRAME ==>
        (f !in manager.Allocated() <==> Usable(descs, i, f))
      invariant forall f: nat :: availableEnd / BYTES_PER_FRAME <= f ==> !Usable(descs, i, f)
      invariant forall f, j :: f in manager.Allocated() && i <= j < |descs| ==>
        f < descs[j].physicalStart / BYTES_PER_FRAME
    {
      var desc := descs[i];
      UsableStep(descs, i, i + 1);
      if availableEnd < desc.physicalStart {
        manager.MarkAllocated(availableEnd / BYTES_PER_FRAME,
                              (desc.physicalStart - availableEnd) / BYTES_PER_FRAME);
      }
      if desc.IsAvailable() {
        availableEnd := desc.PhysicalEnd();
      } else {
        manager.MarkAllocated(desc.physicalStart / BYTES_PER_FRAME, desc.numberOfPages);
      }
    }
    manager.SetMemoryRange(1, availableEnd / BYTES_PER_FRAME);
  }
}
