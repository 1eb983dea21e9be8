/** Page tables as values: what a four-level tree of frames maps, which frames it owns, and when
    it is well formed (Intel SDM volume 3A, section 4.5). */
module PageTables {
  const ENTRIES: nat := 512

  /** A 64-bit word of memory, read as a page-map entry: the frame number it points to, the three
      flags the kernel uses, and the remaining bits. */
  datatype PageMapEntry = PageMapEntry(present: bool, writable: bool, user: bool, addr: nat, rest: nat)

  const ZERO := PageMapEntry(false, false, false, 0, 0)

  type Index = i: nat | i < ENTRIES

  /** One 4 KiB frame: 512 words, whether they are used as page-map entries or as data. */
  type Page = p: seq<PageMapEntry> | |p| == ENTRIES witness seq(ENTRIES, _ => ZERO)

  function ZeroPage(): Page {
    seq(ENTRIES, _ => ZERO)
  }

  type Memory = map<nat, Page>

  /** The content of a frame; memory never written reads as zeros. */
  function Get(m: Memory, frame: nat): Page {
    if frame in m then m[frame] else ZeroPage()
  }

  /** A linear address without its page offset. */
  datatype LinearAddress = LinearAddress(pml4: Index, pdp: Index, dir: Index, page: Index) {
    function Part(level: nat): Index
      requires 1 <= level <= 4
    {
      match level
      case 1 => page
      case 2 => dir
      case 3 => pdp
      case _ => pml4
    }

    function SetPart(level: nat, value: Index): (a: LinearAddress)
      requires 1 <= level <= 4
      ensures a.Part(level) == value
      ensures forall k :: 1 <= k <= 4 && k != level ==> a.Part(k) == Part(k)
    {
      match level
      case 1 => this.(page := value)
      case 2 => this.(dir := value)
      case 3 => this.(pdp := value)
      case _ => this.(pml4 := value)
    }

    /** The position of the page among those below one table of the given level. */
    function PageNumber(level: nat): nat
      requires level <= 4
    {
      match level
      case 0 => 0
      case 1 => page
      case 2 => dir * 512 + page
      case 3 => pdp * 0x4_0000 + dir * 512 + page
      case _ => pml4 * 0x800_0000 + pdp * 0x4_0000 + dir * 512 + page
    }
  }

  /** How many pages one table of the given level maps; one for level 0, a page itself. */
  function PagesBelow(level: nat): nat
    requires level <= 4
  {
    match level
    case 0 => 1
    case 1 => 512
    case 2 => 0x4_0000
    case 3 => 0x800_0000
    case _ => 0x10_0000_0000
  }

  /** Which page frames count as belonging to a tree, besides its table frames. */
  datatype Leaves = NoLeaves | WritableLeaves | AllLeaves

  /** The frames below the entries lo..512 of table t: the lower tables, and the leaves asked for. */
  ghost function Frames(m: Memory, t: nat, level: nat, lo: nat, which: Leaves): set<nat>
    requires 1 <= level <= 4
    decreases level, 1
  {
    set i, f | lo <= i < ENTRIES && f in FramesOf(m, Get(m, t)[i], level, which) :: f
  }

  ghost function FramesOf(m: Memory, e: PageMapEntry, level: nat, which: Leaves): set<nat>
    requires 1 <= level <= 4
    decreases level, 0
  {
    if !e.present then {}
    else if level > 1 then {e.addr} + Frames(m, e.addr, level - 1, 0, which)
    else if which.AllLeaves? || (which.WritableLeaves? && e.writable) then {e.addr}
    else {}
  }

  /** The entries lo..512 of table t form a tree: no frame is reached along two paths, tables are
      marked writable, and everything present is open to user mode. */
  ghost predicate Tree(m: Memory, t: nat, level: nat, lo: nat, own: Leaves)
    requires 1 <= level <= 4
    decreases level, 1
  {
    && (forall i :: lo <= i < ENTRIES ==>
          EntryOk(m, Get(m, t)[i], level, own) && t !in FramesOf(m, Get(m, t)[i], level, own))
    && (forall i, j :: lo <= i < j < ENTRIES ==>
          FramesOf(m, Get(m, t)[i], level, own) !! FramesOf(m, Get(m, t)[j], level, own))
  }

  ghost predicate EntryOk(m: Memory, e: PageMapEntry, level: nat, own: Leaves)
    requires 1 <= level <= 4
    decreases level, 0
  {
    e.present ==> e.user && (level > 1 ==> e.writable && Tree(m, e.addr, level - 1, 0, own))
  }

  /** The leaf entry that maps address a below table t; ZERO when a level is not present. */
  function Lookup(m: Memory, t: nat, level: nat, a: LinearAddress): PageMapEntry
    requires 1 <= level <= 4
    decreases level, 1
  {
    LookupOf(m, Get(m, t)[a.Part(level)], level, a)
  }

  function LookupOf(m: Memory, e: PageMapEntry, level: nat, a: LinearAddress): PageMapEntry
    requires 1 <= level <= 4
    decreases level, 0
  {
    if !e.present then ZERO
    else if level == 1 then e
    else Lookup(m, e.addr, level - 1, a)
  }

  // ---------------------------------------------------------------- framing

  ghost predicate SameOn(m: Memory, m': Memory, frames: set<nat>) {
    forall f :: f in frames ==> Get(m', f) == Get(m, f)
  }

  lemma SameOnItself(m: Memory, s: set<nat>)
    ensures SameOn(m, m, s)
  {
  }

  lemma SameOnFewer(m: Memory, m': Memory, s: set<nat>, fewer: set<nat>)
    requires SameOn(m, m', s) && fewer <= s
    ensures SameOn(m, m', fewer)
  {
  }

  lemma SameOnTwice(m0: Memory, m1: Memory, m2: Memory, s: set<nat>)
    requires SameOn(m0, m1, s) && SameOn(m1, m2, s)
    ensures SameOn(m0, m2, s)
  {
  }

  lemma FramesOfSubset(m: Memory, t: nat, level: nat, lo: nat, which: Leaves, i: nat)
    requires 1 <= level <= 4 && lo <= i < ENTRIES
    ensures FramesOf(m, Get(m, t)[i], level, which) <= Frames(m, t, level, lo, which)
  {
  }

  lemma {:induction false} LeavesOrder(m: Memory, t: nat, level: nat, lo: nat)
    requires 1 <= level <= 4
    ensures Frames(m, t, level, lo, NoLeaves) <= Frames(m, t, level, lo, WritableLeaves)
    ensures Frames(m, t, level, lo, WritableLeaves) <= Frames(m, t, level, lo, AllLeaves)
    decreases level
  {
    forall i | lo <= i < ENTRIES
      ensures FramesOf(m, Get(m, t)[i], level, NoLeaves) <= FramesOf(m, Get(m, t)[i], level, WritableLeaves)
      ensures FramesOf(m, Get(m, t)[i], level, WritableLeaves) <= FramesOf(m, Get(m, t)[i], level, AllLeaves)
    {
      if level > 1 {
        LeavesOrder(m, Get(m, t)[i].addr, level - 1, 0);
      }
    }
  }

  /** What a tree maps and owns depends only on its table frames. */
  lemma {:induction false} TreeFrame(m: Memory, m': Memory, t: nat, level: nat, lo: nat, own: Leaves)
    requires 1 <= level <= 4
    requires forall i :: lo <= i < ENTRIES ==> Get(m', t)[i] == Get(m, t)[i]
    requires SameOn(m, m', Frames(m, t, level, lo, NoLeaves))
    ensures Tree(m, t, level, lo, own) ==> Tree(m', t, level, lo, own)
    ensures forall which :: Frames(m', t, level, lo, which) == Frames(m, t, level, lo, which)
    ensures forall a: LinearAddress :: a.Part(level) >= lo ==> Lookup(m', t, level, a) == Lookup(m, t, level, a)
    decreases level, 1
  {
    forall i | lo <= i < ENTRIES
      ensures EntryOk(m, Get(m, t)[i], level, own) ==> EntryOk(m', Get(m, t)[i], level, own)
      ensures forall which :: FramesOf(m', Get(m, t)[i], level, which) == FramesOf(m, Get(m, t)[i], level, which)
      ensures forall a: LinearAddress :: LookupOf(m', Get(m, t)[i], level, a) == LookupOf(m, Get(m, t)[i], level, a)
    {
      EntryFrame(m, m', Get(m, t)[i], level, own);
    }
  }

  lemma {:induction false} EntryFrame(m: Memory, m': Memory, e: PageMapEntry, level: nat, own: Leaves)
    requires 1 <= level <= 4
    requires SameOn(m, m', FramesOf(m, e, level, NoLeaves))
    ensures EntryOk(m, e, level, own) ==> EntryOk(m', e, level, own)
    ensures forall which :: FramesOf(m', e, level, which) == FramesOf(m, e, level, which)
    ensures forall a: LinearAddress :: LookupOf(m', e, level, a) == LookupOf(m, e, level, a)
    decreases level, 0
  {
    if e.present && level > 1 {
      TreeFrame(m, m', e.addr, level - 1, 0, own);
    }
  }

  /** Replacing one entry of a table, together with the subtree below it, by another that shares
      no frame with the rest of the tree. */
  lemma {:induction false} ReplaceEntry(m: Memory, m': Memory, t: nat, level: nat, lo: nat, own: Leaves, i: nat)
    requires 1 <= level <= 4 && lo <= i < ENTRIES
    requires Tree(m, t, level, lo, own)
    requires forall j :: lo <= j < ENTRIES && j != i ==> Get(m', t)[j] == Get(m, t)[j]
    requires forall j :: lo <= j < ENTRIES && j != i ==> SameOn(m, m', FramesOf(m, Get(m, t)[j], level, NoLeaves))
    requires EntryOk(m', Get(m', t)[i], level, own)
    requires t !in FramesOf(m', Get(m', t)[i], level, own)
    requires forall f :: f in FramesOf(m', Get(m', t)[i], level, own) ==>
      f in FramesOf(m, Get(m, t)[i], level, own) || f !in Frames(m, t, level, lo, own)
    ensures Tree(m', t, level, lo, own)
    ensures forall which, j :: lo <= j < ENTRIES && j != i ==>
      FramesOf(m', Get(m', t)[j], level, which) == FramesOf(m, Get(m, t)[j], level, which)
    ensures forall a: LinearAddress :: a.Part(level) >= lo && a.Part(level) != i ==>
      Lookup(m', t, level, a) == Lookup(m, t, level, a)
  {
    forall j | lo <= j < ENTRIES && j != i
      ensures EntryOk(m', Get(m', t)[j], level, own)
      ensures forall which :: FramesOf(m', Get(m', t)[j], level, which) == FramesOf(m, Get(m, t)[j], level, which)
      ensures forall a: LinearAddress :: LookupOf(m', Get(m', t)[j], level, a) == LookupOf(m, Get(m, t)[j], level, a)
    {
      EntryFrame(m, m', Get(m, t)[j], level, own);
      FramesOfSubset(m, t, level, lo, own, j);
    }
  }

  /** How far a page is from the end of its table, and from the end of the table below. */
  lemma PageNumberBounds(a: LinearAddress, level: nat)
    requires 1 <= level <= 4
    ensures a.PageNumber(level - 1) < PagesBelow(level - 1)
    ensures var toEnd, below := PagesBelow(level) - a.PageNumber(level), PagesBelow(level - 1) - a.PageNumber(level - 1);
      if a.Part(level) == 511 then toEnd == below else toEnd >= below + PagesBelow(level - 1)
  {
  }

  lemma ZeroBelow(a: LinearAddress, level: nat)
    requires level <= 4
    requires forall k :: 1 <= k <= level ==> a.Part(k) == 0
    ensures a.PageNumber(level) == 0
  {
    assert level >= 1 ==> a.Part(1) == 0;
    assert level >= 2 ==> a.Part(2) == 0;
    assert level >= 3 ==> a.Part(3) == 0;
    assert level >= 4 ==> a.Part(4) == 0;
  }

  // ---------------------------------------------------------------- leaves

  ghost predicate OwnedLeaf(e: PageMapEntry, own: Leaves) {
    e.present && (own.AllLeaves? || (own.WritableLeaves? && e.writable))
  }

  /** A leaf that counts as owned is a frame of the tree, and is not one of its tables. */
  lemma {:induction false} LeafFrame(m: Memory, t: nat, level: nat, lo: nat, own: Leaves, a: LinearAddress)
    requires 1 <= level <= 4 && lo <= a.Part(level)
    requires Tree(m, t, level, lo, own)
    requires OwnedLeaf(Lookup(m, t, level, a), own)
    ensures Lookup(m, t, level, a).addr in FramesOf(m, Get(m, t)[a.Part(level)], level, own)
    ensures Lookup(m, t, level, a).addr in Frames(m, t, level, lo, own)
    ensures Lookup(m, t, level, a).addr !in {t} + Frames(m, t, level, lo, NoLeaves)
    decreases level
  {
    var i := a.Part(level);
    var e := Get(m, t)[i];
    var leaf := Lookup(m, t, level, a).addr;
    if level > 1 {
      LeafFrame(m, e.addr, level - 1, 0, own, a);
    }
    assert leaf in FramesOf(m, e, level, own) && leaf !in FramesOf(m, e, level, NoLeaves);
    OutsideTables(m, t, level, lo, own, i, leaf);
  }

  lemma OutsideTables(m: Memory, t: nat, level: nat, lo: nat, own: Leaves, i: Index, f: nat)
    requires 1 <= level <= 4 && lo <= i && Tree(m, t, level, lo, own)
    requires f in FramesOf(m, Get(m, t)[i], level, own) && f !in FramesOf(m, Get(m, t)[i], level, NoLeaves)
    ensures f in Frames(m, t, level, lo, own) && f !in {t} + Frames(m, t, level, lo, NoLeaves)
  {
    hide EntryOk;
    forall j | lo <= j < ENTRIES ensures f !in FramesOf(m, Get(m, t)[j], level, NoLeaves) {
      if j != i {
        EntryLeavesOrder(m, Get(m, t)[j], level);
        assert FramesOf(m, Get(m, t)[j], level, own) !! FramesOf(m, Get(m, t)[i], level, own);
      }
    }
  }

  /** Two different pages are never backed by one frame that the tree owns. */
  lemma {:induction false} DistinctPages(m: Memory, t: nat, level: nat, lo: nat, own: Leaves, a: LinearAddress, b: LinearAddress)
    requires 1 <= level <= 4 && lo <= a.Part(level) && lo <= b.Part(level)
    requires Tree(m, t, level, lo, own)
    requires !SamePage(a, b, level)
    requires OwnedLeaf(Lookup(m, t, level, a), own) && OwnedLeaf(Lookup(m, t, level, b), own)
    ensures Lookup(m, t, level, a).addr != Lookup(m, t, level, b).addr
    decreases level
  {
    hide Frames, FramesOf;
    LeafFrame(m, t, level, lo, own, a);
    LeafFrame(m, t, level, lo, own, b);
    var i, j := a.Part(level), b.Part(level);
    if i == j {
      assert level > 1;
      assert EntryOk(m, Get(m, t)[i], level, own);
      DistinctPages(m, Get(m, t)[i].addr, level - 1, 0, own, a, b);
    } else {
      assert FramesOf(m, Get(m, t)[i], level, own) !! FramesOf(m, Get(m, t)[j], level, own);
    }
  }

  /** A frame of a tree that is not one of its tables is that of a page. */
  lemma {:induction false} PageOfFrame(m: Memory, t: nat, level: nat, lo: nat, own: Leaves, f: nat)
    returns (a: LinearAddress)
    requires 1 <= level <= 4
    requires f in Frames(m, t, level, lo, own) && f !in Frames(m, t, level, lo, NoLeaves)
    ensures a.Part(level) >= lo && OwnedLeaf(Lookup(m, t, level, a), own) && Lookup(m, t, level, a).addr == f
    decreases level
  {
    var i :| lo <= i < ENTRIES && f in FramesOf(m, Get(m, t)[i], level, own);
    FramesOfSubset(m, t, level, lo, NoLeaves, i);
    a := LinearAddress(0, 0, 0, 0);
    if level > 1 {
      var below := PageOfFrame(m, Get(m, t)[i].addr, level - 1, 0, own, f);
      SamePartsBelow(m, Get(m, t)[i].addr, level - 1, below, below.SetPart(level, i));
      a := below;
    }
    a := a.SetPart(level, i);
  }

  lemma EntryLeavesOrder(m: Memory, e: PageMapEntry, level: nat)
    requires 1 <= level <= 4
    ensures FramesOf(m, e, level, NoLeaves) <= FramesOf(m, e, level, WritableLeaves)
    ensures FramesOf(m, e, level, WritableLeaves) <= FramesOf(m, e, level, AllLeaves)
  {
    if e.present && level > 1 {
      LeavesOrder(m, e.addr, level - 1, 0);
    }
  }

  /** A frame reached when all leaves count is a table or the frame of some mapped page. */
  lemma {:induction false} PresentLeaf(m: Memory, t: nat, level: nat, lo: nat, a: LinearAddress)
    requires 1 <= level <= 4 && lo <= a.Part(level)
    requires Lookup(m, t, level, a).present
    ensures Lookup(m, t, level, a).addr in Frames(m, t, level, lo, AllLeaves)
    decreases level
  {
    var e := Get(m, t)[a.Part(level)];
    if level > 1 {
      PresentLeaf(m, e.addr, level - 1, 0, a);
    }
    FramesOfSubset(m, t, level, lo, AllLeaves, a.Part(level));
  }

  // ---------------------------------------------------------------- extending a tree

  /** The frame sets of a tree that it keeps track of: its tables, what it owns, and what it reaches. */
  ghost predicate Tracks(own: Leaves, which: Leaves) {
    which == own || !which.WritableLeaves?
  }

  /** From m0 to m1 the tree at t only gained frames that were free in used0, all of them are
      allocated now, and nothing else that was allocated changed except tables of the tree. */
  ghost predicate Extended(m0: Memory, m1: Memory, used0: set<nat>, used1: set<nat>,
                           t: nat, level: nat, lo: nat, own: Leaves)
    requires 1 <= level <= 4
  {
    && Tree(m1, t, level, lo, own)
    && (forall which :: Tracks(own, which) ==> Frames(m0, t, level, lo, which) <= Frames(m1, t, level, lo, which))
    && (forall which :: Tracks(own, which) ==> (Frames(m1, t, level, lo, which) - Frames(m0, t, level, lo, which)) !! used0)
    && Frames(m1, t, level, lo, AllLeaves) - Frames(m0, t, level, lo, AllLeaves) <= Frames(m1, t, level, lo, own)
    && used1 == used0 + Frames(m1, t, level, lo, AllLeaves)
    && SameOn(m0, m1, used0 - ({t} + Frames(m0, t, level, lo, NoLeaves)))
  }

  /** Mapping one page: a page already there keeps its frame; otherwise it is a zeroed frame that was free. */
  ghost predicate PageMapped(e0: PageMapEntry, e1: PageMapEntry, m1: Memory, used0: set<nat>, writable: bool) {
    && e1.present && e1.user && e1.writable == writable
    && if e0.present then e1 == e0.(writable := writable) else e1.addr !in used0 && Get(m1, e1.addr) == ZeroPage()
  }

  ghost predicate InRange(a: LinearAddress, level: nat, first: nat, k: nat)
    requires 1 <= level <= 4
  {
    first <= a.PageNumber(level) < first + k
  }

  /** Exactly the k pages from number first on were mapped; every other translation is unchanged. */
  ghost predicate RangeMapped(m0: Memory, m1: Memory, used0: set<nat>, t: nat, level: nat, lo: nat,
                              first: nat, k: nat, writable: bool)
    requires 1 <= level <= 4
  {
    forall a: LinearAddress :: a.Part(level) >= lo ==>
      if InRange(a, level, first, k)
      then PageMapped(Lookup(m0, t, level, a), Lookup(m1, t, level, a), m1, used0, writable)
      else Lookup(m1, t, level, a) == Lookup(m0, t, level, a)
  }

  /** The pages of the range that are already present have the wanted permission. */
  ghost predicate Permits(m: Memory, t: nat, level: nat, lo: nat, first: nat, n: nat, writable: bool)
    requires 1 <= level <= 4
  {
    forall a: LinearAddress :: a.Part(level) >= lo && InRange(a, level, first, n) ==>
      Lookup(m, t, level, a).present ==> Lookup(m, t, level, a).writable == writable
  }

  lemma ExtendedSelf(m: Memory, used: set<nat>, t: nat, level: nat, lo: nat, own: Leaves,
                     first: nat, n: nat, writable: bool)
    requires 1 <= level <= 4
    requires Tree(m, t, level, lo, own) && Frames(m, t, level, lo, AllLeaves) <= used
    ensures Extended(m, m, used, used, t, level, lo, own)
    ensures RangeMapped(m, m, used, t, level, lo, first, 0, writable)
  {
  }

  lemma StillPermits(m0: Memory, m1: Memory, used0: set<nat>, t: nat, level: nat, lo: nat,
                     first: nat, k: nat, n: nat, writable: bool)
    requires 1 <= level <= 4 && k <= n
    requires Permits(m0, t, level, lo, first, n, writable)
    requires RangeMapped(m0, m1, used0, t, level, lo, first, k, writable)
    ensures Permits(m1, t, level, lo, first + k, n - k, writable)
  {
  }

  lemma ExtendedTwice(m0: Memory, m1: Memory, m2: Memory, used0: set<nat>, used1: set<nat>, used2: set<nat>,
                      t: nat, level: nat, lo: nat, own: Leaves)
    requires 1 <= level <= 4
    requires {t} + Frames(m0, t, level, lo, AllLeaves) <= used0
    requires Extended(m0, m1, used0, used1, t, level, lo, own)
    requires Extended(m1, m2, used1, used2, t, level, lo, own)
    ensures Extended(m0, m2, used0, used2, t, level, lo, own)
  {
  }

  lemma MappedTwice(m0: Memory, m1: Memory, m2: Memory, used0: set<nat>, used1: set<nat>, used2: set<nat>,
                    t: nat, level: nat, lo: nat, own: Leaves, first: nat, k: nat, l: nat, writable: bool)
    requires 1 <= level <= 4 && (own.AllLeaves? || (writable && own.WritableLeaves?))
    requires {t} + Frames(m0, t, level, lo, AllLeaves) <= used0
    requires Extended(m0, m1, used0, used1, t, level, lo, own)
    requires Extended(m1, m2, used1, used2, t, level, lo, own)
    requires RangeMapped(m0, m1, used0, t, level, lo, first, k, writable)
    requires RangeMapped(m1, m2, used1, t, level, lo, first + k, l, writable)
    ensures RangeMapped(m0, m2, used0, t, level, lo, first, k + l, writable)
  {
    hide Tree, Frames, Lookup;
    forall a: LinearAddress | a.Part(level) >= lo && InRange(a, level, first, k)
      ensures PageMapped(Lookup(m0, t, level, a), Lookup(m2, t, level, a), m2, used0, writable)
    {
      LeafFrame(m1, t, level, lo, own, a);
      PresentLeaf(m1, t, level, lo, a);
    }
  }

  /** The state after one entry of t was filled: a present entry keeps its frame, an absent one
      gets the free frame f, zeroed. */
  ghost predicate EntryFilled(m0: Memory, m1: Memory, used0: set<nat>, used1: set<nat>,
                              t: nat, i: Index, writable: bool, f: nat) {
    var e0 := Get(m0, t)[i];
    var page := Get(m0, t)[i := e0.(present := true, writable := writable, user := true, addr := f)];
    && Get(m1, t) == page
    && (if e0.present then f == e0.addr && used1 == used0
        else f !in used0 && used1 == used0 + {f} && Get(m1, f) == ZeroPage())
    && (forall g :: g != t && (e0.present || g != f) ==> Get(m1, g) == Get(m0, g))
  }

  /** One entry of t, and the subtree below it, gained only frames that were free. */
  ghost predicate EntryExtended(m0: Memory, m1: Memory, used0: set<nat>, used1: set<nat>,
                                t: nat, level: nat, i: Index, own: Leaves)
    requires 1 <= level <= 4
  {
    var e0, e1 := Get(m0, t)[i], Get(m1, t)[i];
    && (forall j: Index :: j != i ==> Get(m1, t)[j] == Get(m0, t)[j])
    && EntryOk(m1, e1, level, own)
    && (forall which :: Tracks(own, which) ==> FramesOf(m0, e0, level, which) <= FramesOf(m1, e1, level, which))
    && (forall which :: Tracks(own, which) ==> (FramesOf(m1, e1, level, which) - FramesOf(m0, e0, level, which)) !! used0)
    && FramesOf(m1, e1, level, AllLeaves) - FramesOf(m0, e0, level, AllLeaves) <= FramesOf(m1, e1, level, own)
    && used1 == used0 + FramesOf(m1, e1, level, AllLeaves)
    && SameOn(m0, m1, used0 - ({t} + FramesOf(m0, e0, level, NoLeaves)))
  }

  lemma SiblingTables(m: Memory, t: nat, level: nat, lo: nat, own: Leaves, i: nat, j: nat)
    requires 1 <= level <= 4 && lo <= i < ENTRIES && lo <= j < ENTRIES && i != j
    requires Tree(m, t, level, lo, own) && !own.NoLeaves?
    ensures t !in FramesOf(m, Get(m, t)[j], level, NoLeaves)
    ensures FramesOf(m, Get(m, t)[j], level, NoLeaves) !! FramesOf(m, Get(m, t)[i], level, NoLeaves)
    ensures FramesOf(m, Get(m, t)[j], level, NoLeaves) <= Frames(m, t, level, lo, AllLeaves)
  {
    EntryLeavesOrder(m, Get(m, t)[i], level);
    EntryLeavesOrder(m, Get(m, t)[j], level);
    assert FramesOf(m, Get(m, t)[j], level, own) !! FramesOf(m, Get(m, t)[i], level, own);
  }

  lemma ExtendedByEntry(m0: Memory, m1: Memory, used0: set<nat>, used1: set<nat>,
                        t: nat, level: nat, lo: nat, own: Leaves, i: Index)
    requires 1 <= level <= 4 && lo <= i
    requires Tree(m0, t, level, lo, own) && {t} + Frames(m0, t, level, lo, AllLeaves) <= used0
    requires !own.NoLeaves?
    requires EntryExtended(m0, m1, used0, used1, t, level, i, own)
    ensures Extended(m0, m1, used0, used1, t, level, lo, own)
    ensures forall a: LinearAddress :: a.Part(level) >= lo && a.Part(level) != i ==>
      Lookup(m1, t, level, a) == Lookup(m0, t, level, a)
  {
    forall j | lo <= j < ENTRIES && j != i
      ensures SameOn(m0, m1, FramesOf(m0, Get(m0, t)[j], level, NoLeaves))
    {
      SiblingTables(m0, t, level, lo, own, i, j);
    }
    OwnedWithinAll(m0, t, level, lo, own);
    ReplaceEntry(m0, m1, t, level, lo, own, i);
    FramesReplaced(m0, m1, t, level, lo, i);
    forall which ensures FramesOf(m0, Get(m0, t)[i], level, which) <= Frames(m0, t, level, lo, which) {
      FramesOfSubset(m0, t, level, lo, which, i);
    }
    FrameSets(m0, m1, used0, used1, t, level, lo, own, i);
  }

  lemma OwnedWithinAll(m: Memory, t: nat, level: nat, lo: nat, own: Leaves)
    requires 1 <= level <= 4
    ensures Frames(m, t, level, lo, own) <= Frames(m, t, level, lo, AllLeaves)
  {
    LeavesOrder(m, t, level, lo);
  }

  /** When the other entries keep their frames, the tree's frames change only by that entry's. */
  lemma FramesReplaced(m0: Memory, m1: Memory, t: nat, level: nat, lo: nat, i: nat)
    requires 1 <= level <= 4 && lo <= i < ENTRIES
    requires forall which, j :: lo <= j < ENTRIES && j != i ==>
      FramesOf(m1, Get(m1, t)[j], level, which) == FramesOf(m0, Get(m0, t)[j], level, which)
    ensures forall which :: Frames(m1, t, level, lo, which) <=
                            Frames(m0, t, level, lo, which) + FramesOf(m1, Get(m1, t)[i], level, which)
    ensures forall which :: Frames(m0, t, level, lo, which) <=
                            Frames(m1, t, level, lo, which) + FramesOf(m0, Get(m0, t)[i], level, which)
    ensures forall which :: FramesOf(m1, Get(m1, t)[i], level, which) <= Frames(m1, t, level, lo, which)
  {
  }

  lemma FrameSets(m0: Memory, m1: Memory, used0: set<nat>, used1: set<nat>,
                  t: nat, level: nat, lo: nat, own: Leaves, i: Index)
    requires 1 <= level <= 4 && lo <= i
    requires Frames(m0, t, level, lo, AllLeaves) <= used0
    requires forall which :: FramesOf(m0, Get(m0, t)[i], level, which) <= Frames(m0, t, level, lo, which)
    requires EntryExtended(m0, m1, used0, used1, t, level, i, own)
    requires Tree(m1, t, level, lo, own)
    requires forall which :: Frames(m1, t, level, lo, which) <=
                             Frames(m0, t, level, lo, which) + FramesOf(m1, Get(m1, t)[i], level, which)
    requires forall which :: Frames(m0, t, level, lo, which) <=
                             Frames(m1, t, level, lo, which) + FramesOf(m0, Get(m0, t)[i], level, which)
    requires forall which :: FramesOf(m1, Get(m1, t)[i], level, which) <= Frames(m1, t, level, lo, which)
    ensures Extended(m0, m1, used0, used1, t, level, lo, own)
  {
    hide Tree, Frames, FramesOf, EntryOk;
    assert forall which :: Tracks(own, which) ==> (Frames(m1, t, level, lo, which) - Frames(m0, t, level, lo, which)) !! used0 by {
      forall which | Tracks(own, which) ensures (Frames(m1, t, level, lo, which) - Frames(m0, t, level, lo, which)) !! used0 {
        assert Frames(m1, t, level, lo, which) - Frames(m0, t, level, lo, which) <= FramesOf(m1, Get(m1, t)[i], level, which);
      }
    }
  }

  /** A range that lies below one entry of t is mapped once it is mapped below that entry. */
  lemma RangeByEntry(m0: Memory, m1: Memory, used0: set<nat>, t: nat, level: nat, lo: nat,
                     addr: LinearAddress, k: nat, writable: bool)
    requires 1 <= level <= 4 && lo <= addr.Part(level)
    requires k <= PagesBelow(level - 1) - addr.PageNumber(level - 1)
    requires forall a: LinearAddress :: a.Part(level) >= lo && a.Part(level) != addr.Part(level) ==>
      Lookup(m1, t, level, a) == Lookup(m0, t, level, a)
    requires forall a: LinearAddress :: a.Part(level) == addr.Part(level) ==>
      if addr.PageNumber(level - 1) <= a.PageNumber(level - 1) < addr.PageNumber(level - 1) + k
      then PageMapped(Lookup(m0, t, level, a), Lookup(m1, t, level, a), m1, used0, writable)
      else Lookup(m1, t, level, a) == Lookup(m0, t, level, a)
    ensures RangeMapped(m0, m1, used0, t, level, lo, addr.PageNumber(level), k, writable)
  {
    hide Lookup;
  }

  lemma LeafMapped(m0: Memory, m1: Memory, used0: set<nat>, used1: set<nat>, t: nat, lo: nat, own: Leaves,
                   addr: LinearAddress, n: nat, writable: bool, f: nat)
    requires lo <= addr.Part(1) && n > 0
    requires own.AllLeaves? || (writable && own.WritableLeaves?)
    requires Tree(m0, t, 1, lo, own) && {t} + Frames(m0, t, 1, lo, AllLeaves) <= used0
    requires own.AllLeaves? || Permits(m0, t, 1, lo, addr.PageNumber(1), n, writable)
    requires EntryFilled(m0, m1, used0, used1, t, addr.Part(1), writable, f)
    ensures Extended(m0, m1, used0, used1, t, 1, lo, own)
    ensures RangeMapped(m0, m1, used0, t, 1, lo, addr.PageNumber(1), 1, writable)
  {
    var i := addr.Part(1);
    var e0 := Get(m0, t)[i];
    FramesOfSubset(m0, t, 1, lo, AllLeaves, i);
    if e0.present {
      assert InRange(addr, 1, addr.PageNumber(1), n) && Lookup(m0, t, 1, addr) == e0;
      assert EntryOk(m0, e0, 1, own);
      assert Get(m1, t)[i] == e0.(writable := writable);
    }
    assert EntryExtended(m0, m1, used0, used1, t, 1, i, own);
    ExtendedByEntry(m0, m1, used0, used1, t, 1, lo, own, i);
    RangeByEntry(m0, m1, used0, t, 1, lo, addr, 1, writable);
  }

  lemma EmptyTable(m: Memory, t: nat, level: nat, lo: nat, own: Leaves)
    requires 1 <= level <= 4
    requires forall i :: lo <= i < ENTRIES ==> !Get(m, t)[i].present
    ensures Tree(m, t, level, lo, own)
    ensures forall which :: Frames(m, t, level, lo, which) == {}
    ensures forall a: LinearAddress :: a.Part(level) >= lo ==> Lookup(m, t, level, a) == ZERO
  {
  }

  lemma ChildPermits(m: Memory, t: nat, level: nat, lo: nat, addr: LinearAddress, n: nat, writable: bool)
    requires 2 <= level <= 4 && lo <= addr.Part(level)
    requires Permits(m, t, level, lo, addr.PageNumber(level), n, writable)
    requires Get(m, t)[addr.Part(level)].present
    ensures Permits(m, Get(m, t)[addr.Part(level)].addr, level - 1, 0, addr.PageNumber(level - 1), n, writable)
  {
    var f := Get(m, t)[addr.Part(level)].addr;
    var below, first := level - 1, addr.PageNumber(level - 1);
    forall a: LinearAddress | InRange(a, below, first, n)
      ensures Lookup(m, f, below, a).present ==> Lookup(m, f, below, a).writable == writable
    {
      var b := a.SetPart(level, addr.Part(level));
      SamePartsBelow(m, f, below, a, b);
      assert InRange(b, level, addr.PageNumber(level), n);
      assert Lookup(m, t, level, b) == Lookup(m, f, below, b);
    }
  }

  /** A lookup below a table of some level only uses the parts up to that level. */
  lemma {:induction false} SamePartsBelow(m: Memory, t: nat, level: nat, a: LinearAddress, b: LinearAddress)
    requires 1 <= level <= 4
    requires forall k :: 1 <= k <= level ==> a.Part(k) == b.Part(k)
    ensures Lookup(m, t, level, a) == Lookup(m, t, level, b)
    ensures a.PageNumber(level) == b.PageNumber(level)
    decreases level
  {
    var e := Get(m, t)[a.Part(level)];
    if level > 1 {
      SamePartsBelow(m, e.addr, level - 1, a, b);
    }
  }

  /** Why the permission of pages that are already present matters: when a range was mapped as writable,
      the frames that count as owned since then were all free before if and only if every page of the
      range that was present was writable already. */
  lemma RemappingTakesFrames(m0: Memory, m1: Memory, used0: set<nat>, used1: set<nat>, t: nat, level: nat, lo: nat,
                             first: nat, k: nat)
    requires 1 <= level <= 4
    requires Tree(m0, t, level, lo, AllLeaves) && {t} + Frames(m0, t, level, lo, AllLeaves) <= used0
    requires Extended(m0, m1, used0, used1, t, level, lo, AllLeaves)
    requires RangeMapped(m0, m1, used0, t, level, lo, first, k, true)
    ensures (Frames(m1, t, level, lo, WritableLeaves) - Frames(m0, t, level, lo, WritableLeaves)) !! used0 <==>
            Permits(m0, t, level, lo, first, k, true)
  {
    hide Tree, Frames, Lookup;
    if Permits(m0, t, level, lo, first, k, true) {
      forall f | f in Frames(m1, t, level, lo, WritableLeaves) && f in used0
        ensures f in Frames(m0, t, level, lo, WritableLeaves)
      {
        LeavesOrder(m0, t, level, lo);
        if f !in Frames(m1, t, level, lo, NoLeaves) {
          var a := PageOfFrame(m1, t, level, lo, WritableLeaves, f);
          WritablePage(m0, t, level, lo, a);
        }
      }
    } else {
      var a: LinearAddress :| a.Part(level) >= lo && InRange(a, level, first, k)
        && Lookup(m0, t, level, a).present && !Lookup(m0, t, level, a).writable;
      PresentLeaf(m0, t, level, lo, a);
      WritablePage(m1, t, level, lo, a);
      ReadOnlyPage(m0, t, level, lo, a);
    }
  }

  /** The frame of a writable page counts as owned. */
  lemma {:induction false} WritablePage(m: Memory, t: nat, level: nat, lo: nat, a: LinearAddress)
    requires 1 <= level <= 4 && lo <= a.Part(level)
    ensures OwnedLeaf(Lookup(m, t, level, a), WritableLeaves) ==>
      Lookup(m, t, level, a).addr in Frames(m, t, level, lo, WritableLeaves)
    decreases level
  {
    if level > 1 {
      WritablePage(m, Get(m, t)[a.Part(level)].addr, level - 1, 0, a);
    }
    FramesOfSubset(m, t, level, lo, WritableLeaves, a.Part(level));
  }

  /** Where all pages have frames of their own, the frame of a read-only page does not. */
  lemma ReadOnlyPage(m: Memory, t: nat, level: nat, lo: nat, a: LinearAddress)
    requires 1 <= level <= 4 && lo <= a.Part(level)
    requires Tree(m, t, level, lo, AllLeaves)
    requires Lookup(m, t, level, a).present && !Lookup(m, t, level, a).writable
    ensures Lookup(m, t, level, a).addr !in Frames(m, t, level, lo, WritableLeaves)
  {
    hide Tree, Frames, Lookup;
    var f := Lookup(m, t, level, a).addr;
    LeafFrame(m, t, level, lo, AllLeaves, a);
    if f in Frames(m, t, level, lo, WritableLeaves) {
      var b := PageOfFrame(m, t, level, lo, WritableLeaves, f);
      if SamePage(a, b, level) {
        SamePartsBelow(m, t, level, a, b);
      } else {
        DistinctPages(m, t, level, lo, AllLeaves, a, b);
      }
    }
  }

  /** A fresh lower table maps nothing, so no translation changes. */
  lemma TableAdded(m0: Memory, m1: Memory, used0: set<nat>, used1: set<nat>, t: nat, level: nat, lo: nat, own: Leaves,
                   addr: LinearAddress, n: nat, writable: bool, f: nat)
    requires 2 <= level <= 4 && lo <= addr.Part(level) && !own.NoLeaves?
    requires Tree(m0, t, level, lo, own) && {t} + Frames(m0, t, level, lo, AllLeaves) <= used0
    requires own.AllLeaves? || Permits(m0, t, level, lo, addr.PageNumber(level), n, writable)
    requires EntryFilled(m0, m1, used0, used1, t, addr.Part(level), true, f)
    ensures Extended(m0, m1, used0, used1, t, level, lo, own)
    ensures RangeMapped(m0, m1, used0, t, level, lo, addr.PageNumber(level), 0, writable)
    ensures Get(m1, t)[addr.Part(level)].present && Get(m1, t)[addr.Part(level)].addr == f
    ensures Tree(m1, t, level, lo, own) && {t} + Frames(m1, t, level, lo, AllLeaves) <= used1
    ensures Tree(m1, f, level - 1, 0, own) && {f} + Frames(m1, f, level - 1, 0, AllLeaves) <= used1
    ensures own.AllLeaves? || Permits(m1, f, level - 1, 0, addr.PageNumber(level - 1), n, writable)
  {
    var i := addr.Part(level);
    hide Frames;
    PageNumberBounds(addr, level);
    TableEntry(m0, m1, used0, used1, t, level, lo, own, i, f);
    ExtendedByEntry(m0, m1, used0, used1, t, level, lo, own, i);
    RangeByEntry(m0, m1, used0, t, level, lo, addr, 0, writable);
    if !own.AllLeaves? {
      StillPermits(m0, m1, used0, t, level, lo, addr.PageNumber(level), 0, n, writable);
      ChildPermits(m1, t, level, lo, addr, n, writable);
    }
  }

  lemma TableEntry(m0: Memory, m1: Memory, used0: set<nat>, used1: set<nat>, t: nat, level: nat, lo: nat, own: Leaves,
                   i: Index, f: nat)
    requires 2 <= level <= 4 && lo <= i && !own.NoLeaves?
    requires Tree(m0, t, level, lo, own) && {t} + Frames(m0, t, level, lo, AllLeaves) <= used0
    requires EntryFilled(m0, m1, used0, used1, t, i, true, f)
    ensures EntryExtended(m0, m1, used0, used1, t, level, i, own)
    ensures forall a: LinearAddress :: a.Part(level) == i ==> Lookup(m1, t, level, a) == Lookup(m0, t, level, a)
    ensures Tree(m1, f, level - 1, 0, own) && {f} + Frames(m1, f, level - 1, 0, AllLeaves) <= used1
  {
    hide Tree, Frames;
    var e0 := Get(m0, t)[i];
    EntryFacts(m0, t, level, lo, own, i);
    EntryLeavesOrder(m0, e0, level);
    if e0.present {
      assert Get(m1, t) == Get(m0, t);
      assert forall g :: Get(m1, g) == Get(m0, g);
      EntryFrame(m0, m1, e0, level, own);
    } else {
      EmptyTable(m1, f, level - 1, 0, own);
      assert EntryOk(m1, Get(m1, t)[i], level, own);
      assert forall which :: FramesOf(m1, Get(m1, t)[i], level, which) == {f} + Frames(m1, f, level - 1, 0, which);
      assert forall which :: FramesOf(m1, Get(m1, t)[i], level, which) == {f};
      assert SameOn(m0, m1, used0 - ({t} + FramesOf(m0, e0, level, NoLeaves)));
      assert forall j: Index :: j != i ==> Get(m1, t)[j] == Get(m0, t)[j];
      assert    (forall which :: FramesOf(m0, e0, level, which) <= FramesOf(m1, Get(m1, t)[i], level, which));
    }
  }

  lemma SubtreeEntry(m0: Memory, m1: Memory, used0: set<nat>, used1: set<nat>, t: nat, level: nat, own: Leaves, i: Index)
    requires 2 <= level <= 4 && !own.NoLeaves?
    requires Get(m0, t)[i].present && EntryOk(m0, Get(m0, t)[i], level, own)
    requires t in used0 && t !in FramesOf(m0, Get(m0, t)[i], level, NoLeaves)
    requires Get(m0, t)[i].addr in used0
    requires Extended(m0, m1, used0, used1, Get(m0, t)[i].addr, level - 1, 0, own)
    ensures Get(m1, t) == Get(m0, t)
    ensures EntryExtended(m0, m1, used0, used1, t, level, i, own)
  {
    hide Tree, Frames;
    var e := Get(m0, t)[i];
    assert FramesOf(m0, e, level, NoLeaves) == {e.addr} + Frames(m0, e.addr, level - 1, 0, NoLeaves);
    assert Get(m1, t) == Get(m0, t);
    forall which
      ensures FramesOf(m0, e, level, which) == {e.addr} + Frames(m0, e.addr, level - 1, 0, which)
      ensures FramesOf(m1, e, level, which) == {e.addr} + Frames(m1, e.addr, level - 1, 0, which)
    {
    }
  }

  lemma SubtreeMapped(m0: Memory, m1: Memory, used0: set<nat>, used1: set<nat>, t: nat, level: nat, lo: nat, own: Leaves,
                      addr: LinearAddress, k: nat, writable: bool)
    requires 2 <= level <= 4 && lo <= addr.Part(level) && !own.NoLeaves?
    requires Tree(m0, t, level, lo, own) && {t} + Frames(m0, t, level, lo, AllLeaves) <= used0
    requires Get(m0, t)[addr.Part(level)].present
    requires k <= PagesBelow(level - 1) - addr.PageNumber(level - 1)
    requires var f := Get(m0, t)[addr.Part(level)].addr;
      && Extended(m0, m1, used0, used1, f, level - 1, 0, own)
      && RangeMapped(m0, m1, used0, f, level - 1, 0, addr.PageNumber(level - 1), k, writable)
    ensures Extended(m0, m1, used0, used1, t, level, lo, own)
    ensures RangeMapped(m0, m1, used0, t, level, lo, addr.PageNumber(level), k, writable)
  {
    hide Tree, Frames, FramesOf, EntryOk, Extended;
    var i := addr.Part(level);
    EntryFacts(m0, t, level, lo, own, i);
    SubtreeEntry(m0, m1, used0, used1, t, level, own, i);
    ExtendedByEntry(m0, m1, used0, used1, t, level, lo, own, i);
    RangeByEntry(m0, m1, used0, t, level, lo, addr, k, writable);
  }

  lemma EntryFacts(m: Memory, t: nat, level: nat, lo: nat, own: Leaves, i: Index)
    requires 1 <= level <= 4 && lo <= i && !own.NoLeaves?
    requires Tree(m, t, level, lo, own)
    ensures EntryOk(m, Get(m, t)[i], level, own)
    ensures t !in FramesOf(m, Get(m, t)[i], level, NoLeaves) && t !in FramesOf(m, Get(m, t)[i], level, own)
    ensures FramesOf(m, Get(m, t)[i], level, own) <= Frames(m, t, level, lo, own)
    ensures FramesOf(m, Get(m, t)[i], level, AllLeaves) <= Frames(m, t, level, lo, AllLeaves)
    ensures level > 1 && Get(m, t)[i].present ==> Get(m, t)[i].addr in Frames(m, t, level, lo, AllLeaves)
  {
    FramesOfSubset(m, t, level, lo, AllLeaves, i);
    EntryLeavesOrder(m, Get(m, t)[i], level);
  }

  // ---------------------------------------------------------------- cleaning

  lemma TailFrames(m: Memory, t: nat, level: nat, i: nat, which: Leaves)
    requires 1 <= level <= 4 && i < ENTRIES
    ensures Frames(m, t, level, i, which) == FramesOf(m, Get(m, t)[i], level, which) + Frames(m, t, level, i + 1, which)
  {
  }

  lemma TailTree(m: Memory, t: nat, level: nat, lo: nat, i: nat, own: Leaves)
    requires 1 <= level <= 4 && lo <= i < ENTRIES && !own.NoLeaves?
    requires Tree(m, t, level, lo, own)
    ensures Tree(m, t, level, i, own)
    ensures t !in Frames(m, t, level, i, own)
    ensures FramesOf(m, Get(m, t)[i], level, own) !! Frames(m, t, level, i + 1, own)
    ensures FramesOf(m, Get(m, t)[i], level, NoLeaves) !! Frames(m, t, level, i + 1, NoLeaves)
    ensures FramesOf(m, Get(m, t)[i], level, own) <= Frames(m, t, level, lo, own)
    ensures t !in Frames(m, t, level, i, NoLeaves)
    ensures Frames(m, t, level, i + 1, own) <= Frames(m, t, level, i, own) <= Frames(m, t, level, lo, own)
    ensures Frames(m, t, level, i, NoLeaves) <= Frames(m, t, level, lo, NoLeaves)
    ensures EntryOk(m, Get(m, t)[i], level, own)
  {
    forall j | i <= j < ENTRIES
      ensures FramesOf(m, Get(m, t)[j], level, NoLeaves) <= FramesOf(m, Get(m, t)[j], level, own)
    {
      EntryLeavesOrder(m, Get(m, t)[j], level);
    }
  }

  lemma NoFramesPastEnd(m: Memory, t: nat, level: nat, which: Leaves)
    requires 1 <= level <= 4
    ensures Frames(m, t, level, ENTRIES, which) == {}
  {
  }

  lemma RootOutside(m: Memory, t: nat, level: nat, lo: nat, own: Leaves)
    requires 1 <= level <= 4 && !own.NoLeaves?
    requires Tree(m, t, level, lo, own)
    ensures t !in Frames(m, t, level, lo, own)
    ensures t !in Frames(m, t, level, lo, NoLeaves)
  {
    LeavesOrder(m, t, level, lo);
  }

  // ---------------------------------------------------------------- replacing one page

  predicate SamePage(a: LinearAddress, b: LinearAddress, level: nat)
    requires 1 <= level <= 4
  {
    forall k :: 1 <= k <= level ==> a.Part(k) == b.Part(k)
  }

  /** From m0 to m1 the read-only page at addr became a writable one in frame f; nothing else that
      the tree maps changed, and only its tables were written. */
  ghost predicate PageReplaced(m0: Memory, m1: Memory, t: nat, level: nat, lo: nat, addr: LinearAddress, f: nat)
    requires 1 <= level <= 4
  {
    && Tree(m1, t, level, lo, WritableLeaves)
    && Frames(m1, t, level, lo, NoLeaves) == Frames(m0, t, level, lo, NoLeaves)
    && Frames(m1, t, level, lo, WritableLeaves) == Frames(m0, t, level, lo, WritableLeaves) + {f}
    && Frames(m1, t, level, lo, AllLeaves) <= Frames(m0, t, level, lo, AllLeaves) + {f}
    && (forall g :: g != t && g !in Frames(m0, t, level, lo, NoLeaves) ==> Get(m1, g) == Get(m0, g))
    && (forall i: Index :: i != addr.Part(level) ==> Get(m1, t)[i] == Get(m0, t)[i])
    && (forall a: LinearAddress :: a.Part(level) >= lo ==>
          Lookup(m1, t, level, a) == if SamePage(a, addr, level) then Lookup(m0, t, level, a).(addr := f, writable := true)
                                     else Lookup(m0, t, level, a))
  }

  lemma LeafReplaced(m0: Memory, m1: Memory, t: nat, lo: nat, addr: LinearAddress, f: nat)
    requires lo <= addr.Part(1)
    requires Tree(m0, t, 1, lo, WritableLeaves)
    requires Lookup(m0, t, 1, addr).present && !Lookup(m0, t, 1, addr).writable
    requires f !in {t} + Frames(m0, t, 1, lo, WritableLeaves)
    requires Get(m1, t) == Get(m0, t)[addr.Part(1) := Get(m0, t)[addr.Part(1)].(addr := f, writable := true)]
    requires forall g :: g != t ==> Get(m1, g) == Get(m0, g)
    ensures PageReplaced(m0, m1, t, 1, lo, addr, f)
  {
    ReplaceEntry(m0, m1, t, 1, lo, WritableLeaves, addr.Part(1));
    FramesReplaced(m0, m1, t, 1, lo, addr.Part(1));
  }

  lemma SubtreeReplaced(m0: Memory, m1: Memory, t: nat, level: nat, lo: nat, addr: LinearAddress, f: nat)
    requires 2 <= level <= 4 && lo <= addr.Part(level)
    requires Tree(m0, t, level, lo, WritableLeaves)
    requires Get(m0, t)[addr.Part(level)].present
    requires f !in {t} + Frames(m0, t, level, lo, WritableLeaves)
    requires PageReplaced(m0, m1, Get(m0, t)[addr.Part(level)].addr, level - 1, 0, addr, f)
    ensures PageReplaced(m0, m1, t, level, lo, addr, f)
  {
    hide Tree, Frames, Lookup;
    var i := addr.Part(level);
    EntryFacts(m0, t, level, lo, WritableLeaves, i);
    FramesOfSubset(m0, t, level, lo, NoLeaves, i);
    assert Get(m1, t) == Get(m0, t);
    forall j | lo <= j < ENTRIES && j != i
      ensures SameOn(m0, m1, FramesOf(m0, Get(m0, t)[j], level, NoLeaves))
    {
      SiblingTables(m0, t, level, lo, WritableLeaves, i, j);
    }
    ReplaceEntry(m0, m1, t, level, lo, WritableLeaves, i);
    SubtreeReplacedFrames(m0, m1, t, level, lo, addr, f);
    SubtreeReplacedLookup(m0, m1, t, level, lo, addr, f);
  }

  lemma SubtreeReplacedFrames(m0: Memory, m1: Memory, t: nat, level: nat, lo: nat, addr: LinearAddress, f: nat)
    requires 2 <= level <= 4 && lo <= addr.Part(level)
    requires Get(m0, t)[addr.Part(level)].present && Get(m1, t) == Get(m0, t)
    requires PageReplaced(m0, m1, Get(m0, t)[addr.Part(level)].addr, level - 1, 0, addr, f)
    requires forall which, j :: lo <= j < ENTRIES && j != addr.Part(level) ==>
      FramesOf(m1, Get(m1, t)[j], level, which) == FramesOf(m0, Get(m0, t)[j], level, which)
    ensures Frames(m1, t, level, lo, NoLeaves) == Frames(m0, t, level, lo, NoLeaves)
    ensures Frames(m1, t, level, lo, WritableLeaves) == Frames(m0, t, level, lo, WritableLeaves) + {f}
    ensures Frames(m1, t, level, lo, AllLeaves) <= Frames(m0, t, level, lo, AllLeaves) + {f}
  {
    hide Frames, Tree, Lookup;
    var i := addr.Part(level);
    var e := Get(m0, t)[i];
    assert forall which :: FramesOf(m0, e, level, which) == {e.addr} + Frames(m0, e.addr, level - 1, 0, which);
    assert forall which :: FramesOf(m1, e, level, which) == {e.addr} + Frames(m1, e.addr, level - 1, 0, which);
    FramesReplaced(m0, m1, t, level, lo, i);
    FramesOfSubset(m0, t, level, lo, NoLeaves, i);
    FramesOfSubset(m0, t, level, lo, WritableLeaves, i);
    FramesOfSubset(m0, t, level, lo, AllLeaves, i);
    FramesOfSubset(m1, t, level, lo, WritableLeaves, i);
  }

  lemma SubtreeReplacedLookup(m0: Memory, m1: Memory, t: nat, level: nat, lo: nat, addr: LinearAddress, f: nat)
    requires 2 <= level <= 4 && lo <= addr.Part(level)
    requires Get(m0, t)[addr.Part(level)].present && Get(m1, t) == Get(m0, t)
    requires PageReplaced(m0, m1, Get(m0, t)[addr.Part(level)].addr, level - 1, 0, addr, f)
    ensures forall a: LinearAddress :: a.Part(level) == addr.Part(level) ==>
      Lookup(m1, t, level, a) == if SamePage(a, addr, level) then Lookup(m0, t, level, a).(addr := f, writable := true)
                                 else Lookup(m0, t, level, a)
  {
    hide Frames, Tree;
  }

  // ---------------------------------------------------------------- copying

  function ReadOnly(e: PageMapEntry): PageMapEntry {
    if e.present then e.(writable := false) else ZERO
  }

  /** From m0 to m1 the entries start.. of dest became a tree all of whose own frames were free,
      and of what was allocated only dest was written. */
  ghost predicate CopyGrown(m0: Memory, m1: Memory, used0: set<nat>, used1: set<nat>, dest: nat, part: nat, start: nat)
    requires 1 <= part <= 4
  {
    && Tree(m1, dest, part, start, WritableLeaves)
    && Frames(m1, dest, part, start, WritableLeaves) !! used0
    && used1 == used0 + Frames(m1, dest, part, start, WritableLeaves)
    && Frames(m1, dest, part, start, AllLeaves) <= used1
    && SameOn(m0, m1, used0 - {dest})
    && (forall j: Index :: j < start ==> Get(m1, dest)[j] == Get(m0, dest)[j])
  }

  /** The entries start..i of dest map what src maps, read-only; the later ones map nothing. */
  ghost predicate CopiedUpTo(m0: Memory, m1: Memory, dest: nat, src: nat, part: nat, start: nat, i: nat)
    requires 1 <= part <= 4
  {
    && (forall j: Index :: j >= i ==> !Get(m1, dest)[j].present)
    && (forall a: LinearAddress :: start <= a.Part(part) < i ==>
          Lookup(m1, dest, part, a) == ReadOnly(Lookup(m0, src, part, a)))
  }

  lemma CopyStart(m: Memory, used: set<nat>, dest: nat, src: nat, part: nat, start: nat)
    requires 1 <= part <= 4
    requires forall j: Index :: j >= start ==> !Get(m, dest)[j].present
    ensures CopyGrown(m, m, used, used, dest, part, start)
    ensures CopiedUpTo(m, m, dest, src, part, start, start)
  {
  }

  lemma LeafCopied(m0: Memory, m1: Memory, m2: Memory, used0: set<nat>, used1: set<nat>, dest: nat, src: nat, start: nat, i: Index)
    requires start <= i
    requires src in used0 && dest in used0 && dest != src
    requires Tree(m0, src, 1, start, AllLeaves) && Frames(m0, src, 1, start, AllLeaves) <= used0
    requires CopyGrown(m0, m1, used0, used1, dest, 1, start)
    requires CopiedUpTo(m0, m1, dest, src, 1, start, i)
    requires Get(m2, dest) == if Get(m0, src)[i].present then Get(m1, dest)[i := ReadOnly(Get(m0, src)[i])] else Get(m1, dest)
    requires forall g :: g != dest ==> Get(m2, g) == Get(m1, g)
    ensures CopyGrown(m0, m2, used0, used1, dest, 1, start)
    ensures CopiedUpTo(m0, m2, dest, src, 1, start, i + 1)
    ensures Get(m2, src) == Get(m0, src)
  {
    hide Tree;
    FramesOfSubset(m0, src, 1, start, AllLeaves, i);
    EntryFacts(m0, src, 1, start, AllLeaves, i);
    ReplaceEntry(m1, m2, dest, 1, start, WritableLeaves, i);
    FramesReplaced(m1, m2, dest, 1, start, i);
  }

  lemma AbsentCopied(m0: Memory, m1: Memory, dest: nat, src: nat, part: nat, start: nat, i: Index)
    requires 1 <= part <= 4 && start <= i
    requires CopiedUpTo(m0, m1, dest, src, part, start, i)
    requires !Get(m0, src)[i].present
    ensures CopiedUpTo(m0, m1, dest, src, part, start, i + 1)
  {
  }

  /** dest's entry i became e, but pointing to a zeroed table f that was free. */
  ghost predicate TableLinked(m1: Memory, m2: Memory, used1: set<nat>, used2: set<nat>,
                              dest: nat, i: Index, e: PageMapEntry, f: nat) {
    && f !in used1 && used2 == used1 + {f}
    && Get(m2, f) == ZeroPage()
    && Get(m2, dest) == Get(m1, dest)[i := e.(addr := f)]
    && forall g :: g != dest && g != f ==> Get(m2, g) == Get(m1, g)
  }

  /** The table src points to at entry i is still what it was, so it can be copied from. */
  lemma SourceKept(m0: Memory, m1: Memory, m2: Memory, used0: set<nat>, used1: set<nat>, used2: set<nat>,
                   dest: nat, src: nat, part: nat, start: nat, i: Index, f: nat)
    requires 2 <= part <= 4 && start <= i
    requires src in used0 && dest in used0 && dest !in {src} + Frames(m0, src, part, start, AllLeaves)
    requires Tree(m0, src, part, start, AllLeaves) && Frames(m0, src, part, start, AllLeaves) <= used0
    requires CopyGrown(m0, m1, used0, used1, dest, part, start)
    requires Get(m0, src)[i].present
    requires TableLinked(m1, m2, used1, used2, dest, i, Get(m0, src)[i], f)
    ensures var c := Get(m0, src)[i].addr;
      && used0 <= used1
      && Get(m1, src) == Get(m0, src) && Get(m2, src) == Get(m0, src)
      && c in used0 && f !in {c} + Frames(m2, c, part - 1, 0, AllLeaves)
      && Tree(m2, c, part - 1, 0, AllLeaves) && Frames(m2, c, part - 1, 0, AllLeaves) <= used0
      && (forall j: Index :: !Get(m2, f)[j].present)
    ensures forall a: LinearAddress :: LookupOf(m2, Get(m0, src)[i], part, a) == LookupOf(m0, Get(m0, src)[i], part, a)
  {
    hide Tree, Frames, Lookup, FramesOf, EntryOk;
    assert SameOn(m0, m2, used0 - {dest});
    EntryKept(m0, m2, used0, dest, src, part, start, i);
    assert f !in used0;
    EmptyTable(m2, f, part - 1, 0, WritableLeaves);
  }

  lemma EntryKept(m0: Memory, m2: Memory, used0: set<nat>, dest: nat, src: nat, part: nat, start: nat, i: Index)
    requires 2 <= part <= 4 && start <= i
    requires src in used0 && dest !in {src} + Frames(m0, src, part, start, AllLeaves)
    requires Tree(m0, src, part, start, AllLeaves) && Frames(m0, src, part, start, AllLeaves) <= used0
    requires Get(m0, src)[i].present
    requires SameOn(m0, m2, used0 - {dest})
    ensures var c := Get(m0, src)[i].addr;
      && Get(m2, src) == Get(m0, src)
      && {c} + Frames(m2, c, part - 1, 0, AllLeaves) <= used0
      && Tree(m2, c, part - 1, 0, AllLeaves)
    ensures forall a: LinearAddress :: LookupOf(m2, Get(m0, src)[i], part, a) == LookupOf(m0, Get(m0, src)[i], part, a)
  {
    hide Tree, Frames, Lookup;
    var e := Get(m0, src)[i];
    EntryFacts(m0, src, part, start, AllLeaves, i);
    EntryLeavesOrder(m0, e, part);
    EntryFrame(m0, m2, e, part, AllLeaves);
  }

  /** After copying the table below entry i, whether or not that copy was completed. */
  lemma SubtreeCopied(m0: Memory, m1: Memory, m2: Memory, m3: Memory,
                      used0: set<nat>, used1: set<nat>, used2: set<nat>, used3: set<nat>,
                      dest: nat, src: nat, part: nat, start: nat, i: Index, f: nat)
    requires 2 <= part <= 4 && start <= i
    requires src in used0 && dest in used0 && dest !in {src} + Frames(m0, src, part, start, AllLeaves)
    requires Tree(m0, src, part, start, AllLeaves) && Frames(m0, src, part, start, AllLeaves) <= used0
    requires CopyGrown(m0, m1, used0, used1, dest, part, start)
    requires CopiedUpTo(m0, m1, dest, src, part, start, i)
    requires Get(m0, src)[i].present
    requires TableLinked(m1, m2, used1, used2, dest, i, Get(m0, src)[i], f)
    requires CopyGrown(m2, m3, used2, used3, f, part - 1, 0)
    ensures CopyGrown(m0, m3, used0, used3, dest, part, start)
    ensures Get(m3, src) == Get(m0, src) && used0 <= used3
    ensures CopiedUpTo(m2, m3, f, Get(m0, src)[i].addr, part - 1, 0, ENTRIES) ==>
      CopiedUpTo(m0, m3, dest, src, part, start, i + 1)
  {
    hide Tree, Frames, FramesOf;
    SubtreeCopiedFrames(m0, m1, m2, m3, used0, used1, used2, used3, dest, src, part, start, i, f);
    SourceKept(m0, m1, m2, used0, used1, used2, dest, src, part, start, i, f);
    if CopiedUpTo(m2, m3, f, Get(m0, src)[i].addr, part - 1, 0, ENTRIES) {
      forall a: LinearAddress | start <= a.Part(part) < i + 1
        ensures Lookup(m3, dest, part, a) == ReadOnly(Lookup(m0, src, part, a))
      {
        if a.Part(part) < i {
          assert Lookup(m3, dest, part, a) == Lookup(m1, dest, part, a);
        }
      }
    }
  }

  lemma SubtreeCopiedFrames(m0: Memory, m1: Memory, m2: Memory, m3: Memory,
                            used0: set<nat>, used1: set<nat>, used2: set<nat>, used3: set<nat>,
                            dest: nat, src: nat, part: nat, start: nat, i: Index, f: nat)
    requires 2 <= part <= 4 && start <= i
    requires src in used0 && dest in used0 && dest != src
    requires Tree(m0, src, part, start, AllLeaves)
    requires CopyGrown(m0, m1, used0, used1, dest, part, start)
    requires !Get(m1, dest)[i].present
    requires Get(m0, src)[i].present
    requires TableLinked(m1, m2, used1, used2, dest, i, Get(m0, src)[i], f)
    requires CopyGrown(m2, m3, used2, used3, f, part - 1, 0)
    ensures CopyGrown(m0, m3, used0, used3, dest, part, start)
    ensures Get(m3, dest) == Get(m1, dest)[i := Get(m0, src)[i].(addr := f)]
    ensures forall a: LinearAddress :: a.Part(part) >= start && a.Part(part) != i ==>
      Lookup(m3, dest, part, a) == Lookup(m1, dest, part, a)
  {
    hide Tree, Frames, Lookup;
    EntryFacts(m0, src, part, start, AllLeaves, i);
    assert Get(m3, dest) == Get(m2, dest);
    assert SameOn(m1, m3, used1 - {dest});
    forall j | start <= j < ENTRIES && j != i
      ensures SameOn(m1, m3, FramesOf(m1, Get(m1, dest)[j], part, NoLeaves))
    {
      SiblingTables(m1, dest, part, start, WritableLeaves, i, j);
    }
    OwnedWithinAll(m1, dest, part, start, WritableLeaves);
    ReplaceEntry(m1, m3, dest, part, start, WritableLeaves, i);
    SubtreeCopiedSets(m0, m1, m2, m3, used0, used1, used2, used3, dest, part, start, i, f);
  }

  lemma SubtreeCopiedSets(m0: Memory, m1: Memory, m2: Memory, m3: Memory,
                          used0: set<nat>, used1: set<nat>, used2: set<nat>, used3: set<nat>,
                          dest: nat, part: nat, start: nat, i: Index, f: nat)
    requires 2 <= part <= 4 && start <= i
    requires CopyGrown(m0, m1, used0, used1, dest, part, start)
    requires !Get(m1, dest)[i].present
    requires Get(m3, dest)[i].present && Get(m3, dest)[i].addr == f
    requires f !in used1 && used2 == used1 + {f}
    requires CopyGrown(m2, m3, used2, used3, f, part - 1, 0)
    requires forall which, j :: start <= j < ENTRIES && j != i ==>
      FramesOf(m3, Get(m3, dest)[j], part, which) == FramesOf(m1, Get(m1, dest)[j], part, which)
    ensures Frames(m3, dest, part, start, WritableLeaves) !! used0
    ensures used3 == used0 + Frames(m3, dest, part, start, WritableLeaves)
    ensures Frames(m3, dest, part, start, AllLeaves) <= used3
  {
    hide Tree, Frames, Lookup;
    FramesReplaced(m1, m3, dest, part, start, i);
    assert forall which :: FramesOf(m3, Get(m3, dest)[i], part, which) == {f} + Frames(m3, f, part - 1, 0, which);
    assert Frames(m3, dest, part, start, WritableLeaves) ==
      Frames(m1, dest, part, start, WritableLeaves) + {f} + Frames(m3, f, part - 1, 0, WritableLeaves);
  }

  // ---------------------------------------------------------------- the processor's walk

  /** What the processor makes of an address: permissions are those granted at every level
      (Intel SDM volume 3A, section 4.6). */
  datatype Translation = NotPresent | Mapped(frame: nat, writable: bool, user: bool)

  function Translate(m: Memory, t: nat, level: nat, a: LinearAddress): Translation
    requires 1 <= level <= 4
    decreases level
  {
    var e := Get(m, t)[a.Part(level)];
    if !e.present then NotPresent
    else if level == 1 then Mapped(e.addr, e.writable, e.user)
    else match Translate(m, e.addr, level - 1, a)
      case NotPresent => NotPresent
      case Mapped(f, w, u) => Mapped(f, w && e.writable, u && e.user)
  }

  /** In a well-formed tree the leaf alone decides: the tables above never take rights away. */
  lemma {:induction false} TranslateIsLookup(m: Memory, t: nat, level: nat, lo: nat, own: Leaves, a: LinearAddress)
    requires 1 <= level <= 4 && lo <= a.Part(level)
    requires Tree(m, t, level, lo, own)
    ensures var e := Lookup(m, t, level, a);
      Translate(m, t, level, a) == if e.present then Mapped(e.addr, e.writable, true) else NotPresent
    decreases level
  {
    var e := Get(m, t)[a.Part(level)];
    assert EntryOk(m, e, level, own);
    if e.present && level > 1 {
      TranslateIsLookup(m, e.addr, level - 1, 0, own, a);
    }
  }
}
