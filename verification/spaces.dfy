/** Several address spaces in one physical memory: what each of them sees, and why writing through
    one of them cannot be seen through another. */
module Spaces {
  import opened PageTables

  const USER_PML4: nat := 256  // the upper half of the address space belongs to the app

  predicate Upper(a: LinearAddress) {
    a.pml4 >= USER_PML4
  }

  /** The frames of one app instance: its top table, its lower tables and its private pages. */
  ghost function Footprint(m: Memory, root: nat): set<nat> {
    {root} + Frames(m, root, 4, USER_PML4, WritableLeaves)
  }

  /** The pages an address space shows to its app, by address. */
  ghost function View(m: Memory, root: nat): imap<LinearAddress, Page> {
    imap a: LinearAddress | Upper(a) && Lookup(m, root, 4, a).present :: Get(m, Lookup(m, root, 4, a).addr)
  }

  /** A page of the instance that is read-only is the template's page at the same address. */
  ghost predicate SharesOnly(m: Memory, root: nat, template: nat) {
    forall a: LinearAddress :: Upper(a) ==>
      var e := Lookup(m, root, 4, a);
      e.present && !e.writable ==>
        Lookup(m, template, 4, a).present && Lookup(m, template, 4, a).addr == e.addr
  }

  ghost predicate Space(m: Memory, root: nat, template: nat) {
    Tree(m, root, 4, USER_PML4, WritableLeaves) && SharesOnly(m, root, template)
  }

  /** The loaded app: tables and pages all lie in base. */
  ghost predicate Template(m: Memory, template: nat, base: set<nat>) {
    && template in base
    && Tree(m, template, 4, USER_PML4, AllLeaves)
    && Frames(m, template, 4, USER_PML4, AllLeaves) <= base
  }

  /** Every instance owns its footprint: no frame of it is in base or in another footprint. */
  ghost predicate Separate(m: Memory, base: set<nat>, template: nat, roots: map<nat, nat>) {
    && Template(m, template, base)
    && (forall k :: k in roots ==> Space(m, roots[k], template) && Footprint(m, roots[k]) !! base)
    && (forall j, k :: j in roots && k in roots && j != k ==> Footprint(m, roots[j]) !! Footprint(m, roots[k]))
  }

  /** The frames owned by all instances. */
  ghost function Owned(m: Memory, roots: map<nat, nat>): set<nat> {
    set k, f | k in roots && f in Footprint(m, roots[k]) :: f
  }

  /** One app instance: what it sees, and the frames it owns. */
  datatype Instance = Instance(image: imap<LinearAddress, Page>, frames: set<nat>)

  ghost function InstanceAt(m: Memory, root: nat): Instance {
    Instance(View(m, root), Footprint(m, root))
  }

  ghost function InstancesOf(m: Memory, roots: map<nat, nat>): map<nat, Instance> {
    map k | k in roots :: InstanceAt(m, roots[k])
  }

  lemma InstanceKeys(m: Memory, roots: map<nat, nat>)
    ensures InstancesOf(m, roots).Keys == roots.Keys
    ensures forall k :: k in roots ==> InstancesOf(m, roots) == InstancesOf(m, roots)[k := InstanceAt(m, roots[k])]
  {
  }

  // ---------------------------------------------------------------- pages of one space

  lemma SamePageIsSame(a: LinearAddress, b: LinearAddress)
    ensures SamePage(a, b, 4) <==> a == b
  {
    if SamePage(a, b, 4) {
      assert a.Part(1) == b.Part(1) && a.Part(2) == b.Part(2) && a.Part(3) == b.Part(3) && a.Part(4) == b.Part(4);
    }
  }

  lemma PageNumberInjective(a: LinearAddress, b: LinearAddress)
    requires a.PageNumber(4) == b.PageNumber(4)
    ensures a == b
  {
    assert a.PageNumber(3) < 0x800_0000 && b.PageNumber(3) < 0x800_0000;
    assert a.PageNumber(2) < 0x4_0000 && b.PageNumber(2) < 0x4_0000;
    assert a.PageNumber(4) == a.pml4 * 0x800_0000 + a.PageNumber(3);
    assert b.PageNumber(4) == b.pml4 * 0x800_0000 + b.PageNumber(3);
    assert a.pml4 == b.pml4 && a.PageNumber(3) == b.PageNumber(3);
    assert a.pdp == b.pdp && a.PageNumber(2) == b.PageNumber(2);
  }

  /** The frame behind a page: private pages lie in the footprint, shared ones in base. */
  lemma PageFrame(m: Memory, root: nat, template: nat, base: set<nat>, a: LinearAddress)
    requires Upper(a) && Space(m, root, template) && Template(m, template, base)
    requires Lookup(m, root, 4, a).present
    ensures var e := Lookup(m, root, 4, a);
      if e.writable then e.addr in Footprint(m, root) && e.addr !in {root} + Frames(m, root, 4, USER_PML4, NoLeaves)
      else e.addr in base
  {
    if Lookup(m, root, 4, a).writable {
      LeafFrame(m, root, 4, USER_PML4, WritableLeaves, a);
    } else {
      PresentLeaf(m, template, 4, USER_PML4, a);
    }
  }

  /** Every frame a tree reaches is its own, or the frame of one of its read-only pages. */
  lemma {:induction false} ReachedFrames(m: Memory, t: nat, level: nat, lo: nat, shared: set<nat>)
    requires 1 <= level <= 4
    requires forall a: LinearAddress :: lo <= a.Part(level) ==>
      Lookup(m, t, level, a).present && !Lookup(m, t, level, a).writable ==> Lookup(m, t, level, a).addr in shared
    ensures Frames(m, t, level, lo, AllLeaves) <= Frames(m, t, level, lo, WritableLeaves) + shared
    decreases level
  {
    forall i | lo <= i < ENTRIES
      ensures FramesOf(m, Get(m, t)[i], level, AllLeaves) <= FramesOf(m, Get(m, t)[i], level, WritableLeaves) + shared
    {
      var e := Get(m, t)[i];
      var a := LinearAddress(0, 0, 0, 0).SetPart(level, i);
      assert LookupOf(m, e, level, a) == Lookup(m, t, level, a);
      if e.present && level > 1 {
        var below := level - 1;
        forall b: LinearAddress
          ensures Lookup(m, e.addr, below, b).present && !Lookup(m, e.addr, below, b).writable ==>
            Lookup(m, e.addr, below, b).addr in shared
        {
          var c := b.SetPart(level, i);
          SamePartsBelow(m, e.addr, below, b, c);
          assert Lookup(m, t, level, c) == Lookup(m, e.addr, below, c);
        }
        ReachedFrames(m, e.addr, below, 0, shared);
      }
    }
  }

  lemma SpaceFrames(m: Memory, root: nat, template: nat, base: set<nat>)
    requires Space(m, root, template) && Template(m, template, base)
    ensures Frames(m, root, 4, USER_PML4, AllLeaves) <= Footprint(m, root) + base
  {
    hide Tree, Frames, Lookup;
    forall a: LinearAddress | Upper(a) && Lookup(m, root, 4, a).present && !Lookup(m, root, 4, a).writable
      ensures Lookup(m, root, 4, a).addr in base
    {
      PresentLeaf(m, template, 4, USER_PML4, a);
    }
    ReachedFrames(m, root, 4, USER_PML4, base);
  }

  // ---------------------------------------------------------------- framing

  /** An address space is unaffected while its footprint and base are. */
  lemma SpaceKept(m0: Memory, m1: Memory, root: nat, template: nat, base: set<nat>)
    requires Space(m0, root, template) && Template(m0, template, base)
    requires SameOn(m0, m1, base + Footprint(m0, root))
    ensures Space(m1, root, template)
    ensures Footprint(m1, root) == Footprint(m0, root)
    ensures View(m1, root) == View(m0, root)
  {
    hide Tree, Frames, Lookup;
    TemplateKept(m0, m1, template, base);
    LeavesOrder(m0, root, 4, USER_PML4);
    TreeFrame(m0, m1, root, 4, USER_PML4, WritableLeaves);
    forall a: LinearAddress | Upper(a) && Lookup(m0, root, 4, a).present
      ensures Get(m1, Lookup(m1, root, 4, a).addr) == Get(m0, Lookup(m0, root, 4, a).addr)
    {
      PageFrame(m0, root, template, base, a);
    }
  }

  lemma TemplateKept(m0: Memory, m1: Memory, template: nat, base: set<nat>)
    requires Template(m0, template, base)
    requires SameOn(m0, m1, base)
    ensures Template(m1, template, base)
    ensures forall a: LinearAddress :: Upper(a) ==> Lookup(m1, template, 4, a) == Lookup(m0, template, 4, a)
    ensures View(m1, template) == View(m0, template)
  {
    hide Tree, Frames, Lookup;
    LeavesOrder(m0, template, 4, USER_PML4);
    TreeFrame(m0, m1, template, 4, USER_PML4, AllLeaves);
    forall a: LinearAddress | Upper(a) && Lookup(m0, template, 4, a).present
      ensures Lookup(m0, template, 4, a).addr in base
    {
      PresentLeaf(m0, template, 4, USER_PML4, a);
    }
  }

  /** Instance k changed inside its own footprint and took frames that were free: the others are
      unaffected and the frames are still separate. */
  lemma OneSpaceChanged(m0: Memory, m1: Memory, used0: set<nat>, base: set<nat>, template: nat,
                        roots: map<nat, nat>, k: nat)
    requires Separate(m0, base, template, roots) && k in roots
    requires base + Owned(m0, roots) <= used0
    requires SameOn(m0, m1, used0 - Footprint(m0, roots[k]))
    requires Tree(m1, roots[k], 4, USER_PML4, WritableLeaves) && SharesOnly(m1, roots[k], template)
    requires Footprint(m0, roots[k]) <= Footprint(m1, roots[k])
    requires (Footprint(m1, roots[k]) - Footprint(m0, roots[k])) !! used0
    ensures Separate(m1, base, template, roots)
    ensures InstancesOf(m1, roots) == InstancesOf(m0, roots)[k := InstanceAt(m1, roots[k])]
    ensures Owned(m1, roots) == Owned(m0, roots) + Footprint(m1, roots[k])
  {
    hide Tree, Frames, Lookup, Footprint, View, SharesOnly;
    forall j | j in roots && j != k
      ensures Space(m1, roots[j], template) && Footprint(m1, roots[j]) == Footprint(m0, roots[j])
      ensures View(m1, roots[j]) == View(m0, roots[j])
      ensures Footprint(m1, roots[j]) <= used0
    {
      FootprintOwned(m0, roots, j);
      assert Footprint(m0, roots[j]) !! Footprint(m0, roots[k]);
      SpaceKept(m0, m1, roots[j], template, base);
    }
    FootprintOwned(m0, roots, k);
    TemplateKept(m0, m1, template, base);
  }

  lemma FootprintOwned(m: Memory, roots: map<nat, nat>, k: nat)
    requires k in roots
    ensures Footprint(m, roots[k]) <= Owned(m, roots)
  {
  }

  ghost predicate SamePageAt(m0: Memory, m1: Memory, root: nat, a: LinearAddress) {
    var e0, e1 := Lookup(m0, root, 4, a), Lookup(m1, root, 4, a);
    e1.present == e0.present && (e0.present ==> Get(m1, e1.addr) == Get(m0, e0.addr))
  }

  lemma ViewSame(m0: Memory, m1: Memory, root: nat)
    requires forall b: LinearAddress :: Upper(b) ==> SamePageAt(m0, m1, root, b)
    ensures View(m1, root) == View(m0, root)
  {
  }

  // ---------------------------------------------------------------- steps of one space

  /** From m0 to m1 the space at root changed inside its own footprint, gaining only frames that
      were free. */
  ghost predicate SpaceStep(m0: Memory, m1: Memory, used0: set<nat>, used1: set<nat>, root: nat, template: nat) {
    && Space(m1, root, template)
    && Footprint(m0, root) <= Footprint(m1, root)
    && (Footprint(m1, root) - Footprint(m0, root)) !! used0
    && used1 == used0 + Footprint(m1, root)
    && SameOn(m0, m1, used0 - Footprint(m0, root))
  }

  /** Storing a page through a writable mapping is seen at that address and nowhere else. */
  lemma StoreStep(m: Memory, used: set<nat>, root: nat, template: nat, base: set<nat>, a: LinearAddress, page: Page)
    requires Upper(a) && Space(m, root, template) && Template(m, template, base)
    requires Footprint(m, root) !! base && base + Footprint(m, root) <= used
    requires Lookup(m, root, 4, a).present && Lookup(m, root, 4, a).writable
    ensures var m1 := m[Lookup(m, root, 4, a).addr := page];
      && SpaceStep(m, m1, used, used, root, template)
      && View(m1, root) == View(m, root)[a := page]
      && Lookup(m1, root, 4, a) == Lookup(m, root, 4, a)
  {
    hide Tree, Frames, Lookup;
    var f := Lookup(m, root, 4, a).addr;
    var m1 := m[f := page];
    PageFrame(m, root, template, base, a);
    TreeFrame(m, m1, root, 4, USER_PML4, WritableLeaves);
    TemplateKept(m, m1, template, base);
    forall b: LinearAddress | Upper(b) && Lookup(m, root, 4, b).present && b != a
      ensures Lookup(m, root, 4, b).addr != f
    {
      PageFrame(m, root, template, base, b);
      SamePageIsSame(a, b);
      if Lookup(m, root, 4, b).writable {
        DistinctPages(m, root, 4, USER_PML4, WritableLeaves, a, b);
      }
    }
  }

  /** The pages that mapping a range adds to a view. */
  ghost function ZeroPages(first: nat, n: nat): imap<LinearAddress, Page> {
    imap a: LinearAddress | Upper(a) && InRange(a, 4, first, n) :: ZeroPage()
  }

  ghost predicate Unmapped(m: Memory, root: nat, first: nat, n: nat) {
    forall a: LinearAddress :: Upper(a) && InRange(a, 4, first, n) ==> a !in View(m, root)
  }

  lemma UnmappedPermits(m: Memory, root: nat, first: nat, n: nat)
    requires Unmapped(m, root, first, n)
    ensures Permits(m, root, 4, USER_PML4, first, n, true)
  {
  }

  /** Mapping n absent pages adds n pages of zeros to the view. */
  lemma MapStep(m0: Memory, m1: Memory, used0: set<nat>, used1: set<nat>, root: nat, template: nat, base: set<nat>,
                first: nat, n: nat)
    requires Space(m0, root, template) && Template(m0, template, base)
    requires Footprint(m0, root) !! base && base + Footprint(m0, root) <= used0
    requires Frames(m0, root, 4, USER_PML4, AllLeaves) <= used0
    requires Unmapped(m0, root, first, n)
    requires Extended(m0, m1, used0, used1, root, 4, USER_PML4, WritableLeaves)
    requires RangeMapped(m0, m1, used0, root, 4, USER_PML4, first, n, true)
    ensures SpaceStep(m0, m1, used0, used1, root, template) && used0 <= used1
    ensures View(m1, root) == View(m0, root) + ZeroPages(first, n)
    ensures forall a: LinearAddress :: Upper(a) && InRange(a, 4, first, n) ==>
      Lookup(m1, root, 4, a).present && Lookup(m1, root, 4, a).writable
  {
    hide Tree, Frames, Lookup;
    forall a: LinearAddress | Upper(a) && InRange(a, 4, first, n) ensures !Lookup(m0, root, 4, a).present {
      assert a !in View(m0, root);
    }
    hide View;
    LeavesOrder(m0, root, 4, USER_PML4);
    LeavesOrder(m1, root, 4, USER_PML4);
    TemplateKept(m0, m1, template, base);
    forall a: LinearAddress | Upper(a) && InRange(a, 4, first, n)
      ensures PageMapped(Lookup(m0, root, 4, a), Lookup(m1, root, 4, a), m1, used0, true)
    {
    }
    forall b: LinearAddress | Upper(b) && !InRange(b, 4, first, n) ensures SamePageAt(m0, m1, root, b) {
      assert Lookup(m1, root, 4, b) == Lookup(m0, root, 4, b);
      if Lookup(m0, root, 4, b).present {
        PageFrame(m0, root, template, base, b);
      }
    }
    ViewExtended(m0, m1, root, first, n);
  }

  lemma ViewExtended(m0: Memory, m1: Memory, root: nat, first: nat, n: nat)
    requires forall a: LinearAddress :: Upper(a) && InRange(a, 4, first, n) ==>
      Lookup(m1, root, 4, a).present && Get(m1, Lookup(m1, root, 4, a).addr) == ZeroPage()
    requires forall b: LinearAddress :: Upper(b) && !InRange(b, 4, first, n) ==> SamePageAt(m0, m1, root, b)
    ensures View(m1, root) == View(m0, root) + ZeroPages(first, n)
  {
    hide Lookup;
    forall b: LinearAddress ensures b in View(m1, root) <==> b in View(m0, root) + ZeroPages(first, n) {
      assert Upper(b) && !InRange(b, 4, first, n) ==> SamePageAt(m0, m1, root, b);
    }
  }

  /** A range of one page is that page. */
  lemma OnePage(a: LinearAddress)
    ensures forall b: LinearAddress :: InRange(b, 4, a.PageNumber(4), 1) <==> b == a
    ensures Upper(a) ==> ZeroPages(a.PageNumber(4), 1) == imap[a := ZeroPage()]
  {
    forall b: LinearAddress ensures InRange(b, 4, a.PageNumber(4), 1) <==> b == a {
      if InRange(b, 4, a.PageNumber(4), 1) {
        PageNumberInjective(a, b);
      }
    }
  }

  /** Replacing a read-only page by a writable copy of it does not change the view. */
  lemma CopyStep(m0: Memory, m1: Memory, m2: Memory, used0: set<nat>, used1: set<nat>,
                 root: nat, template: nat, base: set<nat>, a: LinearAddress, f: nat)
    requires Upper(a) && Space(m0, root, template) && Template(m0, template, base)
    requires Footprint(m0, root) !! base && base + Footprint(m0, root) <= used0
    requires Lookup(m0, root, 4, a).present && !Lookup(m0, root, 4, a).writable
    requires f !in used0 && used1 == used0 + {f}
    requires m1 == m0[f := Get(m0, Lookup(m0, root, 4, a).addr)]
    requires PageReplaced(m1, m2, root, 4, USER_PML4, a, f)
    ensures SpaceStep(m0, m2, used0, used1, root, template)
    ensures View(m2, root) == View(m0, root)
    ensures Lookup(m2, root, 4, a).present && Lookup(m2, root, 4, a).writable
  {
    hide Tree, Frames, Lookup, View;
    LeavesOrder(m0, root, 4, USER_PML4);
    TreeFrame(m0, m1, root, 4, USER_PML4, WritableLeaves);
    CopyStepLookup(m0, m1, m2, used0, root, a, f);
    assert SameOn(m0, m2, used0 - Footprint(m0, root));
    TemplateKept(m0, m2, template, base);
    forall b: LinearAddress | Upper(b) ensures SamePageAt(m0, m2, root, b) {
      if Lookup(m0, root, 4, b).present {
        PageFrame(m0, root, template, base, b);
      }
    }
    ViewSame(m0, m2, root);
  }

  lemma CopyStepLookup(m0: Memory, m1: Memory, m2: Memory, used0: set<nat>, root: nat, a: LinearAddress, f: nat)
    requires Upper(a)
    requires forall b: LinearAddress :: Upper(b) ==> Lookup(m1, root, 4, b) == Lookup(m0, root, 4, b)
    requires PageReplaced(m1, m2, root, 4, USER_PML4, a, f)
    ensures forall b: LinearAddress :: Upper(b) ==>
      Lookup(m2, root, 4, b) == if b == a then Lookup(m0, root, 4, a).(addr := f, writable := true) else Lookup(m0, root, 4, b)
  {
    hide Tree, Frames, Lookup;
    forall b: LinearAddress ensures SamePage(b, a, 4) <==> b == a {
      SamePageIsSame(b, a);
    }
  }

  /** A step of instance k keeps all instances separate and is invisible to the others. */
  lemma StepKeepsSeparate(m0: Memory, m1: Memory, used0: set<nat>, used1: set<nat>, base: set<nat>, template: nat,
                          roots: map<nat, nat>, k: nat)
    requires Separate(m0, base, template, roots) && k in roots
    requires used0 == base + Owned(m0, roots)
    requires SpaceStep(m0, m1, used0, used1, roots[k], template)
    ensures Separate(m1, base, template, roots)
    ensures used1 == base + Owned(m1, roots)
    ensures InstancesOf(m1, roots) == InstancesOf(m0, roots)[k := InstanceAt(m1, roots[k])]
    ensures SameOn(m0, m1, base) && View(m1, template) == View(m0, template)
  {
    hide Tree, Frames, Lookup, Footprint, View, SharesOnly;
    TemplateKept(m0, m1, template, base);
    OneSpaceChanged(m0, m1, used0, base, template, roots, k);
    FootprintOwned(m0, roots, k);
  }

  /** A space under construction: all its frames were free in used0, and what was allocated then
      is untouched. */
  ghost predicate UnderConstruction(m0: Memory, m1: Memory, used0: set<nat>, used1: set<nat>, root: nat, template: nat) {
    && Space(m1, root, template)
    && Footprint(m1, root) !! used0
    && used1 == used0 + Footprint(m1, root)
    && SameOn(m0, m1, used0)
  }

  lemma ConstructionStep(m0: Memory, m1: Memory, m2: Memory, used0: set<nat>, used1: set<nat>, used2: set<nat>,
                         root: nat, template: nat)
    requires UnderConstruction(m0, m1, used0, used1, root, template)
    requires SpaceStep(m1, m2, used1, used2, root, template)
    ensures UnderConstruction(m0, m2, used0, used2, root, template)
  {
  }

  // ---------------------------------------------------------------- birth and death of a space

  /** A tree copied from the template sees exactly the template's pages, and owns only new frames. */
  lemma CopiedSpace(m0: Memory, m1: Memory, used0: set<nat>, used1: set<nat>, root: nat, template: nat, base: set<nat>)
    requires Template(m0, template, base) && base <= used0
    requires root in used0 && root !in base
    requires CopyGrown(m0, m1, used0, used1, root, 4, USER_PML4)
    requires CopiedUpTo(m0, m1, root, template, 4, USER_PML4, ENTRIES)
    ensures Space(m1, root, template)
    ensures View(m1, root) == View(m0, template)
    ensures forall a: LinearAddress :: Upper(a) ==>
      Lookup(m1, root, 4, a).present == Lookup(m0, template, 4, a).present
  {
    hide Tree, Frames, Lookup;
    TemplateKept(m0, m1, template, base);
    forall a: LinearAddress | Upper(a)
      ensures Lookup(m1, root, 4, a) == ReadOnly(Lookup(m0, template, 4, a))
      ensures Lookup(m0, template, 4, a).present ==> Lookup(m0, template, 4, a).addr in base
    {
      assert a.Part(4) < ENTRIES;
      if Lookup(m0, template, 4, a).present {
        PresentLeaf(m0, template, 4, USER_PML4, a);
      }
    }
  }

  /** Adding an instance whose frames were all free leaves the others as they are. */
  lemma SpaceAdded(m0: Memory, m1: Memory, used0: set<nat>, base: set<nat>, template: nat,
                   roots: map<nat, nat>, k: nat, root: nat)
    requires Separate(m0, base, template, roots) && k !in roots
    requires base + Owned(m0, roots) <= used0
    requires SameOn(m0, m1, used0)
    requires Space(m1, root, template) && Footprint(m1, root) !! used0
    ensures Separate(m1, base, template, roots[k := root])
    ensures InstancesOf(m1, roots[k := root]) == InstancesOf(m0, roots)[k := InstanceAt(m1, root)]
    ensures Owned(m1, roots[k := root]) == Owned(m0, roots) + Footprint(m1, root)
    ensures View(m1, template) == View(m0, template)
  {
    hide Tree, Frames, Lookup, Footprint, View, SharesOnly;
    TemplateKept(m0, m1, template, base);
    forall j | j in roots
      ensures Space(m1, roots[j], template) && Footprint(m1, roots[j]) == Footprint(m0, roots[j])
      ensures View(m1, roots[j]) == View(m0, roots[j])
      ensures Footprint(m0, roots[j]) <= used0
    {
      FootprintOwned(m0, roots, j);
      SpaceKept(m0, m1, roots[j], template, base);
    }
    var more := roots[k := root];
    FootprintOwned(m1, more, k);
    forall j | j in roots ensures Footprint(m0, roots[j]) <= Owned(m1, more) {
      assert j in more && more[j] == roots[j];
      FootprintOwned(m1, more, j);
    }
  }

  /** Frames taken by a launch that failed belong to nobody; the instances are as before. */
  lemma FramesLost(m0: Memory, m1: Memory, used0: set<nat>, used1: set<nat>, base: set<nat>, template: nat, roots: map<nat, nat>)
    requires Separate(m0, base, template, roots)
    requires used0 == base + Owned(m0, roots) && used0 <= used1
    requires SameOn(m0, m1, used0)
    ensures Separate(m1, base + (used1 - used0), template, roots)
    ensures InstancesOf(m1, roots) == InstancesOf(m0, roots)
    ensures used1 == base + (used1 - used0) + Owned(m1, roots)
    ensures View(m1, template) == View(m0, template)
  {
    hide Tree, Frames, Lookup, Footprint, View, SharesOnly;
    TemplateKept(m0, m1, template, base);
    forall j | j in roots
      ensures Space(m1, roots[j], template) && Footprint(m1, roots[j]) == Footprint(m0, roots[j])
      ensures View(m1, roots[j]) == View(m0, roots[j])
      ensures Footprint(m0, roots[j]) <= used0
    {
      FootprintOwned(m0, roots, j);
      SpaceKept(m0, m1, roots[j], template, base);
    }
    assert Owned(m1, roots) == Owned(m0, roots);
  }

  /** Removing an instance together with its footprint leaves the others as they are. */
  lemma SpaceRemoved(m0: Memory, m1: Memory, used0: set<nat>, base: set<nat>, template: nat, roots: map<nat, nat>, k: nat)
    requires Separate(m0, base, template, roots) && k in roots
    requires used0 == base + Owned(m0, roots)
    requires SameOn(m0, m1, used0 - Footprint(m0, roots[k]))
    ensures Separate(m1, base, template, roots - {k})
    ensures InstancesOf(m1, roots - {k}) == InstancesOf(m0, roots) - {k}
    ensures used0 - Footprint(m0, roots[k]) == base + Owned(m1, roots - {k})
    ensures View(m1, template) == View(m0, template)
  {
    hide Tree, Frames, Lookup, Footprint, View, SharesOnly;
    forall j | j in roots && j != k
      ensures Space(m1, roots[j], template) && Footprint(m1, roots[j]) == Footprint(m0, roots[j])
      ensures View(m1, roots[j]) == View(m0, roots[j])
      ensures Footprint(m0, roots[j]) <= used0 - Footprint(m0, roots[k])
    {
      FootprintOwned(m0, roots, j);
      assert Footprint(m0, roots[j]) !! Footprint(m0, roots[k]);
      SpaceKept(m0, m1, roots[j], template, base);
    }
    TemplateKept(m0, m1, template, base);
    var rest := roots - {k};
    forall j | j in rest ensures Footprint(m0, roots[j]) <= Owned(m1, rest) {
      assert rest[j] == roots[j];
      FootprintOwned(m1, rest, j);
    }
    FootprintOwned(m0, roots, k);
  }
}
