/** Building and taking down the address space of an app instance, on memory values. */
module AppSpaces {
  import opened PageTables
  import opened Spaces
  import opened AppRegions

  lemma TemplateStays(m0: Memory, m1: Memory, template: nat, base: set<nat>)
    requires Template(m0, template, base) && SameOn(m0, m1, base)
    ensures Template(m1, template, base) && View(m1, template) == View(m0, template)
    ensures Unmapped(m0, template, STACK_ADDRESS.PageNumber(4), STACK_PAGES + 1) ==>
      Unmapped(m1, template, STACK_ADDRESS.PageNumber(4), STACK_PAGES + 1)
  {
    hide View;
    TemplateKept(m0, m1, template, base);
  }

  lemma NothingAtTop(m: Memory, template: nat)
    requires Unmapped(m, template, STACK_ADDRESS.PageNumber(4), STACK_PAGES + 1)
    ensures forall a :: AtTop(a) ==> a !in View(m, template)
  {
    hide View;
    forall a: LinearAddress | AtTop(a) ensures a !in View(m, template) {
      TopPage(a);
      assert InRange(a, 4, STACK_ADDRESS.PageNumber(4), STACK_PAGES + 1);
    }
  }

  lemma TopPages(m: Memory, root: nat, template: nat)
    requires View(m, root) == View(m, template)
    requires Unmapped(m, template, STACK_ADDRESS.PageNumber(4), STACK_PAGES + 1)
    ensures Upper(ARGS_ADDRESS) && Upper(STACK_ADDRESS)
    ensures ARGS_ADDRESS.PageNumber(4) + 1 <= PagesBelow(4) && STACK_ADDRESS.PageNumber(4) + STACK_PAGES <= PagesBelow(4)
    ensures Unmapped(m, root, ARGS_ADDRESS.PageNumber(4), 1)
    ensures Unmapped(m, root, STACK_ADDRESS.PageNumber(4), STACK_PAGES)
  {
  }

  lemma StackStillFree(m1: Memory, m2: Memory, root: nat)
    requires Unmapped(m1, root, STACK_ADDRESS.PageNumber(4), STACK_PAGES)
    requires View(m2, root) == View(m1, root) + ZeroPages(ARGS_ADDRESS.PageNumber(4), 1)
    ensures Unmapped(m2, root, STACK_ADDRESS.PageNumber(4), STACK_PAGES)
  {
    hide View;
    forall a: LinearAddress | Upper(a) && InRange(a, 4, STACK_ADDRESS.PageNumber(4), STACK_PAGES)
      ensures a !in View(m2, root)
    {
      assert a !in View(m1, root) && !InRange(a, 4, ARGS_ADDRESS.PageNumber(4), 1);
    }
  }

  lemma ConstructionFacts(m0: Memory, m1: Memory, used0: set<nat>, used1: set<nat>, root: nat, template: nat, base: set<nat>)
    requires UnderConstruction(m0, m1, used0, used1, root, template) && base <= used0
    ensures Space(m1, root, template)
    ensures Footprint(m1, root) !! base && base + Footprint(m1, root) <= used1
  {
  }

  lemma ConstructionTemplate(m0: Memory, m1: Memory, m2: Memory, used0: set<nat>, template: nat, base: set<nat>)
    requires Template(m1, template, base) && base <= used0
    requires SameOn(m0, m1, used0) && SameOn(m0, m2, used0)
    ensures Template(m2, template, base) && View(m2, template) == View(m1, template)
  {
    TemplateKept(m1, m2, template, base);
  }

  lemma RegisterSpace(m0: Memory, m1: Memory, used0: set<nat>, used1: set<nat>, base: set<nat>, template: nat,
                      roots: map<nat, nat>, k: nat, root: nat)
    requires Separate(m0, base, template, roots) && k !in roots && used0 == base + Owned(m0, roots)
    requires UnderConstruction(m0, m1, used0, used1, root, template)
    ensures Separate(m1, base, template, roots[k := root])
    ensures used1 == base + Owned(m1, roots[k := root]) && used1 == used0 + Footprint(m1, root)
    ensures InstancesOf(m1, roots[k := root]) == InstancesOf(m0, roots)[k := InstanceAt(m1, root)]
    ensures View(m1, template) == View(m0, template)
    ensures forall first, n :: Unmapped(m0, template, first, n) ==> Unmapped(m1, template, first, n)
  {
    hide Separate, Space, Footprint, Owned, View;
    SpaceAdded(m0, m1, used0, base, template, roots, k, root);
  }

  lemma ExitFacts(m: Memory, base: set<nat>, template: nat, roots: map<nat, nat>, k: nat)
    requires Separate(m, base, template, roots) && k in roots
    ensures Tree(m, roots[k], 4, USER_PML4, WritableLeaves)
    ensures {roots[k]} + Frames(m, roots[k], 4, USER_PML4, WritableLeaves) == Footprint(m, roots[k]) <= Owned(m, roots)
    ensures roots[k] !in Frames(m, roots[k], 4, USER_PML4, WritableLeaves)
    ensures Frames(m, roots[k], 4, USER_PML4, NoLeaves) <= Footprint(m, roots[k])
  {
    FootprintOwned(m, roots, k);
    RootOutside(m, roots[k], 4, USER_PML4, WritableLeaves);
    LeavesOrder(m, roots[k], 4, USER_PML4);
  }

  lemma UnregisterSpace(m0: Memory, m1: Memory, used0: set<nat>, base: set<nat>, template: nat, roots: map<nat, nat>, k: nat)
    requires Separate(m0, base, template, roots) && k in roots
    requires used0 == base + Owned(m0, roots)
    requires forall f :: f !in Footprint(m0, roots[k]) ==> Get(m1, f) == Get(m0, f)
    ensures Separate(m1, base, template, roots - {k})
    ensures used0 - Footprint(m0, roots[k]) == base + Owned(m1, roots - {k})
    ensures InstancesOf(m1, roots - {k}) == InstancesOf(m0, roots) - {k}
    ensures View(m1, template) == View(m0, template)
    ensures forall first, n :: Unmapped(m0, template, first, n) ==> Unmapped(m1, template, first, n)
    ensures SameOn(m0, m1, base)
  {
    assert Footprint(m0, roots[k]) !! base;
    hide Separate, Footprint, Owned, View;
    SpaceRemoved(m0, m1, used0, base, template, roots, k);
  }

  /** The kernel's entries below the user half, nothing above. */
  function KernelHalf(kernel: Page): Page {
    kernel[..USER_PML4] + seq(ENTRIES - USER_PML4, _ => ZERO)
  }

  /** The state in which the copy starts: the new table is outside everything allocated. */
  lemma LaunchCopy(m0: Memory, m1: Memory, used0: set<nat>, root: nat, template: nat, base: set<nat>, roots: map<nat, nat>)
    requires Separate(m0, base, template, roots) && base <= used0
    requires root !in used0 && SameOn(m0, m1, used0)
    ensures Template(m0, template, base) && Template(m1, template, base) && View(m1, template) == View(m0, template)
    ensures Tree(m1, template, 4, USER_PML4, AllLeaves) && template in base
    ensures Frames(m1, template, 4, USER_PML4, AllLeaves) <= base
    ensures root !in {template} + Frames(m1, template, 4, USER_PML4, AllLeaves)
  {
    TemplateKept(m0, m1, template, base);
  }

  lemma CopyFrame(m1: Memory, m2: Memory, used1: set<nat>, used2: set<nat>, root: nat)
    requires CopyGrown(m1, m2, used1, used2, root, 4, USER_PML4)
    ensures used1 <= used2 && SameOn(m1, m2, used1 - {root})
    ensures forall j: Index :: j < USER_PML4 ==> Get(m2, root)[j] == Get(m1, root)[j]
  {
  }

  lemma CopyUnderConstruction(m0: Memory, m1: Memory, m2: Memory, used0: set<nat>, used1: set<nat>, used2: set<nat>,
                              root: nat, template: nat)
    requires SameOn(m0, m1, used0) && root !in used0 && used1 == used0 + {root}
    requires CopyGrown(m1, m2, used1, used2, root, 4, USER_PML4)
    requires Space(m2, root, template)
    ensures UnderConstruction(m0, m2, used0, used2, root, template)
  {
  }

  lemma SeparateAt(m: Memory, base: set<nat>, template: nat, roots: map<nat, nat>, k: nat)
    requires Separate(m, base, template, roots) && k in roots
    ensures Space(m, roots[k], template) && Template(m, template, base)
    ensures Footprint(m, roots[k]) !! base && Footprint(m, roots[k]) <= Owned(m, roots)
  {
  }

  lemma PresentInView(m: Memory, root: nat, a: LinearAddress)
    requires Upper(a)
    ensures a in View(m, root) <==> Lookup(m, root, 4, a).present
    ensures a in View(m, root) ==> View(m, root)[a] == Get(m, Lookup(m, root, 4, a).addr)
  {
  }

  lemma FootprintIs(m: Memory, root: nat)
    ensures Footprint(m, root) == {root} + Frames(m, root, 4, USER_PML4, WritableLeaves)
  {
  }

  lemma RootInFootprint(m: Memory, root: nat)
    ensures root in Footprint(m, root)
  {
  }

  lemma UnmappedPrefix(m: Memory, root: nat, first: nat, k: nat, n: nat)
    requires Unmapped(m, root, first, n) && k <= n
    ensures Unmapped(m, root, first, k)
  {
  }

  lemma SameOwned(m0: Memory, m1: Memory, roots: map<nat, nat>)
    requires InstancesOf(m1, roots) == InstancesOf(m0, roots)
    ensures Owned(m1, roots) == Owned(m0, roots)
  {
    hide Footprint, View;
    forall j | j in roots ensures Footprint(m1, roots[j]) == Footprint(m0, roots[j]) {
      assert InstancesOf(m1, roots)[j] == InstancesOf(m0, roots)[j];
    }
  }

  lemma AddedAndRemoved<V>(m: map<nat, V>, k: nat, v: V, w: V)
    requires k !in m
    ensures m[k := v][k := w] - {k} == m
  {
  }

}
