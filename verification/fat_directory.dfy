/** Directories: finding an entry, and creating one ("FAT Directory Structure" of the FAT32
    specification). */
module FatDirectories {
  import opened FatChains
  import opened FatFiles
  import opened FatNames

  datatype Slot = Slot(name: string, attr: nat, firstCluster: nat, fileSize: nat)

  const ZERO_SLOT := Slot("\0\0\0\0\0\0\0\0\0\0\0", 0, 0, 0)

  /** The first unused entry: none after it is used either. */
  predicate Last(slot: Slot) {
    |slot.name| == NAME_BYTES && slot.name[0] == '\0'
  }

  predicate Deleted(slot: Slot) {
    |slot.name| == NAME_BYTES && slot.name[0] as int == 0xe5
  }

  /** The entries of a directory, over all its clusters. */
  ghost predicate WellFormedDir(slots: seq<Slot>) {
    && (forall p :: 0 <= p < |slots| ==> |slots[p].name| == NAME_BYTES)
    && (forall p, q :: 0 <= p < q < |slots| && Last(slots[p]) ==> Last(slots[q]))
  }

  /** The entry that is meant by a stored name: the first one of that name in use. */
  ghost predicate FoundAt(slots: seq<Slot>, name83: string, p: int) {
    && 0 <= p < |slots| && slots[p].name == name83
    && forall q :: 0 <= q <= p ==> !Last(slots[q]) && (q < p ==> slots[q].name != name83)
  }

  ghost predicate NotThere(slots: seq<Slot>, name83: string) {
    forall p :: !FoundAt(slots, name83, p)
  }

  /** Where a new entry goes: the first entry that is not in use. */
  ghost predicate FreeAt(slots: seq<Slot>, p: nat) {
    && p <= |slots| && (p < |slots| ==> Last(slots[p]) || Deleted(slots[p]))
    && forall q :: 0 <= q < p ==> !Last(slots[q]) && !Deleted(slots[q])
  }

  /** The same by the first byte of the names: 0 ends the directory, 0xe5 marks a deleted entry. */
  lemma FoundIs(slots: seq<Slot>, name83: string, p: nat)
    requires WellFormedDir(slots)
    ensures FoundAt(slots, name83, p) <==>
      p < |slots| && slots[p].name == name83
      && forall q :: 0 <= q <= p ==> slots[q].name[0] as int != 0 && (q < p ==> slots[q].name != name83)
    ensures FreeAt(slots, p) <==>
      p <= |slots| && (p < |slots| ==> slots[p].name[0] as int in {0, 0xe5})
      && forall q :: 0 <= q < p ==> slots[q].name[0] as int !in {0, 0xe5}
  {
  }

  lemma FoundOnce(slots: seq<Slot>, name83: string, p: int, q: int)
    requires FoundAt(slots, name83, p) && FoundAt(slots, name83, q)
    ensures p == q
  {
  }

  /** An entry of that name before the end is found, or an earlier one is. */
  lemma {:induction false} SomewhereFound(slots: seq<Slot>, name83: string, p: nat)
    requires p < |slots| && slots[p].name == name83 && forall q :: 0 <= q <= p ==> !Last(slots[q])
    ensures exists q :: q <= p && FoundAt(slots, name83, q)
    decreases p
  {
    if q :| 0 <= q < p && slots[q].name == name83 {
      SomewhereFound(slots, name83, q);
    } else {
      assert FoundAt(slots, name83, p);
    }
  }

  /** Create then find: in a directory without the name, the new entry is found, and everything that was
      found before still is. The entries after the last one in use, or in a new cluster, are cleared. */
  lemma CreatedIsFound(slots: seq<Slot>, cleared: nat, p: nat, slot: Slot)
    requires WellFormedDir(slots) && FreeAt(slots, p) && p < |slots| + cleared
    requires Usable(slot.name) && NotThere(slots, slot.name)
    ensures var slots' := (slots + seq(cleared, _ => ZERO_SLOT))[p := slot];
      && WellFormedDir(slots') && FoundAt(slots', slot.name, p)
      && forall name83, q :: Usable(name83) && FoundAt(slots, name83, q) ==> FoundAt(slots', name83, q)
  {
    var slots' := (slots + seq(cleared, _ => ZERO_SLOT))[p := slot];
    assert forall q :: |slots| <= q < |slots'| && q != p ==> slots'[q] == ZERO_SLOT;
    assert forall q :: 0 <= q < |slots| && q != p ==> slots'[q] == slots[q];
    forall q | 0 <= q < p ensures slots'[q].name != slot.name {
      if slots[q].name == slot.name {
        SomewhereFound(slots, slot.name, q);
      }
    }
    forall name83, q | Usable(name83) && FoundAt(slots, name83, q) ensures FoundAt(slots', name83, q) {
      assert q != p;
    }
  }

  /** The volume with the clusters of directories seen as entries. */
  class Directories {
    const volume: Volume
    const clusters: array<seq<Slot>>
    const entriesPerCluster: nat

    constructor (volume: Volume, clusters: array<seq<Slot>>, entriesPerCluster: nat)
      ensures this.volume == volume && this.clusters == clusters && this.entriesPerCluster == entriesPerCluster
    {
      this.volume, this.clusters, this.entriesPerCluster := volume, clusters, entriesPerCluster;
    }

    ghost predicate Valid()
      reads volume.fat, clusters
    {
      && IsTable(volume.fat[..]) && clusters.Length == volume.fat.Length && entriesPerCluster > 0
      && forall c :: 0 <= c < clusters.Length ==> |clusters[c]| == entriesPerCluster
    }

    /** A chain of clusters with a well-formed directory in them. */
    ghost predicate IsDirectory(chain: seq<nat>)
      reads volume.fat, clusters
    {
      Valid() && IsChain(volume.fat[..], chain) && WellFormedDir(Slots(chain))
    }

    ghost function Slots(chain: seq<nat>): seq<Slot>
      requires forall i :: 0 <= i < |chain| ==> chain[i] < clusters.Length
      reads clusters
    {
      Flat(clusters[..], chain)
    }

    /** The position of entry i of cluster k of the chain. */
    ghost function Position(chain: seq<nat>, k: nat, i: nat): nat
      requires k <= |chain| && forall j :: 0 <= j < |chain| ==> chain[j] < clusters.Length
      reads clusters
    {
      |Flat(clusters[..], chain[..k])| + i
    }

    /** The entries of one cluster are where Position says. */
    lemma SlotsAt(chain: seq<nat>, k: nat)
      requires Valid() && k < |chain| && forall j :: 0 <= j < |chain| ==> chain[j] < clusters.Length
      ensures Position(chain, k, entriesPerCluster) == Position(chain, k + 1, 0) <= |Slots(chain)|
      ensures forall i :: 0 <= i < entriesPerCluster ==> Slots(chain)[Position(chain, k, i)] == clusters[chain[k]][i]
    {
      FlatAt(clusters[..], chain, k);
    }

    /** FindFile in one directory, for a name without a slash: the place of the entry, if there is one. */
    method FindFile(directoryCluster: nat, name: string, ghost chain: seq<nat>)
      returns (found: bool, cluster: nat, index: nat)
      requires IsDirectory(chain) && chain[0] == directoryCluster
      ensures var name83 := Typed(name, 0, 0, Spaces(NAME_BYTES));
        if found then FoundIn(chain, cluster, index, name83) else NotThere(Slots(chain), name83)
    {
      hide IsChain, Flat, Typed;
      DirectoryInside(chain);
      ghost var name83 := Typed(name, 0, 0, Spaces(NAME_BYTES));
      ghost var k := 0;
      found, cluster, index := false, directoryCluster, 0;
      while cluster != END_OF_CLUSTERCHAIN
        invariant k <= |chain| && NoneBefore(Slots(chain), name83, Position(chain, k, 0))
        invariant if k < |chain| then cluster == chain[k] else cluster == END_OF_CLUSTERCHAIN
        decreases |chain| - k
      {
        SlotsAt(chain, k);
        index := 0;
        while index < entriesPerCluster
          invariant index <= entriesPerCluster && NoneBefore(Slots(chain), name83, Position(chain, k, index))
        {
          var slot := clusters[cluster][index];
          assert slot == Slots(chain)[Position(chain, k, index)];
          if Last(slot) {
            return;
          }
          found := NameIsEqual(slot.name, name);
          if found {
            return;
          }
          index := index + 1;
        }
        OnlyLastEnds(volume.fat[..], chain, k);
        cluster := volume.NextCluster(cluster);
        k := k + 1;
      }
      assert chain[..|chain|] == chain;
    }

    /** AllocateEntry: the first entry not in use; if there is none, the first one of a cleared cluster that
        is added to the directory. */
    method AllocateEntry(dirCluster: nat, ghost chain: seq<nat>)
      returns (cluster: nat, index: nat, ghost k: nat, ghost chain': seq<nat>)
      requires IsDirectory(chain) && chain[0] == dirCluster
      requires FreeAt(Slots(chain), |Slots(chain)|) ==> FreeFrom(volume.fat[..], FIRST_CLUSTER) != []
      modifies volume.fat, clusters
      ensures Allocated(chain, chain', old(Slots(chain)), old(volume.fat[..]), old(clusters[..]))
      ensures IsPlace(chain', k, cluster, index) && FreeAt(old(Slots(chain)), Position(chain', k, index))
    {
      hide IsChain, Flat, FreeFrom;
      DirectoryInside(chain);
      cluster, index, k, chain' := dirCluster, 0, 0, chain;
      while true
        invariant volume.fat[..] == old(volume.fat[..]) && clusters[..] == old(clusters[..])
        invariant k < |chain| && cluster == chain[k]
        invariant NoneFreeBefore(Slots(chain), Position(chain, k, 0))
        decreases |chain| - k
      {
        SlotsAt(chain, k);
        index := 0;
        while index < entriesPerCluster
          invariant volume.fat[..] == old(volume.fat[..]) && clusters[..] == old(clusters[..])
          invariant index <= entriesPerCluster && NoneFreeBefore(Slots(chain), Position(chain, k, index))
        {
          var slot := clusters[cluster][index];
          assert slot == Slots(chain)[Position(chain, k, index)];
          if Last(slot) || Deleted(slot) {
            assert Slots(chain) + seq(0, _ => ZERO_SLOT) == Slots(chain);
            return;
          }
          index := index + 1;
        }
        OnlyLastEnds(volume.fat[..], chain, k);
        var next := volume.NextCluster(cluster);
        if next == END_OF_CLUSTERCHAIN {
          break;
        }
        cluster := next;
        k := k + 1;
      }
      assert chain[..|chain|] == chain;
      cluster, chain' := AddCluster(cluster, chain);
      index, k := 0, |chain|;
    }

    /** What AllocateEntry leaves: the directory as it was, or with one more cluster of cleared entries. */
    ghost predicate Allocated(chain: seq<nat>, chain': seq<nat>, slots: seq<Slot>, fat: seq<nat>, before: seq<seq<Slot>>)
      requires IsTable(fat)
      reads volume.fat, clusters
    {
      && Valid() && IsChain(volume.fat[..], chain') && |before| == clusters.Length
      && Slots(chain') == slots + seq(if chain' == chain then 0 else entriesPerCluster, _ => ZERO_SLOT)
      && Grown(fat, volume.fat[..], chain, chain', if chain' == chain then 0 else 1)
      && forall c :: 0 <= c < clusters.Length && c !in chain' ==> clusters[c] == before[c]
    }

    method AddCluster(last: nat, ghost chain: seq<nat>) returns (cluster: nat, ghost chain': seq<nat>)
      requires Valid() && IsChain(volume.fat[..], chain) && last in chain
      requires FreeFrom(volume.fat[..], FIRST_CLUSTER) != []
      modifies volume.fat, clusters
      ensures Allocated(chain, chain', old(Slots(chain)), old(volume.fat[..]), old(clusters[..]))
      ensures |chain'| == |chain| + 1 && chain' == chain + [cluster] && Position(chain', |chain|, 0) == |old(Slots(chain))|
    {
      hide IsChain, Flat, FreeFrom;
      ghost var before, fat := clusters[..], volume.fat[..];
      FreeNotIn(fat, chain);
      ChainIn(fat, chain);
      chain' := chain + LowestFree(fat, 1);
      cluster := volume.ExtendCluster(last, 1, chain);
      ChainIn(volume.fat[..], chain');
      assert cluster in LowestFree(fat, 1) && LowestFree(fat, 1) == [cluster];
      Cleared(before, chain, cluster);
      clusters[cluster] := seq(entriesPerCluster, _ => ZERO_SLOT);
    }

    /** The entries after a cleared cluster was added. */
    lemma Cleared(before: seq<seq<Slot>>, chain: seq<nat>, cluster: nat)
      requires cluster < |before| && cluster !in chain && forall i :: 0 <= i < |chain| ==> chain[i] < |before|
      ensures var zeros := seq(entriesPerCluster, _ => ZERO_SLOT);
        && (chain + [cluster])[..|chain|] == chain
        && Flat(before[cluster := zeros], chain) == Flat(before, chain)
        && Flat(before[cluster := zeros], chain + [cluster]) == Flat(before, chain) + zeros
    {
      var chain', zeros := chain + [cluster], seq(entriesPerCluster, _ => ZERO_SLOT);
      FlatSame(before, before[cluster := zeros], chain);
      assert chain'[..|chain|] == chain && chain'[..|chain| + 1] == chain';
      FlatAt(before[cluster := zeros], chain', |chain|);
    }

    /** CreateFile in one directory. The entry keeps the first cluster that its place held: so the file begins
        without clusters exactly if the place was never used, or held a file without clusters. */
    method CreateFile(parentCluster: nat, name: string, ghost form: Name, ghost chain: seq<nat>)
      returns (cluster: nat, index: nat, ghost k: nat, ghost chain': seq<nat>)
      requires IsDirectory(chain) && chain[0] == parentCluster
      requires form.Valid() && name == form.Text() && NotThere(Slots(chain), form.Stored())
      requires FreeAt(Slots(chain), |Slots(chain)|) ==> FreeFrom(volume.fat[..], FIRST_CLUSTER) != []
      modifies volume.fat, clusters
      ensures IsDirectory(chain') && chain'[0] == parentCluster && IsPlace(chain', k, cluster, index)
      ensures Grown(old(volume.fat[..]), volume.fat[..], chain, chain', if chain' == chain then 0 else 1)
      ensures FoundAt(Slots(chain'), form.Stored(), Position(chain', k, index)) && clusters[cluster][index].fileSize == 0
      ensures var p := Position(chain', k, index);
        && clusters[cluster][index].firstCluster == (if p < |old(Slots(chain))| then old(Slots(chain))[p].firstCluster else 0)
        && clusters[cluster][index].attr == if p < |old(Slots(chain))| then old(Slots(chain))[p].attr else 0
      ensures forall name83, q :: Usable(name83) && FoundAt(old(Slots(chain)), name83, q) ==>
        FoundAt(Slots(chain'), name83, q) && Slots(chain')[q] == old(Slots(chain))[q]
      ensures forall c :: 0 <= c < clusters.Length && c !in chain' ==> clusters[c] == old(clusters[c])
    {
      hide IsChain, Flat, FreeFrom, FoundAt, NotThere, Name.Valid;
      DirectoryInside(chain);
      ghost var slots := Slots(chain);
      cluster, index, k, chain' := AllocateEntry(parentCluster, chain);
      ChainIn(volume.fat[..], chain');
      var stored := SetFileName(name, form);
      FormUsable(form);
      ghost var cleared := if chain' == chain then 0 else entriesPerCluster;
      var slot := clusters[cluster][index].(name := stored, fileSize := 0);
      ghost var p := Position(chain', k, index);
      PlaceWithin(chain', k, cluster, index);
      CreatedIsFound(slots, cleared, p, slot);
      KeptPlaces(slots, p, slot, cleared);
      SetSlot(cluster, index, slot, k, chain');
    }

    /** Writing one entry of a directory. */
    method SetSlot(cluster: nat, index: nat, slot: Slot, ghost k: nat, ghost chain: seq<nat>)
      requires Valid() && IsChain(volume.fat[..], chain) && IsPlace(chain, k, cluster, index)
      requires Position(chain, k, index) < |Slots(chain)|
      modifies clusters
      ensures Valid() && Position(chain, k, index) == old(Position(chain, k, index))
      ensures Slots(chain) == old(Slots(chain))[old(Position(chain, k, index)) := slot]
      ensures clusters[cluster][index] == slot
      ensures forall c :: 0 <= c < clusters.Length && c != cluster ==> clusters[c] == old(clusters[c])
    {
      ChainIn(volume.fat[..], chain);
      DistinctPlaces(chain, k);
      hide IsChain, Flat;
      ghost var before := clusters[..];
      FlatAt(before, chain, k);
      clusters[cluster] := clusters[cluster][index := slot];
      FlatAt(clusters[..], chain, k);
      FlatSame(before, clusters[..], chain[..k]);
      FlatSame(before, clusters[..], chain[k + 1..]);
    }

    lemma DistinctPlaces(chain: seq<nat>, k: nat)
      requires IsChain(volume.fat[..], chain) && k < |chain|
      ensures chain[k] !in chain[..k] && chain[k] !in chain[k + 1..]
    {
    }

    lemma PositionOnce(chain: seq<nat>, k: nat, i: nat, k': nat, i': nat)
      requires Valid() && k < |chain| && k' < |chain| && forall j :: 0 <= j < |chain| ==> chain[j] < clusters.Length
      requires i < entriesPerCluster && i' < entriesPerCluster && Position(chain, k, i) == Position(chain, k', i')
      ensures k == k' && i == i'
    {
      SlotsAt(chain, k);
      SlotsAt(chain, k');
      Later(chain, k + 1, k');
      Later(chain, k' + 1, k);
    }

    /** Positions grow along the chain. */
    lemma {:induction false} Later(chain: seq<nat>, k: nat, k': nat)
      requires k <= |chain| && k' <= |chain| && forall j :: 0 <= j < |chain| ==> chain[j] < clusters.Length
      ensures k <= k' ==> Position(chain, k, 0) <= Position(chain, k', 0)
      decreases k'
    {
      if k < k' {
        Later(chain, k, k' - 1);
        FlatAt(clusters[..], chain, k' - 1);
      }
    }

    lemma PlaceWithin(chain: seq<nat>, k: nat, cluster: nat, index: nat)
      requires Valid() && IsChain(volume.fat[..], chain) && IsPlace(chain, k, cluster, index)
      ensures Position(chain, k, index) < |Slots(chain)| && Slots(chain)[Position(chain, k, index)] == clusters[cluster][index]
    {
      SlotsAt(chain, k);
    }

    /** A created file is found under its name, at its place; where other files were found, they still are. */
    method CreateThenFind(parentCluster: nat, form: Name, ghost chain: seq<nat>)
      returns (created: (nat, nat), found: bool, place: (nat, nat), ghost chain': seq<nat>)
      requires IsDirectory(chain) && chain[0] == parentCluster
      requires form.Valid() && NotThere(Slots(chain), form.Stored())
      requires FreeAt(Slots(chain), |Slots(chain)|) ==> FreeFrom(volume.fat[..], FIRST_CLUSTER) != []
      modifies volume.fat, clusters
      ensures found && place == created
      ensures IsDirectory(chain') && forall name83, q :: Usable(name83) && FoundAt(old(Slots(chain)), name83, q) ==>
        FoundAt(Slots(chain'), name83, q) && Slots(chain')[q] == old(Slots(chain))[q]
    {
      hide IsChain, Flat, FreeFrom;
      TypedIsStored(form);
      ghost var k;
      var cluster, index, cluster', index';
      cluster, index, k, chain' := CreateFile(parentCluster, form.Text(), form, chain);
      found, cluster', index' := FindFile(parentCluster, form.Text(), chain');
      DirectoryInside(chain');
      assert found;
      ghost var k' :| IsPlace(chain', k', cluster', index')
        && FoundAt(Slots(chain'), form.Stored(), Position(chain', k', index'));
      FoundOnce(Slots(chain'), form.Stored(), Position(chain', k, index), Position(chain', k', index'));
      PositionOnce(chain', k, index, k', index');
      created, place := (cluster, index), (cluster', index');
    }

    /** The place of an entry: a cluster of the directory and an index in it. */
    ghost predicate IsPlace(chain: seq<nat>, k: nat, cluster: nat, index: nat) {
      k < |chain| && chain[k] == cluster && index < entriesPerCluster
    }

    /** The first entry in use with this name is entry `index` of the cluster. */
    ghost predicate FoundIn(chain: seq<nat>, cluster: nat, index: nat, name83: string)
      requires forall i :: 0 <= i < |chain| ==> chain[i] < clusters.Length
      reads clusters
    {
      exists k :: IsPlace(chain, k, cluster, index) && FoundAt(Slots(chain), name83, Position(chain, k, index))
    }

    lemma DirectoryInside(chain: seq<nat>)
      requires IsDirectory(chain)
      ensures forall i :: 0 <= i < |chain| ==> FIRST_CLUSTER <= chain[i] < clusters.Length
      ensures chain != [] && Position(chain, 0, 0) == 0
      ensures forall p :: 0 <= p < |Slots(chain)| ==> |Slots(chain)[p].name| == NAME_BYTES
    {
    }
  }

  lemma FormUsable(form: Name)
    requires form.Valid()
    ensures Usable(form.Stored())
  {
  }

  lemma ChainIn(fat: seq<nat>, chain: seq<nat>)
    requires IsChain(fat, chain)
    ensures forall i :: 0 <= i < |chain| ==> FIRST_CLUSTER <= chain[i] < |fat|
  {
  }

  lemma FreeNotIn(fat: seq<nat>, chain: seq<nat>)
    requires IsTable(fat) && IsChain(fat, chain) && FreeFrom(fat, FIRST_CLUSTER) != []
    ensures forall c :: c in chain ==> FIRST_CLUSTER <= c < |fat| && c !in LowestFree(fat, 1)
  {
    NoneFree(fat, chain);
    LowestFreeIs(fat, 1);
  }

  /** The entries that are found are not where the new one goes. */
  lemma KeptPlaces(slots: seq<Slot>, p: nat, slot: Slot, cleared: nat)
    requires FreeAt(slots, p) && p < |slots| + cleared
    ensures var slots' := (slots + seq(cleared, _ => ZERO_SLOT))[p := slot];
      forall name83, q :: Usable(name83) && FoundAt(slots, name83, q) ==> slots'[q] == slots[q]
  {
  }

  /** No entry before p is free. */
  ghost predicate NoneFreeBefore(slots: seq<Slot>, p: nat) {
    p <= |slots| && forall q :: 0 <= q < p ==> !Last(slots[q]) && !Deleted(slots[q])
  }

  /** No entry before p ends the directory or has the name. */
  ghost predicate NoneBefore(slots: seq<Slot>, name83: string, p: nat) {
    p <= |slots| && forall q :: 0 <= q < p ==> !Last(slots[q]) && slots[q].name != name83
  }
}
