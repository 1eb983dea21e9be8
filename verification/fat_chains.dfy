/** Cluster chains in the file allocation table ("FAT Data Structure" of the FAT32 specification). */
module FatChains {
  const END_OF_CLUSTERCHAIN: nat := 0x0fff_ffff
  const FIRST_CLUSTER: nat := 2

  predicate IsEndOfClusterchain(entry: nat) {
    entry >= 0x0fff_fff8
  }

  /** A table whose cluster numbers are not end marks. */
  predicate IsTable(fat: seq<nat>) {
    FIRST_CLUSTER <= |fat| <= 0x0fff_fff0
  }

  /** The clusters of a chain, in order: each entry names the next cluster, the last one ends the chain,
      and no cluster occurs twice. */
  ghost predicate IsChain(fat: seq<nat>, chain: seq<nat>) {
    && chain != []
    && (forall i :: 0 <= i < |chain| ==> FIRST_CLUSTER <= chain[i] < |fat|)
    && (forall i, j :: 0 <= i < j < |chain| ==> chain[i] != chain[j])
    && (forall i, next :: 0 <= i < |chain| && next == i + 1 < |chain| ==> fat[chain[i]] == chain[next])
    && IsEndOfClusterchain(fat[chain[|chain| - 1]])
  }

  /** The free clusters from a number on, lowest first. */
  function FreeFrom(fat: seq<nat>, from: nat): (r: seq<nat>)
    requires from <= |fat|
    decreases |fat| - from
  {
    if from == |fat| then []
    else if fat[from] == 0 then [from] + FreeFrom(fat, from + 1)
    else FreeFrom(fat, from + 1)
  }

  /** They are all free clusters, in increasing order. */
  lemma {:induction false} FreeFromIs(fat: seq<nat>, from: nat)
    requires from <= |fat|
    ensures forall c :: c in FreeFrom(fat, from) <==> from <= c < |fat| && fat[c] == 0
    ensures forall i, j :: 0 <= i < j < |FreeFrom(fat, from)| ==> FreeFrom(fat, from)[i] < FreeFrom(fat, from)[j]
    decreases |fat| - from
  {
    if from < |fat| {
      FreeFromIs(fat, from + 1);
      var rest := FreeFrom(fat, from + 1);
      forall i | 0 <= i < |rest| ensures rest[i] > from {
        assert rest[i] in rest;
      }
    }
  }

  /** The n lowest free clusters. */
  function LowestFree(fat: seq<nat>, n: nat): (r: seq<nat>)
    requires IsTable(fat) && n <= |FreeFrom(fat, FIRST_CLUSTER)|
    ensures |r| == n
  {
    FreeFrom(fat, FIRST_CLUSTER)[..n]
  }

  /** A chain is untouched by changes to other entries. */
  lemma ChainKept(fat: seq<nat>, fat': seq<nat>, chain: seq<nat>)
    requires IsChain(fat, chain) && |fat'| == |fat| && forall c :: c in chain ==> fat'[c] == fat[c]
    ensures IsChain(fat', chain)
  {
  }

  lemma FirstTwo(fat: seq<nat>, chain: seq<nat>)
    requires IsChain(fat, chain)
    ensures 0 !in chain && 1 !in chain
  {
  }

  lemma NoneFree(fat: seq<nat>, chain: seq<nat>)
    requires IsChain(fat, chain)
    ensures forall c :: c in chain ==> fat[c] != 0
  {
    forall i | 0 <= i < |chain| ensures fat[chain[i]] != 0 {
      var next := i + 1;
      assert next < |chain| ==> fat[chain[i]] == chain[next];
    }
  }

  lemma OnlyLastEnds(fat: seq<nat>, chain: seq<nat>, k: nat)
    requires IsTable(fat) && IsChain(fat, chain) && k < |chain|
    ensures IsEndOfClusterchain(fat[chain[k]]) <==> k == |chain| - 1
    ensures k < |chain| - 1 ==> fat[chain[k]] == chain[k + 1]
  {
  }

  ghost predicate Clusters(all: seq<nat>, size: nat) {
    && all != []
    && (forall i :: 0 <= i < |all| ==> FIRST_CLUSTER <= all[i] < size)
    && (forall i, j :: 0 <= i < j < |all| ==> all[i] != all[j])
  }

  /** While a chain grows: its clusters so far are linked, the last one's entry is still open, and
      nothing else has changed. */
  ghost predicate Growing(fat: seq<nat>, before: seq<nat>, all: seq<nat>) {
    && |fat| == |before| && Clusters(all, |fat|)
    && (forall i, next :: 0 <= i < |all| && next == i + 1 < |all| ==> fat[all[i]] == all[next])
    && (forall c :: 0 <= c < |fat| && c !in all ==> fat[c] == before[c])
  }

  /** The list of free clusters, one candidate at a time. */
  lemma FreeStep(fat: seq<nat>, from: nat)
    requires from <= |fat| && FreeFrom(fat, from) != []
    ensures from < |fat|
    ensures FreeFrom(fat, from) == if fat[from] == 0 then [from] + FreeFrom(fat, from + 1) else FreeFrom(fat, from + 1)
  {
  }

  lemma GrowingStep(fat: seq<nat>, before: seq<nat>, all: seq<nat>, candidate: nat)
    requires Growing(fat, before, all) && FIRST_CLUSTER <= candidate < |fat| && candidate !in all
    ensures all[|all| - 1] < |fat| && Growing(fat[all[|all| - 1] := candidate], before, all + [candidate])
  {
    var last := all[|all| - 1];
    var fat', all' := fat[last := candidate], all + [candidate];
    forall i, next | 0 <= i < |all'| && next == i + 1 < |all'| ensures fat'[all'[i]] == all'[next] {
      assert next < |all| ==> fat[all[i]] == all[next];
    }
    assert last in all && candidate in all';
  }

  lemma Closed(fat: seq<nat>, before: seq<nat>, chain: seq<nat>, added: seq<nat>)
    requires IsChain(before, chain) && Growing(fat, before, chain + added)
    ensures var all := chain + added; var last := all[|all| - 1];
      && last < |fat| && IsChain(fat[last := END_OF_CLUSTERCHAIN], all)
      && forall c :: 0 <= c < |fat| && c !in added && c != chain[|chain| - 1] ==>
           fat[last := END_OF_CLUSTERCHAIN][c] == before[c]
  {
    var all := chain + added;
    var fat' := fat[all[|all| - 1] := END_OF_CLUSTERCHAIN];
    forall i, next | 0 <= i < |all| && next == i + 1 < |all| ensures fat'[all[i]] == all[next] {
      assert fat[all[i]] == all[next];
    }
    forall c | 0 <= c < |fat| && c !in added && c != chain[|chain| - 1] ensures fat'[c] == before[c] {
      if c in chain {
        var i :| 0 <= i < |chain| && chain[i] == c;
        var next := i + 1;
        assert before[chain[i]] == chain[next] == all[next] && all[i] == c;
        assert fat[all[i]] == all[next];
      }
    }
  }

  /** The cluster looked at is free in the growing table exactly if it was free before. */
  lemma StillFree(fat: seq<nat>, before: seq<nat>, chain: seq<nat>, added: seq<nat>, candidate: nat)
    requires IsChain(before, chain) && Growing(fat, before, chain + added)
    requires added == [] ==> fat == before
    requires candidate < |fat| && candidate !in added
    ensures fat[candidate] == 0 <==> before[candidate] == 0
    ensures before[candidate] == 0 ==> candidate !in chain + added
  {
    NoneFree(before, chain);
    if candidate in chain && added != [] {
      var all := chain + added;
      var i :| 0 <= i < |chain| && chain[i] == candidate;
      var next := i + 1;
      assert all[i] == candidate;
      assert fat[all[i]] == all[next];
    }
  }

  /** The loop of ExtendCluster: the lowest free clusters below the candidate were appended. */
  ghost predicate Extending(fat: seq<nat>, before: seq<nat>, chain: seq<nat>, added: seq<nat>, candidate: nat, current: nat) {
    && IsChain(before, chain) && FIRST_CLUSTER <= candidate <= |before|
    && FreeFrom(before, FIRST_CLUSTER) == added + FreeFrom(before, candidate)
    && Growing(fat, before, chain + added) && current == (chain + added)[|chain + added| - 1]
    && (added == [] ==> fat == before)
    && (forall c :: c in added ==> c < candidate)
  }

  lemma StartGrowing(fat: seq<nat>, chain: seq<nat>)
    requires IsChain(fat, chain)
    ensures Growing(fat, fat, chain) && chain != [] && chain[|chain| - 1] < |fat|
  {
  }

  lemma StartExtending(fat: seq<nat>, chain: seq<nat>)
    requires IsTable(fat) && IsChain(fat, chain)
    ensures chain != [] && Extending(fat, fat, chain, [], FIRST_CLUSTER, chain[|chain| - 1])
  {
    StartGrowing(fat, chain);
    assert chain + [] == chain && [] + FreeFrom(fat, FIRST_CLUSTER) == FreeFrom(fat, FIRST_CLUSTER);
  }

  lemma NextCandidate(fat: seq<nat>, before: seq<nat>, chain: seq<nat>, added: seq<nat>, candidate: nat, current: nat)
    requires Extending(fat, before, chain, added, candidate, current) && |added| < |FreeFrom(before, FIRST_CLUSTER)|
    ensures candidate < |fat| && current < |fat|
    ensures if fat[candidate] == 0
            then Extending(fat[current := candidate], before, chain, added + [candidate], candidate + 1, candidate)
            else Extending(fat, before, chain, added, candidate + 1, current)
  {
    hide IsChain, FreeFrom;
    FreeStep(before, candidate);
    StillFree(fat, before, chain, added, candidate);
    hide Growing;
    if fat[candidate] == 0 {
      GrowingStep(fat, before, chain + added, candidate);
      assert chain + (added + [candidate]) == chain + added + [candidate];
    }
  }

  lemma ExtensionDone(fat: seq<nat>, before: seq<nat>, chain: seq<nat>, added: seq<nat>, candidate: nat, current: nat)
    requires IsTable(before) && Extending(fat, before, chain, added, candidate, current)
    ensures |added| <= |FreeFrom(before, FIRST_CLUSTER)| && added == LowestFree(before, |added|) && current < |fat|
    ensures var fat' := fat[current := END_OF_CLUSTERCHAIN];
      && chain != [] && IsChain(fat', chain + added) && current == (chain + added)[|chain| + |added| - 1]
      && |fat| == |before|
      && forall c :: 0 <= c < |fat| && c !in added && c != chain[|chain| - 1] ==> fat'[c] == before[c]
  {
    Closed(fat, before, chain, added);
  }

  /** The chains of a volume: disjoint, and every cluster in use is in one of them. */
  ghost predicate WellFormed(fat: seq<nat>, chains: seq<seq<nat>>) {
    && IsTable(fat)
    && (forall k :: 0 <= k < |chains| ==> IsChain(fat, chains[k]))
    && (forall j, k :: 0 <= j < k < |chains| ==> Disjoint(chains[j], chains[k]))
    && (forall c :: FIRST_CLUSTER <= c < |fat| && fat[c] != 0 ==> exists k :: 0 <= k < |chains| && c in chains[k])
  }

  ghost predicate Disjoint(a: seq<nat>, b: seq<nat>) {
    forall c :: c in a ==> c !in b
  }

  lemma LowestFreeIs(fat: seq<nat>, n: nat)
    requires IsTable(fat) && n <= |FreeFrom(fat, FIRST_CLUSTER)|
    ensures forall c :: c in LowestFree(fat, n) ==> FIRST_CLUSTER <= c < |fat| && fat[c] == 0
    ensures n > 0 ==> forall c :: FIRST_CLUSTER <= c < |fat| && fat[c] == 0 ==> LowestFree(fat, n)[0] <= c
    ensures forall c, d :: c in LowestFree(fat, n) && FIRST_CLUSTER <= d < c && fat[d] == 0 ==> d in LowestFree(fat, n)
  {
    var free := FreeFrom(fat, FIRST_CLUSTER);
    FreeFromIs(fat, FIRST_CLUSTER);
    forall c | c in LowestFree(fat, n) ensures c in free {
    }
    forall c | FIRST_CLUSTER <= c < |fat| && fat[c] == 0 ensures n > 0 ==> LowestFree(fat, n)[0] <= c {
      assert c in free;
      var j :| 0 <= j < |free| && free[j] == c;
    }
    forall c, d | c in LowestFree(fat, n) && FIRST_CLUSTER <= d < c && fat[d] == 0 ensures d in LowestFree(fat, n) {
      var i :| 0 <= i < n && free[..n][i] == c;
      assert free[i] == c && d in free;
      var j :| 0 <= j < |free| && free[j] == d;
      assert j < i;
      assert free[..n][j] == d;
    }
  }

  /** A chain that ends elsewhere does not notice that free clusters were taken. */
  lemma OtherChain(fat: seq<nat>, fat': seq<nat>, chain: seq<nat>, n: nat, last: nat)
    requires IsTable(fat) && n <= |FreeFrom(fat, FIRST_CLUSTER)| && |fat'| == |fat|
    requires IsChain(fat, chain) && last !in chain
    requires forall c :: 0 <= c < |fat| && c !in LowestFree(fat, n) && c != last ==> fat'[c] == fat[c]
    ensures IsChain(fat', chain) && forall c :: c in LowestFree(fat, n) ==> c !in chain
  {
    LowestFreeIs(fat, n);
    NoneFree(fat, chain);
    hide FreeFrom, LowestFree;
    assert forall c :: c in chain ==> 0 <= c < |fat|;
    ChainKept(fat, fat', chain);
  }

  /** What ExtendCluster does to one chain leaves the volume well formed, and all other chains alone. */
  lemma Extended(fat: seq<nat>, fat': seq<nat>, chains: seq<seq<nat>>, k: nat, n: nat)
    requires WellFormed(fat, chains) && k < |chains| && chains[k] != []
    requires n <= |FreeFrom(fat, FIRST_CLUSTER)| && |fat'| == |fat|
    requires IsChain(fat', chains[k] + LowestFree(fat, n))
    requires forall c :: 0 <= c < |fat| && c !in LowestFree(fat, n) && c != chains[k][|chains[k]| - 1] ==> fat'[c] == fat[c]
    ensures WellFormed(fat', chains[k := chains[k] + LowestFree(fat, n)])
  {
    hide IsChain, FreeFrom, LowestFree;
    var added := LowestFree(fat, n);
    var chains', last := chains[k := chains[k] + added], chains[k][|chains[k]| - 1];
    forall j | 0 <= j < |chains| && j != k ensures IsChain(fat', chains[j]) && Disjoint(chains[j], chains'[k]) {
      assert Disjoint(chains[if j < k then j else k], chains[if j < k then k else j]);
      OtherChain(fat, fat', chains[j], n, last);
    }
    forall c | FIRST_CLUSTER <= c < |fat'| && fat'[c] != 0 ensures exists j :: 0 <= j < |chains'| && c in chains'[j] {
      if c in chains'[k] {
      } else {
        var j :| 0 <= j < |chains| && c in chains[j];
        assert c in chains'[j];
      }
    }
  }

  /** And so does AllocateClusterChain, which adds a chain. */
  lemma Allocated(fat: seq<nat>, fat': seq<nat>, chains: seq<seq<nat>>, n: nat)
    requires WellFormed(fat, chains) && n <= |FreeFrom(fat, FIRST_CLUSTER)| && |fat'| == |fat|
    requires IsChain(fat', LowestFree(fat, n))
    requires forall c :: 0 <= c < |fat| && c !in LowestFree(fat, n) ==> fat'[c] == fat[c]
    ensures WellFormed(fat', chains + [LowestFree(fat, n)])
  {
    hide IsChain, FreeFrom, LowestFree;
    var added := LowestFree(fat, n);
    var chains' := chains + [added];
    forall j | 0 <= j < |chains| ensures IsChain(fat', chains[j]) && Disjoint(chains[j], added) {
      FirstTwo(fat, chains[j]);
      OtherChain(fat, fat', chains[j], n, 0);
    }
    forall c | FIRST_CLUSTER <= c < |fat'| && fat'[c] != 0 ensures exists j :: 0 <= j < |chains'| && c in chains'[j] {
      if c in added {
        assert c in chains'[|chains|];
      } else {
        var j :| 0 <= j < |chains| && c in chains[j];
        assert c in chains'[j];
      }
    }
  }

  class Volume {
    const fat: array<nat>
    const data: array<seq<char>>
    const bytesPerCluster: nat

    constructor (fat: array<nat>, data: array<seq<char>>, bytesPerCluster: nat)
      ensures this.fat == fat && this.data == data && this.bytesPerCluster == bytesPerCluster
    {
      this.fat, this.data, this.bytesPerCluster := fat, data, bytesPerCluster;
    }

    /** The clusters all have the size the volume says. */
    ghost predicate Valid()
      reads fat, data
    {
      && IsTable(fat[..]) && data.Length == fat.Length && bytesPerCluster > 0
      && forall c :: 0 <= c < data.Length ==> |data[c]| == bytesPerCluster
    }

    function NextCluster(cluster: nat): (next: nat)
      requires cluster < fat.Length
      reads fat
    {
      if IsEndOfClusterchain(fat[cluster]) then END_OF_CLUSTERCHAIN else fat[cluster]
    }

    /** Appends the n lowest free clusters to a chain, given any of its clusters. The search for free
        clusters has no end of its own, so there must be n. */
    method ExtendCluster(cluster: nat, n: nat, ghost chain: seq<nat>) returns (last: nat)
      requires IsTable(fat[..]) && IsChain(fat[..], chain) && cluster in chain
      requires n <= |FreeFrom(fat[..], FIRST_CLUSTER)|
      modifies fat
      ensures var added := LowestFree(old(fat[..]), n);
        && IsChain(fat[..], chain + added) && last == (chain + added)[|chain| + n - 1]
        && forall c :: 0 <= c < fat.Length && c !in added && c != chain[|chain| - 1] ==> fat[c] == old(fat[c])
    {
      hide IsChain, Growing, FreeFrom, Extending;
      var eocCluster := FindEnd(cluster, chain);
      ghost var before := fat[..];
      StartExtending(before, chain);
      ghost var added: seq<nat> := [];
      var numAllocated := 0;
      var current: nat := eocCluster;
      var candidate: nat := FIRST_CLUSTER;
      while numAllocated < n
        invariant numAllocated == |added| <= n && candidate <= fat.Length
        invariant Extending(fat[..], before, chain, added, candidate, current)
        decreases fat.Length - candidate
      {
        NextCandidate(fat[..], before, chain, added, candidate, current);
        if fat[candidate] == 0 {
          ghost var during := fat[..];
          fat[current] := candidate;
          assert fat[..] == during[current := candidate];
          added := added + [candidate];
          current := candidate;
          numAllocated := numAllocated + 1;
        }
        candidate := candidate + 1;
      }
      ExtensionDone(fat[..], before, chain, added, candidate, current);
      ghost var during := fat[..];
      fat[current] := END_OF_CLUSTERCHAIN;
      assert fat[..] == during[current := END_OF_CLUSTERCHAIN];
      last := current;
    }

    /** Follows the chain to its end. */
    method FindEnd(cluster: nat, ghost chain: seq<nat>) returns (eocCluster: nat)
      requires IsTable(fat[..]) && IsChain(fat[..], chain) && cluster in chain
      ensures eocCluster == chain[|chain| - 1]
    {
      eocCluster := cluster;
      ghost var k :| 0 <= k < |chain| && chain[k] == cluster;
      OnlyLastEnds(fat[..], chain, k);
      while !IsEndOfClusterchain(fat[eocCluster])
        invariant k < |chain| && chain[k] == eocCluster
        invariant IsEndOfClusterchain(fat[eocCluster]) <==> k == |chain| - 1
        decreases |chain| - k
      {
        OnlyLastEnds(fat[..], chain, k);
        eocCluster := fat[eocCluster];
        k := k + 1;
        OnlyLastEnds(fat[..], chain, k);
      }
    }

    /** A new chain of the n lowest free clusters; of one cluster when n is 0. */
    method AllocateClusterChain(n: nat) returns (firstCluster: nat)
      requires IsTable(fat[..])
      requires (if n == 0 then 1 else n) <= |FreeFrom(fat[..], FIRST_CLUSTER)|
      modifies fat
      ensures var chain := LowestFree(old(fat[..]), if n == 0 then 1 else n);
        && IsChain(fat[..], chain) && firstCluster == chain[0]
        && forall c :: 0 <= c < fat.Length && c !in chain ==> fat[c] == old(fat[c])
    {
      ghost var before := fat[..];
      ghost var free := FreeFrom(before, FIRST_CLUSTER);
      firstCluster := FIRST_CLUSTER;
      while fat[firstCluster] != 0
        invariant FIRST_CLUSTER <= firstCluster < fat.Length && free == FreeFrom(before, firstCluster)
        invariant forall c :: FIRST_CLUSTER <= c < firstCluster ==> before[c] != 0
        invariant fat[..] == before
        decreases fat.Length - firstCluster
      {
        firstCluster := firstCluster + 1;
      }
      fat[firstCluster] := END_OF_CLUSTERCHAIN;
      assert fat[..] == before[firstCluster := END_OF_CLUSTERCHAIN];
      FirstTaken(before, FIRST_CLUSTER, firstCluster, END_OF_CLUSTERCHAIN);
      if n > 1 {
        var last := ExtendCluster(firstCluster, n - 1, [firstCluster]);
        assert [firstCluster] + free[1..][..n - 1] == free[..n];
      } else {
        assert free[..1] == [firstCluster];
      }
    }
  }

  lemma {:induction false} SameFree(fat: seq<nat>, fat': seq<nat>, from: nat)
    requires from <= |fat| == |fat'| && forall c :: from <= c < |fat| ==> (fat[c] == 0 <==> fat'[c] == 0)
    ensures FreeFrom(fat, from) == FreeFrom(fat', from)
    decreases |fat| - from
  {
    if from < |fat| {
      SameFree(fat, fat', from + 1);
    }
  }

  /** Taking the lowest free cluster leaves the others. */
  lemma {:induction false} FirstTaken(before: seq<nat>, from: nat, first: nat, mark: nat)
    requires from <= first < |before| && before[first] == 0 && mark != 0
    requires forall c :: from <= c < first ==> before[c] != 0
    ensures FreeFrom(before, from) != [] && FreeFrom(before, from)[0] == first
    ensures FreeFrom(before[first := mark], from) == FreeFrom(before, from)[1..]
    decreases first - from
  {
    if from < first {
      FirstTaken(before, from + 1, first, mark);
    } else {
      SameFree(before, before[first := mark], first + 1);
    }
  }

  /** Taking the n lowest free clusters leaves the others. */
  lemma {:induction false} FreeDropped(fat: seq<nat>, fat': seq<nat>, from: nat, n: nat)
    requires from <= |fat| == |fat'| && n <= |FreeFrom(fat, from)|
    requires forall c :: from <= c < |fat| ==> (fat'[c] == 0 <==> fat[c] == 0 && c !in FreeFrom(fat, from)[..n])
    ensures FreeFrom(fat', from) == FreeFrom(fat, from)[n..]
    decreases |fat| - from
  {
    if from < |fat| {
      var rest := FreeFrom(fat, from + 1);
      FreeFromIs(fat, from + 1);
      if fat[from] != 0 {
        FreeDropped(fat, fat', from + 1, n);
      } else if n == 0 {
        FreeDropped(fat, fat', from + 1, 0);
      } else {
        assert ([from] + rest)[..n] == [from] + rest[..n - 1];
        assert from in FreeFrom(fat, from)[..n];
        FreeDropped(fat, fat', from + 1, n - 1);
      }
    }
  }
}
