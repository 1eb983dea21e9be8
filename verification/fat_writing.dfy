/** The loop of Write by its numbers: how many bytes it says it wrote, how many clusters it takes, and when
    it puts the bytes where they belong. */
module FatWriting {
  function Min(a: nat, b: nat): nat {
    if a < b then a else b
  }

  /** How many clusters so many bytes need. */
  function NumCluster(bytes: nat, size: nat): (n: nat)
    requires size > 0
    ensures n == 0 <==> bytes == 0
    ensures n <= 1 <==> bytes <= size
  {
    Quotient(bytes, size);
    (bytes + size - 1) / size
  }

  lemma Quotient(bytes: nat, size: nat)
    requires size > 0
    ensures var n := (bytes + size - 1) / size; n >= 0 && (n == 0 <==> bytes == 0) && (n <= 1 <==> bytes <= size)
  {
    var a := bytes + size - 1;
    var n, r := a / size, a % size;
    assert a == n * size + r && 0 <= r < size;
    Times(2, n, size);
    Times(n, 1, size);
    Times(n, 0, size);
  }

  lemma Times(a: int, b: int, size: nat)
    ensures a <= b ==> a * size <= b * size
  {
  }

  /** A whole cluster more needs one cluster more. */
  lemma OneMoreCluster(bytes: nat, size: nat)
    requires size > 0
    ensures NumCluster(bytes + size, size) == NumCluster(bytes, size) + 1
  {
    var a := bytes + size - 1;
    var n, m := a / size, (a + size) / size;
    assert a == n * size + a % size && a + size == m * size + (a + size) % size;
    assert (n + 1) * size == n * size + size;
    assert (n + 2) * size == n * size + 2 * size;
    Times(n + 2, m, size);
    Times(m, n, size);
  }

  /** Where the loop is: the bytes it counts, the offset in the cluster, the clusters of the chain after this
      one, those taken from the free ones, and those of them that were jumped over. */
  datatype Progress = Progress(total: nat, off: nat, after: nat, taken: nat, skipped: nat) {
    /** All len bytes are written, and none of the clusters is left out. */
    predicate Right(len: nat) {
      total == len && skipped == 0
    }
  }

  /** At the end of a cluster: the next one of the chain; if there is none, the last of as many new ones as the
      remaining bytes need. */
  function Entered(len: nat, size: nat, p: Progress): Progress
    requires size > 0 && p.total < len
  {
    if p.off != size then p
    else if p.after > 0 then p.(off := 0, after := p.after - 1)
    else
      var k := NumCluster(len - p.total, size);
      p.(off := 0, taken := p.taken + k, skipped := p.skipped + k - 1)
  }

  /** The chunk is bounded by len, and not by what is left of it. */
  function Chunk(len: nat, size: nat, p: Progress): (q: Progress)
    requires size > 0 && p.off <= size && p.total < len
    ensures q.off <= size && p.total < q.total && p.taken <= q.taken && p.skipped <= q.skipped
  {
    var q := Entered(len, size, p);
    var n := Min(len, size - q.off);
    q.(total := q.total + n, off := q.off + n)
  }

  function Loop(len: nat, size: nat, p: Progress): (r: Progress)
    requires size > 0 && p.off <= size
    ensures r.off <= size && p.total <= r.total && p.taken <= r.taken && p.skipped <= r.skipped && len <= r.total
    decreases len - p.total
  {
    if p.total >= len then p else Loop(len, size, Chunk(len, size, p))
  }

  lemma LoopStep(len: nat, size: nat, p: Progress)
    requires size > 0 && p.off <= size
    ensures Loop(len, size, p) == if p.total >= len then p else Loop(len, size, Chunk(len, size, p))
  {
  }

  /** What is taken and skipped counts from where it starts. */
  lemma {:induction false} LoopFrom(len: nat, size: nat, p: Progress)
    requires size > 0 && p.off <= size
    ensures var r := Loop(len, size, p.(taken := 0, skipped := 0));
      Loop(len, size, p) == r.(taken := r.taken + p.taken, skipped := r.skipped + p.skipped)
    decreases len - p.total
  {
    if p.total < len {
      var q, q0 := Chunk(len, size, p), Chunk(len, size, p.(taken := 0, skipped := 0));
      assert q == q0.(taken := q0.taken + p.taken, skipped := q0.skipped + p.skipped);
      hide Chunk;
      LoopFrom(len, size, q);
      LoopFrom(len, size, q0);
    }
  }

  // ---------------------------------------------------------------- how much Write says it wrote

  /** A position is at the end of a cluster. */
  predicate AtClusterEnd(position: nat, size: nat)
    requires size > 0
  {
    if position < size then position == 0 else AtClusterEnd(position - size, size)
  }

  /** The whole clusters before a position. */
  function Clusters(position: nat, size: nat): nat
    requires size > 0
  {
    if position < size then 0 else 1 + Clusters(position - size, size)
  }

  function Start(off: nat, size: nat): nat {
    if off == size then 0 else off
  }

  /** Write reports len exactly if the bytes fit into the cluster, or are more than a cluster and end with
      one. In all other cases it reports more. */
  lemma WriteReports(len: nat, size: nat, p: Progress)
    requires size > 0 && p.off <= size && p.total == 0
    ensures Loop(len, size, p).total == len <==>
            Start(p.off, size) + len <= size || (len > size && AtClusterEnd(Start(p.off, size) + len, size))
  {
    if len > 0 {
      var q := Chunk(len, size, p);
      if Start(p.off, size) + len > size {
        if len <= size {
          assert q.off == size && Chunk(len, size, q).total > len;
        } else {
          WholeClusters(len, size, q);
        }
      }
    }
  }

  lemma {:induction false} WholeClusters(len: nat, size: nat, p: Progress)
    requires 0 < size < len && p.off == size
    ensures p.total <= len ==> (Loop(len, size, p).total == len <==> AtClusterEnd(len - p.total, size))
    decreases len - p.total
  {
    if p.total < len {
      WholeClusters(len, size, Chunk(len, size, p));
    }
  }

  // ---------------------------------------------------------------- when the bytes are where they belong

  /** A write into a chain puts the bytes where they belong exactly if they fit into the cluster, or are more
      than a cluster, end with one, and at most one of the clusters they need is missing from the chain. */
  lemma RightExactly(len: nat, size: nat, p: Progress)
    requires size > 0 && p.off <= size && p.total == p.taken == p.skipped == 0
    ensures var end := Start(p.off, size) + len;
      Loop(len, size, p).Right(len) <==>
      end <= size
      || (len > size && AtClusterEnd(end, size) && Clusters(end, size) <= p.after + if p.off == size then 1 else 2)
  {
    hide Clusters, AtClusterEnd, Loop;
    LoopStep(len, size, p);
    if len > 0 {
      var end, q := Start(p.off, size) + len, Chunk(len, size, p);
      LoopStep(len, size, q);
      if len <= size {
        assert end > size ==> q.off == size && Chunk(len, size, q).total > len;
      } else {
        ClusterLeft(end, size);
        ClustersRight(len, size, q);
        if AtClusterEnd(end, size) {
          Beyond(end, size);
        }
      }
    }
  }

  lemma ClusterLeft(end: nat, size: nat)
    requires 0 < size < end
    ensures AtClusterEnd(end, size) <==> AtClusterEnd(end - size, size)
    ensures Clusters(end, size) == 1 + Clusters(end - size, size)
  {
  }

  lemma Beyond(position: nat, size: nat)
    requires 0 < size < position && AtClusterEnd(position, size)
    ensures position >= 2 * size && Clusters(position, size) >= 2
  {
  }

  lemma {:induction false} ClustersRight(len: nat, size: nat, p: Progress)
    requires 0 < size < len && p.off == size && p.total <= len
    ensures Loop(len, size, p).Right(len) <==>
            p.skipped == 0 && AtClusterEnd(len - p.total, size) && Clusters(len - p.total, size) <= p.after + 1
    decreases len - p.total
  {
    if p.total < len {
      var left, q := len - p.total, Chunk(len, size, p);
      if left > size && AtClusterEnd(left, size) {
        Beyond(left, size);
      }
      if left >= size {
        ClustersRight(len, size, q);
      }
    }
  }

  /** A new file gets all its clusters at once, and one even for no byte. */
  function NewFile(len: nat, size: nat): Progress
    requires size > 0
  {
    var n := if len == 0 then 1 else NumCluster(len, size);
    Progress(0, 0, n - 1, n, 0)
  }

  /** So for a new file the bytes are right exactly if they fit into a cluster, or end with one. */
  lemma NewFileRight(len: nat, size: nat)
    requires size > 0
    ensures Loop(len, size, NewFile(len, size)).Right(len) <==> len <= size || AtClusterEnd(len, size)
  {
    var p := NewFile(len, size);
    LoopFrom(len, size, p);
    RightExactly(len, size, p.(taken := 0));
    if AtClusterEnd(len, size) {
      ClustersNeeded(len, size);
    }
  }

  lemma {:induction false} ClustersNeeded(len: nat, size: nat)
    requires size > 0 && AtClusterEnd(len, size)
    ensures NumCluster(len, size) == Clusters(len, size)
    decreases len
  {
    if len >= size {
      ClustersNeeded(len - size, size);
      OneMoreCluster(len - size, size);
    }
  }

  /** The input for which the count is right and the bytes are not: a file of one full cluster, and a write of
      two. Both are taken at once and the first is jumped over, and so a third is taken. */
  lemma GapExample(size: nat)
    requires size > 0
    ensures var r := Loop(2 * size, size, Progress(0, size, 0, 0, 0)); r.total == 2 * size && r.skipped == 1 && r.taken == 3
  {
    OneMoreCluster(size, size);
    var p := Chunk(2 * size, size, Progress(0, size, 0, 0, 0));
    assert p == Progress(size, size, 0, 2, 1);
    var q := Chunk(2 * size, size, p);
    assert q == Progress(2 * size, size, 0, 3, 1);
    assert Loop(2 * size, size, q) == q && Loop(2 * size, size, p) == q;
  }

  // ---------------------------------------------------------------- many writes

  /** Where the next byte goes: to a file without clusters, or to an offset in a cluster that has so many after
      it in the chain. */
  datatype Spot = New | In(off: nat, after: nat) {
    predicate Ok(size: nat) {
      New? || off <= size
    }

    function Off(): nat {
      if New? then 0 else off
    }
  }

  function Begun(spot: Spot, len: nat, size: nat): (p: Progress)
    requires size > 0 && spot.Ok(size)
    ensures p.off <= size
  {
    if spot.New? then NewFile(len, size) else Progress(0, spot.off, spot.after, 0, 0)
  }

  /** One write. */
  function Written(spot: Spot, len: nat, size: nat): Progress
    requires size > 0 && spot.Ok(size)
  {
    Loop(len, size, Begun(spot, len, size))
  }

  function Next(spot: Spot, len: nat, size: nat): (next: Spot)
    requires size > 0 && spot.Ok(size)
    ensures next.Ok(size)
  {
    In(Written(spot, len, size).off, Written(spot, len, size).after)
  }

  /** Each write puts its bytes where they belong. */
  predicate AllRight<T>(pieces: seq<seq<T>>, spot: Spot, size: nat)
    requires size > 0 && spot.Ok(size)
  {
    pieces != [] ==>
      Written(spot, |pieces[0]|, size).Right(|pieces[0]|) && AllRight(pieces[1..], Next(spot, |pieces[0]|, size), size)
  }

  /** The clusters that they take. */
  function Taken<T>(pieces: seq<seq<T>>, spot: Spot, size: nat): nat
    requires size > 0 && spot.Ok(size)
  {
    if pieces == [] then 0
    else Written(spot, |pieces[0]|, size).taken + Taken(pieces[1..], Next(spot, |pieces[0]|, size), size)
  }

  /** No piece crosses the end of a cluster. */
  predicate Fit<T>(pieces: seq<seq<T>>, off: nat, size: nat) {
    pieces != [] ==>
      Start(off, size) + |pieces[0]| <= size
      && Fit(pieces[1..], if pieces[0] == [] then off else Start(off, size) + |pieces[0]|, size)
  }

  /** Pieces that do not cross the end of a cluster are all right, and take a cluster each at most. */
  lemma {:induction false} FitIsRight<T>(pieces: seq<seq<T>>, spot: Spot, size: nat)
    requires size > 0 && spot.Ok(size) && Fit(pieces, spot.Off(), size)
    ensures AllRight(pieces, spot, size) && Taken(pieces, spot, size) <= |pieces|
  {
    if pieces != [] {
      OneFits(spot, |pieces[0]|, size);
      FitIsRight(pieces[1..], Next(spot, |pieces[0]|, size), size);
    }
  }

  lemma OneFits(spot: Spot, len: nat, size: nat)
    requires size > 0 && spot.Ok(size) && Start(spot.Off(), size) + len <= size
    ensures var r := Written(spot, len, size);
      r.Right(len) && r.taken <= 1 && r.off == if len == 0 then spot.Off() else Start(spot.Off(), size) + len
  {
    var p := Begun(spot, len, size);
    assert p.taken <= 1 && p.skipped == 0;
    if len > 0 {
      var q := Chunk(len, size, p);
      assert q.total == len && Loop(len, size, q) == q;
    }
  }
}
