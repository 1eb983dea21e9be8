/** Reading and writing files through cluster chains. */
module FatFiles {
  import opened FatChains
  import opened FatWriting
  import opened Streams

  class DirectoryEntry {
    var firstClusterLow: nat
    var firstClusterHigh: nat
    var fileSize: nat

    constructor ()
      ensures FirstCluster() == 0 && fileSize == 0
    {
      firstClusterLow, firstClusterHigh, fileSize := 0, 0, 0;
    }

    function FirstCluster(): nat
      reads this
    {
      firstClusterLow + 0x1_0000 * firstClusterHigh
    }
  }

  /** The bytes of the clusters of a chain, one after the other. */
  function Flat<T>(data: seq<seq<T>>, chain: seq<nat>): seq<T>
    requires forall i :: 0 <= i < |chain| ==> chain[i] < |data|
  {
    if chain == [] then [] else Flat(data, chain[..|chain| - 1]) + data[chain[|chain| - 1]]
  }

  lemma {:induction false} FlatAppend<T>(data: seq<seq<T>>, a: seq<nat>, b: seq<nat>)
    requires forall i :: 0 <= i < |a| ==> a[i] < |data|
    requires forall i :: 0 <= i < |b| ==> b[i] < |data|
    ensures Flat(data, a + b) == Flat(data, a) + Flat(data, b)
  {
    if b == [] {
      assert a + b == a;
    } else {
      var n := |b| - 1;
      FlatAppend(data, a, b[..n]);
      assert (a + b)[..|a + b| - 1] == a + b[..n];
    }
  }

  /** The bytes up to cluster k of a chain, that cluster, and the bytes after it. */
  lemma FlatAt<T>(data: seq<seq<T>>, chain: seq<nat>, k: nat)
    requires k < |chain| && forall i :: 0 <= i < |chain| ==> chain[i] < |data|
    ensures Flat(data, chain[..k + 1]) == Flat(data, chain[..k]) + data[chain[k]]
    ensures Flat(data, chain) == Flat(data, chain[..k]) + data[chain[k]] + Flat(data, chain[k + 1..])
  {
    assert chain[..k + 1][..k] == chain[..k];
    assert chain == chain[..k + 1] + chain[k + 1..];
    FlatAppend(data, chain[..k + 1], chain[k + 1..]);
  }

  lemma {:induction false} FlatSame<T>(data: seq<seq<T>>, data': seq<seq<T>>, chain: seq<nat>)
    requires |data| == |data'| && forall i :: 0 <= i < |chain| ==> chain[i] < |data| && data[chain[i]] == data'[chain[i]]
    ensures Flat(data, chain) == Flat(data', chain)
  {
    if chain != [] {
      FlatSame(data, data', chain[..|chain| - 1]);
    }
  }

  // ---------------------------------------------------------------- file descriptors

  /** The chain is that of the entry; a file without clusters has none. */
  ghost predicate ChainOf(volume: Volume, entry: DirectoryEntry, chain: seq<nat>)
    reads volume.fat, entry
  {
    if chain == [] then entry.FirstCluster() == 0
    else IsChain(volume.fat[..], chain) && chain[0] == entry.FirstCluster()
  }

  /** The file has this content: the first bytes of its clusters. */
  ghost predicate Holds(volume: Volume, entry: DirectoryEntry, chain: seq<nat>, content: seq<char>)
    reads volume.fat, volume.data, entry
  {
    && volume.Valid() && ChainOf(volume, entry, chain)
    && entry.fileSize == |content| && content <= Flat(volume.data[..], chain)
  }

  lemma ChainInside(volume: Volume, entry: DirectoryEntry, chain: seq<nat>)
    requires volume.Valid() && ChainOf(volume, entry, chain)
    ensures forall i :: 0 <= i < |chain| ==> FIRST_CLUSTER <= chain[i] < volume.data.Length
  {
  }

  /** A file has no clusters exactly if its entry says so; otherwise the first byte goes to one that is in use. */
  lemma NewFileExactly(volume: Volume, entry: DirectoryEntry, chain: seq<nat>)
    requires volume.Valid() && ChainOf(volume, entry, chain)
    ensures chain == [] <==> entry.FirstCluster() == 0
    ensures chain != [] ==> chain[0] < volume.fat.Length && volume.fat[chain[0]] != 0
  {
    if chain != [] {
      NoneFree(volume.fat[..], chain);
      assert chain[0] in chain;
    }
  }

  type Size = n: nat | n > 0 witness 1

  datatype ReadRequest = Bytes(len: nat) | UpTo(delim: char, limit: Size)

  /** How many of the next n bytes there are up to the delimiter, with it. */
  function Length(content: seq<char>, from: nat, delim: char, n: nat): (r: nat)
    requires from <= |content|
    ensures r <= n && from + r <= |content|
    decreases n
  {
    if n == 0 || from == |content| then 0
    else if content[from] == delim then 1
    else 1 + Length(content, from + 1, delim, n - 1)
  }

  lemma LengthStep(content: seq<char>, from: nat, delim: char, n: nat)
    requires from <= |content|
    ensures Length(content, from, delim, n) ==
            if n == 0 || from == |content| then 0
            else if content[from] == delim then 1
            else 1 + Length(content, from + 1, delim, n - 1)
  {
  }

  /** These are the bytes up to the first delimiter, to the limit or to the end. */
  lemma {:induction false} LengthIs(content: seq<char>, from: nat, delim: char, n: nat)
    requires from <= |content|
    ensures var r := Length(content, from, delim, n);
      && (forall k :: from <= k < from + r - 1 ==> content[k] != delim)
      && (r == n || from + r == |content| || (r > 0 && content[from + r - 1] == delim))
    decreases n
  {
    if n > 0 && from < |content| && content[from] != delim {
      LengthIs(content, from + 1, delim, n - 1);
    }
  }

  /** What a read at this place of the file returns: the next bytes; a line at most one byte shorter than
      the buffer. */
  function Answer(content: seq<char>, from: nat, request: ReadRequest): (part: seq<char>)
    requires from <= |content|
    ensures from + |part| <= |content| && part == content[from..from + |part|]
  {
    match request
    case Bytes(len) => content[from..from + Min(len, |content| - from)]
    case UpTo(delim, limit) => content[from..from + Length(content, from, delim, limit - 1)]
  }

  lemma LineIs(content: seq<char>, from: nat, delim: char, limit: Size)
    requires from <= |content|
    ensures Answer(content, from, UpTo(delim, limit)) == content[from..from + Length(content, from, delim, limit - 1)]
  {
  }

  /** As many bytes as were asked for unless the file ends before, or no more than fit into the buffer for a line,
      which has a delimiter at its end only. */
  lemma AnswerIs(content: seq<char>, from: nat, request: ReadRequest)
    requires from <= |content|
    ensures var part := Answer(content, from, request);
      var n, ends := |part|, from + |part| == |content|;
      match request
      case Bytes(len) => n <= len && (n == len || ends)
      case UpTo(delim, limit) =>
        && n < limit && (n == limit - 1 || ends || (n > 0 && part[n - 1] == delim))
        && forall i :: 0 <= i < n - 1 ==> part[i] != delim
  {
    if request.UpTo? {
      var n := |Answer(content, from, request)|;
      LengthIs(content, from, request.delim, request.limit - 1);
      assert forall i :: 0 <= i < n - 1 ==> Answer(content, from, request)[i] == content[from + i];
    }
  }

  /** The answers to several reads, each of which goes on where the last one ended. */
  function Answers(content: seq<char>, from: nat, requests: seq<ReadRequest>): (parts: seq<seq<char>>)
    requires from <= |content|
    ensures |parts| == |requests|
    decreases |requests|
  {
    if requests == [] then []
    else
      var part := Answer(content, from, requests[0]);
      [part] + Answers(content, from + |part|, requests[1..])
  }

  /** Where the last one ends. */
  function EndOf(content: seq<char>, from: nat, requests: seq<ReadRequest>): (end: nat)
    requires from <= |content|
    ensures from <= end <= |content|
    decreases |requests|
  {
    if requests == [] then from else EndOf(content, from + |Answer(content, from, requests[0])|, requests[1..])
  }

  /** Together they are the bytes in between. */
  lemma {:induction false} AnswersTogether(content: seq<char>, from: nat, requests: seq<ReadRequest>)
    requires from <= |content|
    ensures Concat(Answers(content, from, requests)) == content[from..EndOf(content, from, requests)]
    decreases |requests|
  {
    hide Answer;
    if requests != [] {
      var part := Answer(content, from, requests[0]);
      AnswersTogether(content, from + |part|, requests[1..]);
      assert ([part] + Answers(content, from + |part|, requests[1..]))[1..] == Answers(content, from + |part|, requests[1..]);
    }
  }

  lemma {:induction false} AnswersAppend(content: seq<char>, from: nat, requests: seq<ReadRequest>, r: ReadRequest)
    requires from <= |content|
    ensures var end := EndOf(content, from, requests);
      && Answers(content, from, requests + [r]) == Answers(content, from, requests) + [Answer(content, end, r)]
      && EndOf(content, from, requests + [r]) == end + |Answer(content, end, r)|
    decreases |requests|
  {
    hide Answer;
    if requests == [] {
      assert [r][1..] == [];
    } else {
      AnswersAppend(content, from + |Answer(content, from, requests[0])|, requests[1..], r);
      assert (requests + [r])[1..] == requests[1..] + [r];
    }
  }

  lemma NoRequests(content: seq<char>, from: nat)
    requires from <= |content|
    ensures Answers(content, from, []) == [] && EndOf(content, from, []) == from
  {
  }

  lemma NextAnswer(content: seq<char>, from: nat, requests: seq<ReadRequest>, i: nat)
    requires from <= |content| && i < |requests|
    ensures var end := EndOf(content, from, requests[..i]);
      && Answers(content, from, requests[..i + 1]) == Answers(content, from, requests[..i]) + [Answer(content, end, requests[i])]
      && EndOf(content, from, requests[..i + 1]) == end + |Answer(content, end, requests[i])|
  {
    assert requests[..i + 1] == requests[..i] + [requests[i]];
    AnswersAppend(content, from, requests[..i], requests[i]);
  }

  /** What is written in pieces to an empty file comes back in order, however it is read. */
  method RoundTrip(volume: Volume, entry: DirectoryEntry, pieces: seq<seq<char>>, beyond: seq<char>, requests: seq<ReadRequest>)
    returns (parts: seq<seq<char>>, ghost chain: seq<nat>)
    requires volume.Valid() && entry.FirstCluster() == 0 && |beyond| >= volume.bytesPerCluster
    requires pieces != [] && AllRight(pieces, New, volume.bytesPerCluster)
    requires Taken(pieces, New, volume.bytesPerCluster) <= |FreeFrom(volume.fat[..], FIRST_CLUSTER)|
    modifies volume.fat, volume.data, entry
    ensures Holds(volume, entry, chain, Concat(pieces)) && entry.fileSize == |Concat(pieces)|
    ensures parts == Answers(Concat(pieces), 0, requests) && Concat(parts) <= Concat(pieces)
    ensures OthersKept(old(volume.fat[..]), old(volume.data[..]), volume.fat[..], volume.data[..], [])
  {
    hide IsChain, Flat, FreeFrom, AllRight, Taken;
    var writer := new FileDescriptor(volume, entry);
    chain := writer.WriteAll(pieces, beyond, []);
    var reader := new FileDescriptor(volume, entry);
    FlatEmpty(volume.data[..]);
    assert chain[..0] == [];
    parts := reader.ReadAll(requests, chain, Concat(pieces));
    AnswersTogether(Concat(pieces), 0, requests);
  }

  class FileDescriptor {
    const volume: Volume
    const entry: DirectoryEntry
    var rdOff: nat
    var rdCluster: nat
    var rdClusterOff: nat
    var wrOff: nat
    var wrCluster: nat
    var wrClusterOff: nat
    ghost var rdIndex: nat
    ghost var wrIndex: nat

    constructor (volume: Volume, entry: DirectoryEntry)
      ensures this.volume == volume && this.entry == entry
      ensures rdOff == rdCluster == rdClusterOff == wrOff == wrCluster == wrClusterOff == rdIndex == wrIndex == 0
    {
      this.volume, this.entry := volume, entry;
      rdOff, rdCluster, rdClusterOff, wrOff, wrCluster, wrClusterOff := 0, 0, 0, 0, 0, 0;
      rdIndex, wrIndex := 0, 0;
    }

    /** The read cursor points to byte rdOff of the file: in cluster rdIndex of its chain, or after the
        last one. */
    ghost predicate Reads(chain: seq<nat>, content: seq<char>)
      requires Holds(volume, entry, chain, content)
      reads this`rdOff, this`rdCluster, this`rdClusterOff, this`rdIndex, volume.fat, volume.data, entry
    {
      && rdOff <= |content| && rdIndex <= |chain| && rdClusterOff < volume.bytesPerCluster
      && rdOff == |Flat(volume.data[..], chain[..rdIndex])| + rdClusterOff
      && (rdIndex < |chain| ==> rdCluster == chain[rdIndex] || (rdIndex == 0 && rdCluster == 0))
      && (rdIndex == |chain| ==> rdClusterOff == 0)
    }

    /** The next bytes of the file, up to len of them. */
    method Read(len: nat, ghost chain: seq<nat>, ghost content: seq<char>) returns (buf: seq<char>)
      requires Holds(volume, entry, chain, content) && Reads(chain, content)
      modifies this`rdOff, this`rdCluster, this`rdClusterOff, this`rdIndex
      ensures Reads(chain, content) && rdOff == old(rdOff) + |buf| <= |content|
      ensures buf == content[old(rdOff)..rdOff] && |buf| == Min(len, |content| - old(rdOff))
    {
      hide Flat, IsChain;
      ChainInside(volume, entry, chain);
      if rdCluster == 0 {
        rdCluster := entry.FirstCluster();
      }
      var start := rdOff;
      var length := Min(len, entry.fileSize - rdOff);
      buf := [];
      assert content[start..start] == [];
      while |buf| < length
        invariant |buf| <= length && start + length <= |content| && rdOff == start + |buf|
        invariant Reads(chain, content) && buf == content[start..rdOff]
        invariant rdIndex < |chain| ==> rdCluster == chain[rdIndex]
        decreases length - |buf|
      {
        var piece := ReadCluster(length - |buf|, chain, content);
        assert content[start..rdOff] == buf + piece;
        buf := buf + piece;
      }
    }

    /** One turn of the loop of Read: what one cluster has to give. */
    method ReadCluster(left: nat, ghost chain: seq<nat>, ghost content: seq<char>) returns (piece: seq<char>)
      requires Holds(volume, entry, chain, content) && Reads(chain, content)
      requires 0 < left <= |content| - rdOff && (rdIndex < |chain| ==> rdCluster == chain[rdIndex])
      modifies this`rdOff, this`rdCluster, this`rdClusterOff, this`rdIndex
      ensures Reads(chain, content) && 0 < |piece| <= left && rdOff == old(rdOff) + |piece|
      ensures piece == content[old(rdOff)..rdOff] && (rdIndex < |chain| ==> rdCluster == chain[rdIndex])
    {
      hide IsChain, Flat;
      ChainInside(volume, entry, chain);
      ghost var data := volume.data[..];
      assert chain[..|chain|] == chain;
      assert rdIndex < |chain|;
      FlatAt(data, chain, rdIndex);
      var n := Min(left, volume.bytesPerCluster - rdClusterOff);
      piece := volume.data[rdCluster][rdClusterOff..rdClusterOff + n];
      SliceWithin(content, Flat(data, chain[..rdIndex]), data[rdCluster], Flat(data, chain[rdIndex + 1..]), rdClusterOff, n);
      OnlyLastEnds(volume.fat[..], chain, rdIndex);
      rdOff := rdOff + n;
      rdClusterOff := rdClusterOff + n;
      if rdClusterOff == volume.bytesPerCluster {
        rdCluster := volume.NextCluster(rdCluster);
        rdClusterOff := 0;
        rdIndex := rdIndex + 1;
      }
    }

    /** Bytes of the file from an offset on, by a descriptor of its own. */
    method Load(len: nat, offset: nat, ghost chain: seq<nat>, ghost content: seq<char>) returns (buf: seq<char>)
      requires Holds(volume, entry, chain, content) && offset <= |content|
      ensures |buf| == Min(len, |content| - offset) && buf == content[offset..offset + |buf|]
    {
      hide Flat, IsChain;
      var fd := new FileDescriptor(volume, entry);
      fd.rdOff := offset;
      fd.rdCluster, fd.rdClusterOff, fd.rdIndex := FindOffset(offset, chain, content);
      buf := fd.Read(len, chain, content);
    }

    /** The cluster that holds a byte of the file, and the byte's place in it. */
    method FindOffset(offset: nat, ghost chain: seq<nat>, ghost content: seq<char>)
      returns (cluster: nat, off: nat, ghost k: nat)
      requires Holds(volume, entry, chain, content) && offset <= |content|
      ensures k <= |chain| && offset == |Flat(volume.data[..], chain[..k])| + off && off < volume.bytesPerCluster
      ensures k < |chain| ==> cluster == chain[k]
      ensures k == |chain| ==> off == 0
    {
      hide IsChain, Flat;
      ChainInside(volume, entry, chain);
      cluster, off, k := entry.FirstCluster(), offset, 0;
      FlatEmpty(volume.data[..]);
      assert chain[..0] == [];
      while off >= volume.bytesPerCluster
        invariant k <= |chain| && offset == |Flat(volume.data[..], chain[..k])| + off
        invariant k < |chain| ==> cluster == chain[k]
      {
        assert chain[..|chain|] == chain;
        FlatAt(volume.data[..], chain, k);
        OnlyLastEnds(volume.fat[..], chain, k);
        off := off - volume.bytesPerCluster;
        cluster := volume.NextCluster(cluster);
        k := k + 1;
      }
      assert chain[..|chain|] == chain;
    }

    /** ReadDelim: bytes up to the delimiter, and it, at most len - 1 of them. */
    method ReadDelim(delim: char, len: nat, ghost chain: seq<nat>, ghost content: seq<char>) returns (buf: seq<char>)
      requires Holds(volume, entry, chain, content) && Reads(chain, content) && len > 0
      modifies this`rdOff, this`rdCluster, this`rdClusterOff, this`rdIndex
      ensures Reads(chain, content) && rdOff == old(rdOff) + |buf| <= |content|
      ensures buf == Answer(content, old(rdOff), UpTo(delim, len))
    {
      hide FileDescriptor.Reads, Flat, IsChain, Length, Answer, Holds, ChainOf;
      CursorWithin(chain, content);
      buf := [];
      ghost var start := rdOff;
      ghost var line := Length(content, start, delim, len - 1);
      LineIs(content, start, delim, len);
      LengthStep(content, start, delim, len - 1);
      var i := 0;
      while i < len - 1
        invariant i == |buf| <= len - 1 && Reads(chain, content) && rdOff == start + i <= |content|
        invariant buf == content[start..start + i]
        invariant line == i + Length(content, start + i, delim, len - 1 - i)
        invariant i == len - 1 ==> line == i
      {
        LengthStep(content, start + i, delim, len - 1 - i);
        var c := Read(1, chain, content);
        if |c| == 0 {
          break;
        }
        SliceAppend(content, start, start + i);
        buf := buf + c;
        i := i + 1;
        if c[0] == delim {
          break;
        }
        LengthStep(content, start + i, delim, len - 1 - i);
      }
    }

    /** The write cursor is in cluster wrIndex of the chain. */
    ghost predicate At(chain: seq<nat>)
      reads this`wrCluster, this`wrClusterOff, this`wrIndex, volume.fat, volume.data, entry
    {
      && volume.Valid() && ChainOf(volume, entry, chain)
      && wrIndex < |chain| && chain[wrIndex] == wrCluster && wrClusterOff <= volume.bytesPerCluster
    }

    /** Moreover the bytes written so far fill the clusters before that one and its first bytes. */
    ghost predicate Cursor(chain: seq<nat>, written: seq<char>)
      reads this`wrCluster, this`wrClusterOff, this`wrIndex, volume.fat, volume.data, entry
    {
      At(chain) && written == Flat(volume.data[..], chain[..wrIndex]) + volume.data[wrCluster][..wrClusterOff]
    }

    ghost predicate Writes(chain: seq<nat>, written: seq<char>)
      reads this`wrOff, this`wrCluster, this`wrClusterOff, this`wrIndex, volume.fat, volume.data, entry
    {
      && volume.Valid() && ChainOf(volume, entry, chain) && wrOff == |written|
      && if wrCluster == 0 then wrOff == wrClusterOff == 0 else Cursor(chain, written)
    }

    /** Where the next byte goes. */
    ghost function WriteSpot(chain: seq<nat>): (spot: Spot)
      reads this`wrCluster, this`wrClusterOff, this`wrIndex, entry
    {
      if wrCluster == 0 then (if entry.FirstCluster() == 0 || chain == [] then New else In(0, |chain| - 1))
      else In(wrClusterOff, if wrIndex < |chain| then |chain| - 1 - wrIndex else 0)
    }

    /** Write, for any buffer; what follows it in memory is beyond. The number of bytes it reports and the
        clusters it takes are those of the loop, and no cluster outside the chain changes. When that puts the
        bytes where they belong, they are appended to what was written. */
    method Write(buf: seq<char>, beyond: seq<char>, ghost chain: seq<nat>, ghost written: seq<char>)
      returns (total: nat, ghost chain': seq<nat>)
      requires Writes(chain, written) && WriteSpot(chain).Ok(volume.bytesPerCluster) && |beyond| >= volume.bytesPerCluster
      requires Written(WriteSpot(chain), |buf|, volume.bytesPerCluster).taken <= |FreeFrom(volume.fat[..], FIRST_CLUSTER)|
      modifies this`wrOff, this`wrCluster, this`wrClusterOff, this`wrIndex, volume.fat, volume.data, entry
      ensures var r := Written(old(WriteSpot(chain)), |buf|, volume.bytesPerCluster);
        && total == r.total && wrOff == entry.fileSize == old(wrOff) + total
        && At(chain') && WriteSpot(chain') == In(r.off, r.after)
        && Grown(old(volume.fat[..]), volume.fat[..], chain, chain', r.taken)
        && (r.Right(|buf|) ==> Writes(chain', written + buf) && Holds(volume, entry, chain', written + buf))
      ensures forall c :: 0 <= c < volume.data.Length && c !in chain' ==> volume.data[c] == old(volume.data[c])
    {
      hide IsChain, Flat, FreeFrom, Grown, FileDescriptor.Cursor, Chunk, Loop, FileDescriptor.At;
      ghost var len, size, fat := |buf|, volume.bytesPerCluster, volume.fat[..];
      ghost var p := Begun(WriteSpot(chain), len, size);
      ghost var r := Loop(len, size, p);
      NothingGrown(fat, chain);
      chain' := chain;
      if wrCluster == 0 {
        chain' := FirstWrite(|buf|, chain, written);
      }
      CursorIsAt(chain', written);
      total := 0;
      assert buf[..0] == [] && written + [] == written;
      while total < |buf|
        invariant At(chain') && LoopAt(p, total, chain') && p.off <= size && Loop(len, size, p) == r
        invariant Grown(fat, volume.fat[..], chain, chain', p.taken)
        invariant p.skipped == 0 && total <= len ==> Cursor(chain', written + buf[..total])
        invariant forall c :: 0 <= c < volume.data.Length && c !in chain' ==> volume.data[c] == old(volume.data[c])
        invariant wrOff == old(wrOff)
        decreases len - total
      {
        LoopStep(len, size, p);
        AtChain(chain');
        ghost var q, before, fat1, done := Chunk(len, size, p), chain', volume.fat[..], written + buf[..total];
        FreeLeft(fat, fat1, chain, chain', p.taken);
        var n;
        n, chain' := WriteChunk(buf + beyond, |buf|, total, p, before, done);
        GrownTwice(fat, fat1, volume.fat[..], chain, before, chain', p.taken, q.taken - p.taken);
        if total + n <= len {
          assert (buf + beyond)[total..total + n] == buf[total..total + n];
          assert done + buf[total..total + n] == written + buf[..total + n];
        }
        total := total + n;
        p := q;
      }
      LoopStep(len, size, p);
      assert buf[..len] == buf;
      Account(total, chain', written + buf);
    }

    /** The end of Write. */
    method Account(total: nat, ghost chain: seq<nat>, ghost written: seq<char>)
      requires At(chain)
      modifies this`wrOff, entry
      ensures wrOff == entry.fileSize == old(wrOff) + total
      ensures At(chain) && WriteSpot(chain) == In(wrClusterOff, |chain| - 1 - wrIndex)
      ensures old(Cursor(chain, written)) && wrOff == |written| ==> Writes(chain, written) && Holds(volume, entry, chain, written)
    {
      hide IsChain, Flat;
      if Cursor(chain, written) {
        CursorHolds(chain, written);
      }
      ChainInside(volume, entry, chain);
      wrOff := wrOff + total;
      entry.fileSize := wrOff;
    }

    lemma AtChain(chain: seq<nat>)
      requires At(chain)
      ensures volume.Valid() && IsChain(volume.fat[..], chain)
    {
    }

    lemma CursorIsAt(chain: seq<nat>, written: seq<char>)
      requires Cursor(chain, written)
      ensures At(chain)
    {
    }

    /** p says where the loop is. */
    ghost predicate LoopAt(p: Progress, total: nat, chain: seq<nat>)
      reads this`wrClusterOff, this`wrIndex
    {
      p.total == total && p.off == wrClusterOff && p.after + 1 + wrIndex == |chain|
    }

    /** The body of the loop of Write. */
    method WriteChunk(memory: seq<char>, len: nat, total: nat, ghost p: Progress, ghost chain: seq<nat>, ghost written: seq<char>)
      returns (n: nat, ghost chain': seq<nat>)
      requires At(chain) && LoopAt(p, total, chain) && total < len && |memory| >= len + volume.bytesPerCluster
      requires p.off <= volume.bytesPerCluster
      requires Chunk(len, volume.bytesPerCluster, p).taken - p.taken <= |FreeFrom(volume.fat[..], FIRST_CLUSTER)|
      modifies this`wrCluster, this`wrClusterOff, this`wrIndex, volume.fat, volume.data
      ensures var q := Chunk(len, volume.bytesPerCluster, p);
        && 0 < n && total + n <= |memory| && chain <= chain' && At(chain') && LoopAt(q, total + n, chain')
        && Grown(old(volume.fat[..]), volume.fat[..], chain, chain', q.taken - p.taken)
        && (q.skipped == p.skipped && old(Cursor(chain, written)) ==> Cursor(chain', written + memory[total..total + n]))
      ensures forall c :: 0 <= c < volume.data.Length && c !in chain' ==> volume.data[c] == old(volume.data[c])
    {
      hide IsChain, Flat, FreeFrom, Grown, FileDescriptor.Cursor;
      NothingGrown(volume.fat[..], chain);
      chain' := chain;
      if wrClusterOff == volume.bytesPerCluster {
        chain' := Advance(len - total, chain, written);
      }
      n := Min(len, volume.bytesPerCluster - wrClusterOff);
      Store(memory[total..total + n], chain', written);
    }

    /** Before the first byte: the chain of the file, or a new one. */
    method FirstWrite(len: nat, ghost chain: seq<nat>, ghost written: seq<char>) returns (ghost chain': seq<nat>)
      requires Writes(chain, written) && wrCluster == 0
      requires entry.FirstCluster() == 0 ==>
        NewFile(len, volume.bytesPerCluster).taken <= |FreeFrom(volume.fat[..], FIRST_CLUSTER)|
      modifies this`wrCluster, this`wrIndex, volume.fat, entry
      ensures Cursor(chain', written) && wrIndex == 0
      ensures var n := if old(entry.FirstCluster()) == 0 then NewFile(len, volume.bytesPerCluster).taken else 0;
        && Grown(old(volume.fat[..]), volume.fat[..], chain, chain', n)
        && |chain'| == if old(entry.FirstCluster()) == 0 then n else |chain|
    {
      hide IsChain, FreeFrom;
      ChainInside(volume, entry, chain);
      chain' := chain;
      wrIndex := 0;
      if entry.FirstCluster() != 0 {
        wrCluster := entry.FirstCluster();
      } else {
        var n := NumCluster(len, volume.bytesPerCluster);
        chain' := LowestFree(volume.fat[..], if n == 0 then 1 else n);
        wrCluster := volume.AllocateClusterChain(n);
        entry.firstClusterLow := wrCluster % 0x1_0000;
        entry.firstClusterHigh := wrCluster / 0x1_0000 % 0x1_0000;
        AllocatedInside(volume.fat[..], chain');
      }
    }

    /** At the end of a cluster: the next one of the chain; if there is none, the last of as many new ones as
        the rest of the bytes need. */
    method Advance(left: nat, ghost chain: seq<nat>, ghost written: seq<char>) returns (ghost chain': seq<nat>)
      requires At(chain) && wrClusterOff == volume.bytesPerCluster && 0 < left
      requires wrIndex + 1 == |chain| ==>
        NumCluster(left, volume.bytesPerCluster) <= |FreeFrom(volume.fat[..], FIRST_CLUSTER)|
      modifies this`wrCluster, this`wrClusterOff, this`wrIndex, volume.fat
      ensures At(chain') && wrClusterOff == 0 && wrIndex == if old(wrIndex) + 1 < |chain| then old(wrIndex) + 1 else |chain'| - 1
      ensures var n := if old(wrIndex) + 1 < |chain| then 0 else NumCluster(left, volume.bytesPerCluster);
        Grown(old(volume.fat[..]), volume.fat[..], chain, chain', n) && chain <= chain' && |chain'| == |chain| + n
      ensures wrIndex == old(wrIndex) + 1 && old(Cursor(chain, written)) ==> Cursor(chain', written)
    {
      hide IsChain, FreeFrom, Flat;
      ChainInside(volume, entry, chain);
      OnlyLastEnds(volume.fat[..], chain, wrIndex);
      FlatAt(volume.data[..], chain, wrIndex);
      chain' := chain;
      NothingGrown(volume.fat[..], chain);
      var nextCluster := volume.NextCluster(wrCluster);
      if nextCluster == END_OF_CLUSTERCHAIN {
        var n := NumCluster(left, volume.bytesPerCluster);
        chain' := chain + LowestFree(volume.fat[..], n);
        wrCluster := volume.ExtendCluster(wrCluster, n, chain);
        assert chain'[..wrIndex + 1] == chain[..wrIndex + 1];
        wrIndex := wrIndex + n;
      } else {
        wrCluster := nextCluster;
        wrIndex := wrIndex + 1;
      }
      wrClusterOff := 0;
      ChainInside(volume, entry, chain');
    }

    /** The memcpy of Write. */
    method Store(bytes: seq<char>, ghost chain: seq<nat>, ghost written: seq<char>)
      requires At(chain) && wrClusterOff + |bytes| <= volume.bytesPerCluster
      modifies this`wrClusterOff, volume.data
      ensures At(chain) && wrClusterOff == old(wrClusterOff) + |bytes|
      ensures old(Cursor(chain, written)) ==> Cursor(chain, written + bytes)
      ensures forall c :: 0 <= c < volume.data.Length && c != wrCluster ==> volume.data[c] == old(volume.data[c])
    {
      hide Flat;
      ghost var before := volume.data[..];
      var sec := volume.data[wrCluster];
      volume.data[wrCluster] := sec[..wrClusterOff] + bytes + sec[wrClusterOff + |bytes|..];
      FlatSame(before, volume.data[..], chain[..wrIndex]);
      wrClusterOff := wrClusterOff + |bytes|;
      assert volume.data[wrCluster][..wrClusterOff] == sec[..old(wrClusterOff)] + bytes;
    }

    /** Any number of writes, each of which puts its bytes where they belong. */
    method WriteAll(pieces: seq<seq<char>>, beyond: seq<char>, ghost chain: seq<nat>) returns (ghost chain': seq<nat>)
      requires Writes(chain, []) && pieces != [] && |beyond| >= volume.bytesPerCluster
      requires WriteSpot(chain).Ok(volume.bytesPerCluster) && AllRight(pieces, WriteSpot(chain), volume.bytesPerCluster)
      requires Taken(pieces, WriteSpot(chain), volume.bytesPerCluster) <= |FreeFrom(volume.fat[..], FIRST_CLUSTER)|
      modifies this`wrOff, this`wrCluster, this`wrClusterOff, this`wrIndex, volume.fat, volume.data, entry
      ensures Writes(chain', Concat(pieces)) && Holds(volume, entry, chain', Concat(pieces))
      ensures chain <= chain' && NewWereFree(old(volume.fat[..]), chain, chain')
      ensures OthersKept(old(volume.fat[..]), old(volume.data[..]), volume.fat[..], volume.data[..], chain)
    {
      hide OthersKept, NewWereFree, IsChain, Flat, FreeFrom, FileDescriptor.Cursor, Holds, Written, Next, AllRight, Taken;
      chain' := chain;
      ghost var fat0, data0 := volume.fat[..], volume.data[..];
      NothingYet(fat0, data0, chain);
      assert pieces[..0] == [] && pieces[0..] == pieces;
      for i := 0 to |pieces|
        invariant Writes(chain', Concat(pieces[..i])) && (i > 0 ==> Holds(volume, entry, chain', Concat(pieces[..i])))
        invariant WriteSpot(chain').Ok(volume.bytesPerCluster)
        invariant AllRight(pieces[i..], WriteSpot(chain'), volume.bytesPerCluster)
        invariant Taken(pieces[i..], WriteSpot(chain'), volume.bytesPerCluster) <= |FreeFrom(volume.fat[..], FIRST_CLUSTER)|
        invariant chain <= chain' && NewWereFree(old(volume.fat[..]), chain, chain')
        invariant OthersKept(old(volume.fat[..]), old(volume.data[..]), volume.fat[..], volume.data[..], chain)
      {
        ghost var fat, data, before := volume.fat[..], volume.data[..], chain';
        chain' := WriteNext(pieces, beyond, i, chain');
        OthersStillKept(fat0, data0, fat, data, volume.fat[..], volume.data[..], chain, before, chain');
      }
      assert pieces[..|pieces|] == pieces;
    }

    method WriteNext(pieces: seq<seq<char>>, beyond: seq<char>, i: nat, ghost chain: seq<nat>) returns (ghost chain': seq<nat>)
      requires i < |pieces| && Writes(chain, Concat(pieces[..i])) && |beyond| >= volume.bytesPerCluster
      requires WriteSpot(chain).Ok(volume.bytesPerCluster) && AllRight(pieces[i..], WriteSpot(chain), volume.bytesPerCluster)
      requires Taken(pieces[i..], WriteSpot(chain), volume.bytesPerCluster) <= |FreeFrom(volume.fat[..], FIRST_CLUSTER)|
      modifies this`wrOff, this`wrCluster, this`wrClusterOff, this`wrIndex, volume.fat, volume.data, entry
      ensures Writes(chain', Concat(pieces[..i + 1])) && Holds(volume, entry, chain', Concat(pieces[..i + 1]))
      ensures WriteSpot(chain').Ok(volume.bytesPerCluster)
      ensures AllRight(pieces[i + 1..], WriteSpot(chain'), volume.bytesPerCluster)
      ensures Taken(pieces[i + 1..], WriteSpot(chain'), volume.bytesPerCluster) <= |FreeFrom(volume.fat[..], FIRST_CLUSTER)|
      ensures chain <= chain' && NewWereFree(old(volume.fat[..]), chain, chain')
      ensures OthersKept(old(volume.fat[..]), old(volume.data[..]), volume.fat[..], volume.data[..], chain)
    {
      assert pieces[i..][1..] == pieces[i + 1..];
      ConcatAppend(pieces[..i], pieces[i]);
      assert pieces[..i + 1] == pieces[..i] + [pieces[i]];
      ghost var fat, n := volume.fat[..], Written(WriteSpot(chain), |pieces[i]|, volume.bytesPerCluster).taken;
      var total;
      total, chain' := Write(pieces[i], beyond, chain, Concat(pieces[..i]));
      GrownKeeps(fat, volume.fat[..], chain, chain', n);
    }

    /** Any mix of reads gives consecutive pieces of the file, from where the cursor was. */
    method ReadAll(requests: seq<ReadRequest>, ghost chain: seq<nat>, ghost content: seq<char>) returns (parts: seq<seq<char>>)
      requires Holds(volume, entry, chain, content) && Reads(chain, content)
      modifies this`rdOff, this`rdCluster, this`rdClusterOff, this`rdIndex
      ensures Reads(chain, content) && old(rdOff) <= |content|
      ensures parts == Answers(content, old(rdOff), requests) && rdOff == EndOf(content, old(rdOff), requests)
    {
      hide FileDescriptor.Reads, Flat, IsChain, Answers, EndOf, Answer, Holds;
      CursorWithin(chain, content);
      parts := [];
      NoRequests(content, rdOff);
      ghost var start := rdOff;
      for i := 0 to |requests|
        invariant Reads(chain, content) && rdOff == EndOf(content, start, requests[..i])
        invariant parts == Answers(content, start, requests[..i])
      {
        NextAnswer(content, start, requests, i);
        var part := ReadOne(requests[i], chain, content);
        parts := parts + [part];
      }
      assert requests[..|requests|] == requests;
    }

    method ReadOne(request: ReadRequest, ghost chain: seq<nat>, ghost content: seq<char>) returns (part: seq<char>)
      requires Holds(volume, entry, chain, content) && Reads(chain, content)
      modifies this`rdOff, this`rdCluster, this`rdClusterOff, this`rdIndex
      ensures Reads(chain, content) && old(rdOff) <= |content|
      ensures part == Answer(content, old(rdOff), request) && rdOff == old(rdOff) + |part| <= |content|
    {
      hide FileDescriptor.Reads, Flat, IsChain, Length, Holds;
      CursorWithin(chain, content);
      match request {
        case Bytes(len) => part := Read(len, chain, content);
        case UpTo(delim, limit) => part := ReadDelim(delim, limit, chain, content);
      }
    }

    lemma CursorWithin(chain: seq<nat>, content: seq<char>)
      requires Holds(volume, entry, chain, content) && Reads(chain, content)
      ensures rdOff <= |content|
    {
    }

    lemma CursorHolds(chain: seq<nat>, written: seq<char>)
      requires Cursor(chain, written)
      ensures written <= Flat(volume.data[..], chain)
    {
      ChainInside(volume, entry, chain);
      FlatAt(volume.data[..], chain, wrIndex);
    }
  }

  /** The chain before and after a write that took the n lowest free clusters for it. */
  ghost predicate Grown(fat: seq<nat>, fat': seq<nat>, chain: seq<nat>, chain': seq<nat>, n: nat)
    requires IsTable(fat)
  {
    && |fat'| == |fat| && n <= |FreeFrom(fat, FIRST_CLUSTER)| && chain' == chain + LowestFree(fat, n)
    && (n == 0 ==> fat' == fat)
    && forall c :: 0 <= c < |fat| && c !in LowestFree(fat, n) && (chain == [] || c != chain[|chain| - 1]) ==> fat'[c] == fat[c]
  }

  lemma NothingGrown(fat: seq<nat>, chain: seq<nat>)
    requires IsTable(fat)
    ensures Grown(fat, fat, chain, chain, 0)
  {
  }

  /** The free clusters that are left. */
  lemma FreeLeft(fat: seq<nat>, fat': seq<nat>, chain: seq<nat>, chain': seq<nat>, n: nat)
    requires IsTable(fat) && Grown(fat, fat', chain, chain', n)
    requires (chain == [] || IsChain(fat, chain)) && (chain' == [] || IsChain(fat', chain'))
    ensures FreeFrom(fat', FIRST_CLUSTER) == FreeFrom(fat, FIRST_CLUSTER)[n..]
    ensures chain <= chain' && NewWereFree(fat, chain, chain')
    ensures forall c :: c in chain' ==> c < |fat'| && fat'[c] != 0
  {
    LowestFreeIs(fat, n);
    if chain != [] {
      NoneFree(fat, chain);
    }
    if chain' != [] {
      NoneFree(fat', chain');
    }
    assert forall c :: c in LowestFree(fat, n) ==> c in chain';
    assert chain != [] ==> chain[|chain| - 1] in chain && chain[|chain| - 1] in chain';
    FreeDropped(fat, fat', FIRST_CLUSTER, n);
  }

  lemma GrownTwice(fat: seq<nat>, fat': seq<nat>, fat'': seq<nat>, chain: seq<nat>, chain': seq<nat>, chain'': seq<nat>,
                   m: nat, n: nat)
    requires IsTable(fat) && Grown(fat, fat', chain, chain', m) && IsTable(fat') && Grown(fat', fat'', chain', chain'', n)
    requires (chain == [] || IsChain(fat, chain)) && (chain' == [] || IsChain(fat', chain'))
    ensures Grown(fat, fat'', chain, chain'', m + n)
  {
    hide IsChain;
    FreeLeft(fat, fat', chain, chain', m);
    hide FreeFrom;
    var free := FreeFrom(fat, FIRST_CLUSTER);
    assert LowestFree(fat, m + n) == LowestFree(fat, m) + LowestFree(fat', n) by {
      assert free[..m + n] == free[..m] + free[m..][..n];
    }
    hide LowestFree, NewWereFree;
    forall c | 0 <= c < |fat| && c !in LowestFree(fat, m + n) && (chain == [] || c != chain[|chain| - 1])
      ensures fat''[c] == fat[c]
    {
      assert c !in LowestFree(fat, m) && c !in LowestFree(fat', n);
      if m > 0 {
        assert chain'[|chain'| - 1] == LowestFree(fat, m)[m - 1];
      } else {
        assert chain' == chain;
      }
    }
  }

  /** The clusters that were in use, except those of the chain, are as before, and so are their entries. */
  ghost predicate OthersKept(fat: seq<nat>, data: seq<seq<char>>, fat': seq<nat>, data': seq<seq<char>>, chain: seq<nat>) {
    && |fat| == |data| == |fat'| == |data'|
    && forall c :: 0 <= c < |fat| && fat[c] != 0 && c !in chain ==> fat'[c] == fat[c] && data'[c] == data[c]
  }

  /** The clusters a chain got were free. */
  ghost predicate NewWereFree(fat: seq<nat>, chain: seq<nat>, chain': seq<nat>) {
    forall c :: c in chain' && c !in chain ==> c < |fat| && fat[c] == 0
  }

  lemma NothingYet(fat: seq<nat>, data: seq<seq<char>>, chain: seq<nat>)
    requires |fat| == |data|
    ensures OthersKept(fat, data, fat, data, chain) && NewWereFree(fat, chain, chain)
  {
  }

  lemma OthersStillKept(fat: seq<nat>, data: seq<seq<char>>, fat': seq<nat>, data': seq<seq<char>>,
                        fat'': seq<nat>, data'': seq<seq<char>>, chain: seq<nat>, chain': seq<nat>, chain'': seq<nat>)
    requires OthersKept(fat, data, fat', data', chain) && NewWereFree(fat, chain, chain')
    requires OthersKept(fat', data', fat'', data'', chain') && NewWereFree(fat', chain', chain'')
    ensures OthersKept(fat, data, fat'', data'', chain) && NewWereFree(fat, chain, chain'')
  {
  }

  /** So another file, whose chain has no cluster in common, still has its content. */
  lemma OtherFileKept(fat: seq<nat>, data: seq<seq<char>>, fat': seq<nat>, data': seq<seq<char>>, chain: seq<nat>, other: seq<nat>)
    requires OthersKept(fat, data, fat', data', chain) && IsChain(fat, other) && Disjoint(other, chain)
    ensures IsChain(fat', other) && Flat(data', other) == Flat(data, other)
  {
    NoneFree(fat, other);
    ChainKept(fat, fat', other);
    forall i | 0 <= i < |other| ensures data[other[i]] == data'[other[i]] {
      assert other[i] in other;
    }
    FlatSame(data, data', other);
  }

  /** A write takes free clusters, and of the other clusters changes those of its chain only. */
  lemma GrownKeeps(fat: seq<nat>, fat': seq<nat>, chain: seq<nat>, chain': seq<nat>, n: nat)
    requires IsTable(fat) && Grown(fat, fat', chain, chain', n)
    requires chain == [] || IsChain(fat, chain)
    requires chain' == [] || IsChain(fat', chain')
    ensures |FreeFrom(fat', FIRST_CLUSTER)| == |FreeFrom(fat, FIRST_CLUSTER)| - n && chain <= chain'
    ensures forall c :: 0 <= c < |fat| && c !in chain' ==> fat'[c] == fat[c]
    ensures NewWereFree(fat, chain, chain')
  {
    FreeLeft(fat, fat', chain, chain', n);
    assert chain != [] ==> chain[|chain| - 1] in chain';
  }

  lemma AllocatedInside(fat: seq<nat>, chain: seq<nat>)
    requires IsTable(fat) && IsChain(fat, chain)
    ensures 2 <= chain[0] < 0x1000_0000 && forall i :: 0 <= i < |chain| ==> chain[i] < |fat|
  {
  }

  lemma FlatEmpty<T>(data: seq<seq<T>>)
    ensures Flat(data, []) == []
  {
  }

  lemma SliceAppend(content: seq<char>, from: nat, to: nat)
    requires from <= to <= |content|
    ensures to < |content| ==> content[from..to + 1] == content[from..to] + content[to..to + 1]
  {
  }

  lemma SliceWithin(content: seq<char>, a: seq<char>, b: seq<char>, c: seq<char>, off: nat, n: nat)
    requires content <= a + b + c && off + n <= |b| && |a| + off + n <= |content|
    ensures content[|a| + off..|a| + off + n] == b[off..off + n]
  {
  }
}
