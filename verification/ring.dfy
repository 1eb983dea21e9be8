/** The cycle-bit rings between the driver and the host controller (section 4.9 of the xHCI
    specification): the command and transfer rings, which the driver writes, and the event ring, which
    it reads. The other side runs at any point between two stores of a 32-bit word. */
module Rings {
  const WORD := 0x1_0000_0000

  type Word = w: nat | w < WORD

  /** The three lower words of a TRB, and the fourth without its cycle bit. */
  datatype Data = Data(word0: Word, word1: Word, word2: Word, control: nat)

  /** A slot of a ring; its fourth word holds the control bits and the cycle bit. */
  datatype Slot = Slot(word0: Word, word1: Word, word2: Word, control: nat, cycle: bool) {
    function Content(): Data {
      Data(word0, word1, word2, control)
    }
  }

  const LINK_TYPE := 6

  /** The TRB type, bits 10 to 15 of the fourth word. */
  function TypeOf(control: nat): nat {
    control / 512 % 64
  }

  /** A Link TRB to an address, with the toggle cycle flag. */
  function LinkTo(base: nat): Data
    requires base < WORD * WORD
  {
    Data(base % WORD, base / WORD, 0, LINK_TYPE * 512 + 1)
  }

  // ---------------------------------------------------------------- the ring as values

  /** The producer stands at slot p with cycle bit pBit, the consumer at slot c with cycle bit cBit; the
      TRBs in queue were written and not yet taken. The last slot is for the link. */
  ghost predicate Linked(buf: seq<Slot>, base: nat, p: nat, pBit: bool, c: nat, cBit: bool, queue: seq<Data>)
    requires base < WORD * WORD
  {
    var n := |buf| - 1;
    && n >= 1 && p <= n && c <= n
    && (forall i :: 0 <= i <= n ==> buf[i].cycle == if i < p then pBit else !pBit)
    && (forall q :: q in queue ==> TypeOf(q.control) != LINK_TYPE)
    && if cBit == pBit then
         c <= p && |queue| == p - c && forall i :: c <= i < p ==> buf[i].Content() == queue[i - c]
       else
         && p <= c && |queue| == n - c + p && buf[n].Content() == LinkTo(base)
         && (forall i :: c <= i < n ==> buf[i].Content() == queue[i - c])
         && (forall i :: 0 <= i < p ==> buf[i].Content() == queue[n - c + i])
  }

  /** There is a free slot for the next TRB and, when the link is next, for the link as well. */
  predicate Room(n: nat, p: nat, pBit: bool, c: nat, cBit: bool) {
    cBit == pBit || (p < c && p + 1 < n)
  }

  /** The slot the producer may write to: it is not one the consumer may still read. */
  predicate Free(p: nat, pBit: bool, c: nat, cBit: bool) {
    cBit == pBit || p < c
  }

  lemma LowWordsStored(buf: seq<Slot>, base: nat, p: nat, pBit: bool, c: nat, cBit: bool, queue: seq<Data>, slot: Slot)
    requires base < WORD * WORD && Linked(buf, base, p, pBit, c, cBit, queue) && Free(p, pBit, c, cBit)
    requires slot.cycle == buf[p].cycle
    ensures Linked(buf[p := slot], base, p, pBit, c, cBit, queue)
  {
  }

  /** The store of the last word hands a TRB over. */
  lemma TrbStored(buf: seq<Slot>, base: nat, p: nat, pBit: bool, c: nat, cBit: bool, queue: seq<Data>, slot: Slot)
    requires base < WORD * WORD && Linked(buf, base, p, pBit, c, cBit, queue) && Free(p, pBit, c, cBit)
    requires p < |buf| - 1 && slot.cycle == pBit && TypeOf(slot.control) != LINK_TYPE
    ensures Linked(buf[p := slot], base, p + 1, pBit, c, cBit, queue + [slot.Content()])
  {
  }

  /** The store of the last word of the link takes the producer to the next lap. */
  lemma LinkStored(buf: seq<Slot>, base: nat, p: nat, pBit: bool, c: nat, cBit: bool, queue: seq<Data>, slot: Slot)
    requires base < WORD * WORD && Linked(buf, base, p, pBit, c, cBit, queue)
    requires p == |buf| - 1 && cBit == pBit && slot.cycle == pBit && slot.Content() == LinkTo(base)
    ensures Linked(buf[p := slot], base, 0, !pBit, c, cBit, queue)
  {
  }

  lemma LinkIsLink(base: nat)
    requires base < WORD * WORD
    ensures var link := LinkTo(base);
      TypeOf(link.control) == LINK_TYPE && link.control % 2 == 1 && link.word1 * WORD + link.word0 == base
  {
  }

  /** The consumer owns its slot exactly if something is left for it, and then the slot is complete: the
      first TRB of the queue, or the link. */
  lemma Owned(buf: seq<Slot>, base: nat, p: nat, pBit: bool, c: nat, cBit: bool, queue: seq<Data>)
    requires base < WORD * WORD && Linked(buf, base, p, pBit, c, cBit, queue)
    ensures c < |buf| && (buf[c].cycle == cBit <==> !(cBit == pBit && c == p))
    ensures queue != [] ==> buf[c].cycle == cBit
    ensures buf[c].cycle == cBit && c < |buf| - 1 ==>
      && queue != [] && buf[c].Content() == queue[0] && TypeOf(buf[c].control) != LINK_TYPE
      && Linked(buf, base, p, pBit, c + 1, cBit, queue[1..])
      && (Free(p, pBit, c, cBit) ==> Free(p, pBit, c + 1, cBit))
    ensures buf[c].cycle == cBit && c == |buf| - 1 ==>
      && buf[c].Content() == LinkTo(base) && Linked(buf, base, p, pBit, 0, !cBit, queue) && cBit != pBit
  {
  }

  // ---------------------------------------------------------------- how many TRBs fit

  /** A push when the consumer does not move. */
  ghost function Pushed(buf: seq<Slot>, base: nat, p: nat, pBit: bool, data: Data): (seq<Slot>, nat, bool)
    requires base < WORD * WORD && p < |buf| - 1
  {
    var n := |buf| - 1;
    var buf' := buf[p := Slot(data.word0, data.word1, data.word2, data.control, pBit)];
    var link := LinkTo(base);
    if p + 1 == n
    then (buf'[n := Slot(link.word0, link.word1, link.word2, link.control, pBit)], 0, !pBit)
    else (buf', p + 1, pBit)
  }

  /** A push keeps the ring in order exactly if there is room. */
  lemma RoomIsExact(buf: seq<Slot>, base: nat, p: nat, pBit: bool, c: nat, cBit: bool, queue: seq<Data>, data: Data)
    requires base < WORD * WORD && Linked(buf, base, p, pBit, c, cBit, queue) && p < |buf| - 1
    requires TypeOf(data.control) != LINK_TYPE
    ensures var (buf', p', pBit') := Pushed(buf, base, p, pBit, data);
      Linked(buf', base, p', pBit', c, cBit, queue + [data]) <==> Room(|buf| - 1, p, pBit, c, cBit)
  {
  }

  /** Room in terms of the TRBs outstanding, on a ring of n TRBs and a link: with at most n - 2 there is
      always room; with n - 1, unless the link is next to be written and the consumer has not followed
      the last one; with n, never. */
  lemma RoomByOutstanding(buf: seq<Slot>, base: nat, p: nat, pBit: bool, c: nat, cBit: bool, queue: seq<Data>)
    requires base < WORD * WORD && Linked(buf, base, p, pBit, c, cBit, queue) && p < |buf| - 1
    ensures var n := |buf| - 1;
      && |queue| <= n
      && (|queue| + 2 <= n ==> Room(n, p, pBit, c, cBit))
      && (|queue| + 1 == n ==> (Room(n, p, pBit, c, cBit) <==> c != n))
      && (|queue| == n ==> !Room(n, p, pBit, c, cBit))
  {
  }

  /** In that case the push leaves the consumer with a slot it does not own, while every other slot holds
      a TRB that it was given: it will not take any of them. */
  lemma LateLinkStalls(buf: seq<Slot>, base: nat, p: nat, pBit: bool, c: nat, cBit: bool, queue: seq<Data>, data: Data)
    requires base < WORD * WORD && Linked(buf, base, p, pBit, c, cBit, queue)
    requires p + 1 == |buf| - 1 == c && cBit != pBit
    ensures |queue + [data]| == |buf| - 1 && Pushed(buf, base, p, pBit, data).0[c].cycle != cBit
  {
  }

  // ---------------------------------------------------------------- the driver's ring

  /** The consumer of a ring. It looks at the cycle bit of its slot first, and reads the slot later. */
  class HostController {
    var c: nat
    var cBit: bool
    var claimed: bool
    ghost var seen: seq<Data>

    constructor ()
      ensures c == 0 && cBit && !claimed && seen == []
    {
      c, cBit, claimed, seen := 0, true, false, [];
    }

    /** One step: find the slot ready, which it is exactly if its cycle bit is right, or take what it holds,
        or follow the link. */
    method Step(ring: Ring)
      requires ring.Serves(this)
      modifies this
      ensures ring.Serves(this) && old(seen) <= seen
      ensures !old(claimed) ==> seen == old(seen) && c == old(c) && cBit == old(cBit)
                                && (claimed <==> ring.buf[old(c)].cycle == old(cBit))
      ensures old(claimed) && old(c) < ring.buf.Length - 1 ==>
        && |old(seen)| < |ring.pushed| && seen == old(seen) + [ring.pushed[|old(seen)|]]
        && c == old(c) + 1 && cBit == old(cBit) && !claimed
      ensures old(claimed) && old(c) == ring.buf.Length - 1 ==>
        seen == old(seen) && c == 0 && cBit == !old(cBit) && !claimed
      ensures old(Free(ring.at, ring.phase, c, cBit)) ==> Free(ring.at, ring.phase, c, cBit)
      ensures old(cBit) == ring.phase ==> cBit == ring.phase
      ensures old(ring.pushed[|seen|..]) != [] && !old(claimed) ==> claimed
    {
      hide Linked, TypeOf;
      ghost var queue := ring.pushed[|seen|..];
      LinkIsLink(ring.base);
      Owned(ring.buf[..], ring.base, ring.at, ring.phase, c, cBit, queue);
      var slot := ring.buf[c];
      if !claimed {
        claimed := slot.cycle == cBit;
        return;
      }
      claimed := false;
      if TypeOf(slot.control) == LINK_TYPE {
        var address := slot.word1 * WORD + slot.word0;
        c := address - ring.base;
        cBit := if slot.control % 2 == 1 then !cBit else cBit;
      } else {
        assert seen + [queue[0]] <= ring.pushed;
        assert ring.pushed[|seen| + 1..] == queue[1..];
        seen := seen + [slot.Content()];
        c := c + 1;
      }
    }

    /** Any number of steps between two stores of the driver. Four for each TRB that is left take them all. */
    method Run(ring: Ring, turns: nat)
      requires ring.Serves(this)
      modifies this
      ensures ring.Serves(this) && old(seen) <= seen
      ensures turns >= 4 * |old(ring.pushed[|seen|..])| ==> seen == ring.pushed
      ensures old(Free(ring.at, ring.phase, c, cBit)) ==> Free(ring.at, ring.phase, c, cBit)
      ensures old(cBit) == ring.phase ==> cBit == ring.phase
    {
      for i := 0 to turns
        invariant ring.Serves(this) && old(seen) <= seen
        invariant StepsLeft(ring) <= 0 || StepsLeft(ring) + i <= 4 * |old(ring.pushed[|seen|..])|
        invariant old(Free(ring.at, ring.phase, c, cBit)) ==> Free(ring.at, ring.phase, c, cBit)
        invariant old(cBit) == ring.phase ==> cBit == ring.phase
      {
        Step(ring);
      }
    }

    /** How many steps it takes at most until everything pushed is taken: two for each TRB, and two for a link
        that may come before it. */
    ghost function StepsLeft(ring: Ring): int
      reads this, ring
    {
      var left := |ring.pushed| - |seen|;
      if left <= 0 then 0
      else 4 * left - (if c == ring.buf.Length - 1 then 0 else 2) - if claimed then 1 else 0
    }
  }

  class Ring {
    const buf: array<Slot>
    const base: nat
    var cycleBit: bool
    var writeIndex: nat
    ghost var at: nat
    ghost var phase: bool
    ghost var pushed: seq<Data>

    /** Initialize, on cleared memory at an address. */
    constructor (bufSize: nat, base: nat)
      requires bufSize >= 2 && base < WORD * WORD
      ensures Valid() && fresh(buf) && buf.Length == bufSize && pushed == [] && writeIndex == 0 && cycleBit
      ensures forall i :: 0 <= i < bufSize ==> buf[i] == Slot(0, 0, 0, 0, false)
    {
      this.base := base;
      buf := new Slot[bufSize](_ => Slot(0, 0, 0, 0, false));
      cycleBit, writeIndex, at, phase, pushed := true, 0, 0, true, [];
    }

    /** Between two pushes. */
    ghost predicate Valid()
      reads this
    {
      && base < WORD * WORD && buf.Length >= 2 && writeIndex < buf.Length - 1
      && at == writeIndex && phase == cycleBit
    }

    /** The consumer has taken the first of the TRBs that were pushed, and will find the others. */
    ghost predicate Serves(hc: HostController)
      reads this, buf, hc
    {
      && base < WORD * WORD && hc.seen <= pushed
      && Linked(buf[..], base, at, phase, hc.c, hc.cBit, pushed[|hc.seen|..])
      && (hc.claimed ==> buf[hc.c].cycle == hc.cBit)
    }

    /** The four stores of CopyToLast, the one with the cycle bit last, with the consumer running before
        each of them. */
    method CopyToLast(data: Data, hc: HostController, turns: seq<nat>)
      requires Serves(hc) && |turns| == 4 && Free(at, phase, hc.c, hc.cBit)
      requires writeIndex == at && cycleBit == phase
      requires if at < buf.Length - 1 then TypeOf(data.control) != LINK_TYPE else data == LinkTo(base) && hc.cBit == phase
      modifies this`at, this`phase, this`pushed, buf, hc
      ensures Serves(hc) && old(hc.seen) <= hc.seen
      ensures if old(at) < buf.Length - 1
              then at == old(at) + 1 && phase == old(phase) && pushed == old(pushed) + [data]
              else at == 0 && phase == !old(phase) && pushed == old(pushed)
      ensures old(hc.cBit) == old(phase) ==> hc.cBit == old(phase)
    {
      for i := 0 to 3
        invariant Serves(hc) && Free(at, phase, hc.c, hc.cBit) && old(hc.seen) <= hc.seen
        invariant at == old(at) && phase == old(phase) && pushed == old(pushed)
        invariant old(hc.cBit) == phase ==> hc.cBit == phase
        invariant i > 0 ==> buf[at].word0 == data.word0
        invariant i > 1 ==> buf[at].word1 == data.word1
        invariant i > 2 ==> buf[at].word2 == data.word2
      {
        hc.Run(this, turns[i]);
        StoreWord(i, data, hc);
      }
      hc.Run(this, turns[3]);
      StoreLast(data, hc);
    }

    method StoreWord(i: nat, data: Data, hc: HostController)
      requires Serves(hc) && Free(at, phase, hc.c, hc.cBit) && i < 3 && writeIndex == at
      modifies buf
      ensures Serves(hc)
      ensures buf[at] == match i { case 0 => old(buf[at]).(word0 := data.word0)
                                   case 1 => old(buf[at]).(word1 := data.word1)
                                   case _ => old(buf[at]).(word2 := data.word2) }
    {
      var slot := match i {
        case 0 => buf[writeIndex].(word0 := data.word0)
        case 1 => buf[writeIndex].(word1 := data.word1)
        case _ => buf[writeIndex].(word2 := data.word2)
      };
      LowWordsStored(buf[..], base, at, phase, hc.c, hc.cBit, pushed[|hc.seen|..], slot);
      ghost var before := buf[..];
      buf[writeIndex] := slot;
      assert buf[..] == before[at := slot];
    }

    method StoreLast(data: Data, hc: HostController)
      requires Serves(hc) && Free(at, phase, hc.c, hc.cBit) && writeIndex == at && cycleBit == phase
      requires buf[at].word0 == data.word0 && buf[at].word1 == data.word1 && buf[at].word2 == data.word2
      requires if at < buf.Length - 1 then TypeOf(data.control) != LINK_TYPE else data == LinkTo(base) && hc.cBit == phase
      modifies this`at, this`phase, this`pushed, buf
      ensures Serves(hc)
      ensures if old(at) < buf.Length - 1
              then at == old(at) + 1 && phase == old(phase) && pushed == old(pushed) + [data]
              else at == 0 && phase == !old(phase) && pushed == old(pushed)
    {
      ghost var before, queue := buf[..], pushed[|hc.seen|..];
      var slot := buf[writeIndex].(control := data.control, cycle := cycleBit);
      assert slot.Content() == data;
      buf[writeIndex] := slot;
      assert buf[..] == before[at := slot];
      if at < buf.Length - 1 {
        TrbStored(before, base, at, phase, hc.c, hc.cBit, queue, slot);
        assert (pushed + [data])[|hc.seen|..] == queue + [data];
        at, pushed := at + 1, pushed + [data];
      } else {
        LinkStored(before, base, at, phase, hc.c, hc.cBit, queue, slot);
        at, phase := 0, !phase;
      }
    }

    /** Push. Whatever the consumer does meanwhile, what it has taken stays taken, and it finds the other
        pushed TRBs, each once, in order and complete. */
    method Push(data: Data, hc: HostController, turns: seq<nat>) returns (slot: nat)
      requires Valid() && Serves(hc) && |turns| == 8 && TypeOf(data.control) != LINK_TYPE
      requires Room(buf.Length - 1, writeIndex, cycleBit, hc.c, hc.cBit)
      modifies this, buf, hc
      ensures Valid() && Serves(hc) && old(hc.seen) <= hc.seen <= pushed
      ensures pushed == old(pushed) + [data] && slot == old(writeIndex)
      ensures writeIndex == (if old(writeIndex) + 1 == buf.Length - 1 then 0 else old(writeIndex) + 1)
    {
      slot := writeIndex;
      CopyToLast(data, hc, turns[..4]);
      writeIndex := writeIndex + 1;
      if writeIndex == buf.Length - 1 {
        CopyToLast(LinkTo(base), hc, turns[4..]);
        writeIndex := 0;
        cycleBit := !cycleBit;
      }
    }
  }

  /** A new ring serves a consumer that has not started. */
  lemma NewRing(buf: seq<Slot>, base: nat)
    requires base < WORD * WORD && |buf| >= 2 && forall i :: 0 <= i < |buf| ==> !buf[i].cycle
    ensures Linked(buf, base, 0, true, 0, true, [])
  {
  }
}
