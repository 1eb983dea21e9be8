/** The event ring: the host controller writes it, the driver reads it. One segment, without links. */
module EventRings {
  import opened Rings

  const TRB_BYTES := 16

  /** The producer stands at slot p with cycle bit pBit, the consumer at slot c with cycle bit cBit; the
      events in queue were written and not yet popped. */
  ghost predicate Circular(buf: seq<Slot>, p: nat, pBit: bool, c: nat, cBit: bool, queue: seq<Data>) {
    var n := |buf|;
    && p < n && c < n
    && (forall i :: 0 <= i < n ==> buf[i].cycle == if i < p then pBit else !pBit)
    && if cBit == pBit then
         c <= p && |queue| == p - c && forall i :: c <= i < p ==> buf[i].Content() == queue[i - c]
       else
         && p <= c && |queue| == n - c + p
         && (forall i :: c <= i < n ==> buf[i].Content() == queue[i - c])
         && (forall i :: 0 <= i < p ==> buf[i].Content() == queue[n - c + i])
  }

  lemma LowWordsPosted(buf: seq<Slot>, p: nat, pBit: bool, c: nat, cBit: bool, queue: seq<Data>, slot: Slot)
    requires Circular(buf, p, pBit, c, cBit, queue) && Free(p, pBit, c, cBit) && slot.cycle == buf[p].cycle
    ensures Circular(buf[p := slot], p, pBit, c, cBit, queue) && (queue != [] ==> p != c)
  {
  }

  lemma EventPosted(buf: seq<Slot>, p: nat, pBit: bool, c: nat, cBit: bool, queue: seq<Data>, slot: Slot)
    requires Circular(buf, p, pBit, c, cBit, queue) && Free(p, pBit, c, cBit) && slot.cycle == pBit
    ensures queue != [] ==> p != c
    ensures var wrap := p + 1 == |buf|;
      Circular(buf[p := slot], if wrap then 0 else p + 1, if wrap then !pBit else pBit, c, cBit, queue + [slot.Content()])
  {
  }

  /** The driver finds its own cycle bit at the front exactly if an event is there, complete; popping it
      brings it to the next one. */
  lemma FrontOwned(buf: seq<Slot>, p: nat, pBit: bool, c: nat, cBit: bool, queue: seq<Data>)
    requires Circular(buf, p, pBit, c, cBit, queue)
    ensures c < |buf| && (buf[c].cycle == cBit <==> queue != [])
    ensures queue != [] ==>
      && buf[c].Content() == queue[0]
      && var wrap := c + 1 == |buf|;
         var c', cBit' := if wrap then 0 else c + 1, if wrap then !cBit else cBit;
         Circular(buf, p, pBit, c', cBit', queue[1..]) && (Free(p, pBit, c, cBit) ==> Free(p, pBit, c', cBit'))
  {
  }

  /** The controller as producer: it stores the words of the next event one by one, the cycle bit last,
      and only into slots that the driver has popped. */
  class EventSource {
    var p: nat
    var pBit: bool
    var stored: nat
    var toPost: seq<Data>
    ghost var posted: seq<Data>

    constructor (events: seq<Data>)
      ensures p == 0 && pBit && stored == 0 && toPost == events && posted == []
    {
      p, pBit, stored, toPost, posted := 0, true, 0, events, [];
    }

    method Step(ring: EventRing)
      requires ring.Serves(this)
      modifies this, ring.buf
      ensures ring.Serves(this) && posted + toPost == old(posted + toPost) && old(posted) <= posted
      ensures old(ring.HasFront()) ==> ring.HasFront() && ring.Front() == old(ring.Front())
    {
      hide Circular;
      ring.InBounds(this);
      if toPost == [] || !Free(p, pBit, ring.Index(), ring.cycleBit) {
        return;
      }
      if stored < 3 {
        StoreWord(ring);
      } else {
        StoreLast(ring);
      }
    }

    method StoreWord(ring: EventRing)
      requires ring.Serves(this) && toPost != [] && Free(p, pBit, ring.Index(), ring.cycleBit) && stored < 3
      modifies this`stored, ring.buf
      ensures ring.Serves(this)
      ensures old(ring.HasFront()) ==> ring.HasFront() && ring.Front() == old(ring.Front())
    {
      hide Circular;
      ghost var before, queue := ring.buf[..], posted[|ring.handled|..];
      FrontOwned(before, p, pBit, ring.Index(), ring.cycleBit, queue);
      ring.InBounds(this);
      var event := toPost[0];
      var slot := match stored {
        case 0 => ring.buf[p].(word0 := event.word0)
        case 1 => ring.buf[p].(word1 := event.word1)
        case _ => ring.buf[p].(word2 := event.word2)
      };
      LowWordsPosted(before, p, pBit, ring.Index(), ring.cycleBit, queue, slot);
      ring.buf[p] := slot;
      assert ring.buf[..] == before[p := slot];
      stored := stored + 1;
    }

    method StoreLast(ring: EventRing)
      requires ring.Serves(this) && toPost != [] && Free(p, pBit, ring.Index(), ring.cycleBit) && stored == 3
      modifies this, ring.buf
      ensures ring.Serves(this)
      ensures posted == old(posted) + [old(toPost)[0]] && toPost == old(toPost)[1..]
      ensures old(ring.HasFront()) ==> ring.HasFront() && ring.Front() == old(ring.Front())
    {
      hide Circular;
      ghost var before, queue := ring.buf[..], posted[|ring.handled|..];
      FrontOwned(before, p, pBit, ring.Index(), ring.cycleBit, queue);
      ring.InBounds(this);
      var event := toPost[0];
      var slot := ring.buf[p].(control := event.control, cycle := pBit);
      assert slot.Content() == event;
      EventPosted(before, p, pBit, ring.Index(), ring.cycleBit, queue, slot);
      ring.buf[p] := slot;
      assert ring.buf[..] == before[p := slot];
      assert (posted + [event])[|ring.handled|..] == queue + [event];
      posted, toPost, stored := posted + [event], toPost[1..], 0;
      p := p + 1;
      if p == ring.buf.Length {
        p, pBit := 0, !pBit;
      }
    }

    method Run(ring: EventRing, turns: nat)
      requires ring.Serves(this)
      modifies this, ring.buf
      ensures ring.Serves(this) && posted + toPost == old(posted + toPost) && old(posted) <= posted
      ensures old(ring.HasFront()) ==> ring.HasFront() && ring.Front() == old(ring.Front())
    {
      for i := 0 to turns
        invariant ring.Serves(this) && posted + toPost == old(posted + toPost) && old(posted) <= posted
        invariant old(ring.HasFront()) ==> ring.HasFront() && ring.Front() == old(ring.Front())
      {
        Step(ring);
      }
    }
  }

  class EventRing {
    const buf: array<Slot>
    const base: nat
    var cycleBit: bool
    var dequeuePointer: nat
    ghost var handled: seq<Data>

    constructor (bufSize: nat, base: nat, source: EventSource)
      requires bufSize > 0 && source.p == 0 && source.pBit && source.stored == 0 && source.posted == []
      ensures Serves(source) && fresh(buf) && handled == []
    {
      this.base := base;
      buf := new Slot[bufSize](_ => Slot(0, 0, 0, 0, false));
      cycleBit, dequeuePointer, handled := true, base, [];
    }

    /** The slot the dequeue pointer register points to. */
    function Index(): int
      reads this
    {
      (dequeuePointer - base) / TRB_BYTES
    }

    /** The driver has handled the first of the events that were posted, and will find the others. */
    ghost predicate Serves(source: EventSource)
      reads this, buf, source
    {
      && Index() >= 0 && dequeuePointer == base + TRB_BYTES * Index()
      && handled <= source.posted
      && Circular(buf[..], source.p, source.pBit, Index(), cycleBit, source.posted[|handled|..])
      && source.stored <= 3
      && (source.stored > 0 ==> source.toPost != [] && Free(source.p, source.pBit, Index(), cycleBit)
                                && buf[source.p].word0 == source.toPost[0].word0)
      && (source.stored > 1 ==> buf[source.p].word1 == source.toPost[0].word1)
      && (source.stored > 2 ==> buf[source.p].word2 == source.toPost[0].word2)
    }

    lemma InBounds(source: EventSource)
      requires Serves(source)
      ensures 0 <= Index() < buf.Length && source.p < buf.Length
    {
    }

    predicate HasFront()
      requires 0 <= Index() < buf.Length
      reads this, buf
    {
      buf[Index()].cycle == cycleBit
    }

    function Front(): Data
      requires 0 <= Index() < buf.Length
      reads this, buf
    {
      buf[Index()].Content()
    }

    /** Pop: the next slot, with the other cycle bit after the end of the segment. */
    method Pop(source: EventSource)
      requires Serves(source) && 0 <= Index() < buf.Length && HasFront()
      modifies this
      ensures Serves(source)
      ensures |old(handled)| < |source.posted| && handled == old(handled) + [source.posted[|old(handled)|]]
      ensures handled == old(handled) + [old(Front())]
    {
      hide Circular;
      ghost var queue := source.posted[|handled|..];
      FrontOwned(buf[..], source.p, source.pBit, Index(), cycleBit, queue);
      handled := handled + [queue[0]];
      assert source.posted[|handled|..] == queue[1..];
      var p := dequeuePointer + TRB_BYTES;
      var segmentEnd := base + TRB_BYTES * buf.Length;
      if p == segmentEnd {
        p := base;
        cycleBit := !cycleBit;
      }
      dequeuePointer := p;
    }

    /** Handling one event, with the controller running before each of the driver's accesses. */
    method ProcessEvent(source: EventSource, turns: nat, turns': nat) returns (event: seq<Data>)
      requires Serves(source)
      modifies this, buf, source
      ensures Serves(source) && source.posted + source.toPost == old(source.posted + source.toPost)
      ensures handled == old(handled) + event
      ensures |old(source.posted)| > |old(handled)| ==> event == [old(source.posted)[|old(handled)|]]
    {
      InBounds(source);
      source.Run(this, turns);
      InBounds(source);
      if !HasFront() {
        FrontOwned(buf[..], source.p, source.pBit, Index(), cycleBit, source.posted[|handled|..]);
        return [];
      }
      source.Run(this, turns');
      InBounds(source);
      event := [Front()];
      Pop(source);
    }
  }
}
