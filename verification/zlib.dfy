/** The zlib Huffman decoder: a table over the next nine bits, and a search over preshifted code
    limits for longer codes. */
module Zlib {
  import opened Bits
  import opened CanonicalCode

  const ZFAST_BITS: nat := 9
  const ZFAST_SIZE: nat := 512

  /** Where the builder stores symbol i: by code length, then by symbol. */
  ghost function Slot(lengths: seq<nat>, i: nat): nat
    requires i < |lengths|
  {
    Below(lengths, lengths[i]) + Rank(lengths, i)
  }

  /** How many symbols have a code shorter than s bits. */
  function Below(lengths: seq<nat>, s: nat): nat {
    if s <= 1 then 0 else Below(lengths, s - 1) + Count(lengths, s - 1)
  }

  /** The next bits of the stream, in the low bits of j, begin with the code word of symbol i. */
  ghost predicate FastMatch(lengths: seq<nat>, i: nat, j: nat)
    requires i < |lengths|
  {
    1 <= lengths[i] <= ZFAST_BITS && Low(j, lengths[i]) == Reverse(Code(lengths, i), lengths[i])
  }

  ghost predicate FastTable(lengths: seq<nat>, n: nat, table: seq<nat>)
    requires n <= |lengths| && |table| == ZFAST_SIZE
  {
    && (forall j, i :: 0 <= j < ZFAST_SIZE && 0 <= i < n && FastMatch(lengths, i, j) ==>
          table[j] == lengths[i] * 512 + i)
    && (forall j :: 0 <= j < ZFAST_SIZE && table[j] != 0 ==>
          exists i :: 0 <= i < n && FastMatch(lengths, i, j))
  }

  lemma {:induction false} BelowOrder(lengths: seq<nat>, s: nat, t: nat)
    requires 1 <= s < t
    ensures Below(lengths, s) + Count(lengths, s) <= Below(lengths, t)
    decreases t
  {
    if s < t - 1 {
      BelowOrder(lengths, s, t - 1);
    }
  }

  lemma {:induction false} BelowTotal(lengths: seq<nat>, s: nat)
    requires 1 <= s
    ensures Below(lengths, s) + Count(lengths, s) <= |lengths|
    decreases |lengths|
  {
    if lengths == [] {
      BelowEmpty(s);
    } else {
      var n := |lengths| - 1;
      BelowTotal(lengths[..n], s);
      BelowAppend(lengths, s);
    }
  }

  lemma {:induction false} BelowEmpty(s: nat)
    ensures Below([], s) == 0
  {
    if s > 1 {
      BelowEmpty(s - 1);
    }
  }

  lemma {:induction false} BelowAppend(lengths: seq<nat>, s: nat)
    requires |lengths| > 0 && 1 <= s
    ensures var n := |lengths| - 1;
      Below(lengths, s) == Below(lengths[..n], s) + (if 0 < lengths[n] < s then 1 else 0)
    decreases s
  {
    if s > 1 {
      BelowAppend(lengths, s - 1);
    }
  }

  /** Different symbols have different slots, all inside the table. */
  lemma SlotInjective(lengths: seq<nat>, i: nat, j: nat)
    requires i < j < |lengths| && lengths[i] > 0 && lengths[j] > 0
    ensures Slot(lengths, i) != Slot(lengths, j)
  {
    RankBound(lengths, i);
    RankBound(lengths, j);
    if lengths[i] < lengths[j] {
      BelowOrder(lengths, lengths[i], lengths[j]);
    } else if lengths[j] < lengths[i] {
      BelowOrder(lengths, lengths[j], lengths[i]);
    } else {
      RankOrder(lengths, i, j);
    }
  }

  lemma SlotBound(lengths: seq<nat>, i: nat)
    requires i < |lengths| && lengths[i] > 0
    ensures Slot(lengths, i) < |lengths|
  {
    RankBound(lengths, i);
    BelowTotal(lengths, lengths[i]);
  }

  /** The low bits of the buffer and the prefix they spell are the same thing reversed. */
  lemma FastMatchIsMatch(lengths: seq<nat>, i: nat, buffer: nat)
    requires i < |lengths| && lengths[i] <= ZFAST_BITS
    requires lengths[i] > 0 ==> Code(lengths, i) < Shl(1, lengths[i])
    ensures FastMatch(lengths, i, Low(buffer, ZFAST_BITS)) <==> Matches(lengths, i, Reverse(buffer, 16))
  {
    var s := lengths[i];
    if s > 0 {
      LowLow(buffer, s, ZFAST_BITS);
      ReverseTop(buffer, 16, s);
      ReverseLow(buffer, s);
      ReverseTwice(Code(lengths, i), s);
      LowOfSmall(Code(lengths, i), s);
      ReverseTwice(buffer, s);
    }
  }

  /** Below the Kraft bound every code word fits its length. */
  lemma CodeFits(lengths: seq<nat>, i: nat)
    requires i < |lengths| && 0 < lengths[i] <= MAX_LENGTH
    requires Boundary(lengths, lengths[i]) <= 0x1_0000
    ensures Code(lengths, i) < Shl(1, lengths[i])
  {
    var s := lengths[i];
    RankBound(lengths, i);
    NextFreeFits(lengths, s);
  }

  lemma NextFreeFits(lengths: seq<nat>, s: nat)
    requires 1 <= s <= MAX_LENGTH
    ensures Boundary(lengths, s) <= 0x1_0000 <==> FirstCode(lengths, s) + Count(lengths, s) <= Shl(1, s)
  {
    hide Shl, FirstCode, Count;
    ShlValues();
    ShlTwice(1, s, 16 - s);
    ShlLe(FirstCode(lengths, s) + Count(lengths, s), Shl(1, s), 16 - s);
  }

  class ZHuffman {
    const fast: array<nat>
    const firstcode: array<nat>
    const maxcode: array<nat>
    const firstsymbol: array<nat>
    const size: array<nat>
    const value: array<nat>

    ghost predicate Shape() {
      && fast.Length == ZFAST_SIZE && firstcode.Length == 16 && maxcode.Length == 17 && firstsymbol.Length == 16
      && size.Length == MAX_SYMBOLS && value.Length == MAX_SYMBOLS
      && fast != firstcode && fast != maxcode && fast != firstsymbol && fast != size && fast != value
      && firstcode != maxcode && firstcode != firstsymbol && firstcode != size && firstcode != value
      && maxcode != firstsymbol && maxcode != size && maxcode != value
      && firstsymbol != size && firstsymbol != value && size != value
    }

    constructor ()
      ensures Shape()
      ensures fresh(fast) && fresh(firstcode) && fresh(maxcode) && fresh(firstsymbol) && fresh(size) && fresh(value)
    {
      fast := new nat[ZFAST_SIZE];
      firstcode := new nat[16];
      maxcode := new nat[17];
      firstsymbol := new nat[16];
      size := new nat[MAX_SYMBOLS];
      value := new nat[MAX_SYMBOLS];
    }

    /** The limits of the code lengths up to s. */
    ghost predicate Limits(lengths: seq<nat>, s: nat)
      requires Shape() && s <= MAX_LENGTH
      reads firstcode, maxcode, firstsymbol
    {
      forall t :: 1 <= t <= s ==>
        && firstcode[t] == FirstCode(lengths, t)
        && firstsymbol[t] == Below(lengths, t)
        && maxcode[t] == Boundary(lengths, t)
    }

    /** The slots of the first n symbols. */
    ghost predicate Slots(lengths: seq<nat>, n: nat)
      requires Shape() && n <= |lengths|
      reads size, value
    {
      forall i :: 0 <= i < n && lengths[i] > 0 ==>
        var c := Slot(lengths, i);
        c < MAX_SYMBOLS && size[c] == lengths[i] && value[c] == i
    }

    /** The fast table resolves the short codes of the first n symbols, and nothing else. */
    ghost predicate Fast(lengths: seq<nat>, n: nat)
      requires Shape() && n <= |lengths|
      reads fast
    {
      FastTable(lengths, n, fast[..])
    }

    /** The tables of a code that satisfies Kraft's inequality. */
    ghost predicate Built(lengths: seq<nat>)
      reads fast, firstcode, maxcode, firstsymbol, size, value
    {
      && Shape() && ValidLengths(lengths) && Kraft(lengths) <= 0x1_0000
      && Limits(lengths, MAX_LENGTH) && maxcode[16] == 0x1_0000
      && Slots(lengths, |lengths|) && Fast(lengths, |lengths|)
    }

    /** stbi__zbuild_huffman: accepts exactly the lengths whose Kraft sum is at most one. */
    method Build(sizelist: seq<nat>) returns (ok: bool)
      requires Shape() && ValidLengths(sizelist)
      modifies fast, firstcode, maxcode, firstsymbol, size, value
      ensures ok <==> Kraft(sizelist) <= 0x1_0000
      ensures ok ==> Built(sizelist)
    {
      hide Kraft, FirstCode, Count, Boundary, Below, FastMatch, Slot;
      BoundaryIsKraft(sizelist);
      var sizes := CountSizes(sizelist);
      forall j | 0 <= j < ZFAST_SIZE {
        fast[j] := 0;
      }
      for i := 1 to 16
        invariant forall s :: 1 <= s < i ==> sizes[s] <= Shl(1, s)
      {
        if sizes[i] > Shl(1, i) {
          TooMany(sizelist, i);
          return false;
        }
      }
      var nextCode;
      ok, nextCode := FillLimits(sizelist, sizes);
      if !ok {
        return;
      }
      maxcode[16] := 0x1_0000;
      NoSymbolsYet(sizelist);
      for i := 0 to |sizelist|
        invariant forall s :: 1 <= s <= MAX_LENGTH ==> nextCode[s] == FirstCode(sizelist, s) + Count(sizelist[..i], s)
        invariant Limits(sizelist, MAX_LENGTH) && maxcode[16] == 0x1_0000
        invariant Slots(sizelist, i)
        invariant Fast(sizelist, i)
      {
        AddSymbol(sizelist, i, nextCode);
      }
      assert sizelist[..|sizelist|] == sizelist;
    }

    /** One round of the builder's last loop: symbol i's slot and its fast table entries. */
    method AddSymbol(sizelist: seq<nat>, i: nat, nextCode: array<nat>)
      requires Shape() && ValidLengths(sizelist) && i < |sizelist|
      requires Boundary(sizelist, MAX_LENGTH) <= 0x1_0000
      requires nextCode.Length == 16 && nextCode !in {fast, firstcode, maxcode, firstsymbol, size, value}
      requires forall s :: 1 <= s <= MAX_LENGTH ==> nextCode[s] == FirstCode(sizelist, s) + Count(sizelist[..i], s)
      requires Limits(sizelist, MAX_LENGTH) && Slots(sizelist, i) && Fast(sizelist, i)
      modifies fast, size, value, nextCode
      ensures forall s :: 1 <= s <= MAX_LENGTH ==> nextCode[s] == FirstCode(sizelist, s) + Count(sizelist[..i + 1], s)
      ensures Slots(sizelist, i + 1) && Fast(sizelist, i + 1)
    {
      hide FirstCode, Count, Boundary, Below, Code, Rank, Shl, Low, Reverse, BitReverse, FastTable;
      forall s ensures Count(sizelist[..i + 1], s) == Count(sizelist[..i], s) + (if sizelist[i] == s then 1 else 0) {
        CountPrefix(sizelist, i, s);
      }
      var s := sizelist[i];
      if s != 0 {
        SlotIs(sizelist, i);
        var c := nextCode[s] - firstcode[s] + firstsymbol[s];
        SlotBound(sizelist, i);
        var fastv := s * 512 + i;
        forall k | 0 <= k < i && sizelist[k] > 0 ensures Slot(sizelist, k) != c {
          SlotInjective(sizelist, k, i);
        }
        size[c] := s;
        value[c] := i;
        if s <= ZFAST_BITS {
          BitReverseIsReverse(nextCode[s], s);
          ReverseBound(nextCode[s], s);
          FillFast(BitReverse(nextCode[s], s), s, fastv);
        }
        FastExtended(sizelist, i, old(fast[..]), fast[..]);
        nextCode[s] := nextCode[s] + 1;
      } else {
        FastSkipped(sizelist, i, fast[..]);
      }
    }

    /** Stores v at every table index whose low s bits are r. */
    method FillFast(r: nat, s: nat, v: nat)
      requires Shape() && 1 <= s <= ZFAST_BITS && r < Shl(1, s)
      modifies fast
      ensures forall j :: 0 <= j < ZFAST_SIZE ==> fast[j] == if Low(j, s) == r then v else old(fast[j])
    {
      hide Shl, Low;
      var j := r;
      ghost var q := 0;
      ShlOrder(0, 0, s);
      forall k: nat | k < r ensures Low(k, s) != r {
        LowOfSmall(k, s);
      }
      while j < ZFAST_SIZE
        invariant j == Shl(q, s) + r
        invariant forall k :: 0 <= k < ZFAST_SIZE ==> fast[k] == if k < j && Low(k, s) == r then v else old(fast[k])
        decreases ZFAST_SIZE - j
      {
        Join(q, r, s);
        forall k: nat | j < k < j + Shl(1, s) ensures Low(k, s) != r {
          NextWithLow(q, r, s, k);
        }
        ShlSum(q, 1, s);
        fast[j] := v;
        j := j + Shl(1, s);
        q := q + 1;
      }
    }

    /** The number of symbols of every length; length zero does not count. */
    method CountSizes(sizelist: seq<nat>) returns (sizes: array<nat>)
      requires ValidLengths(sizelist)
      ensures fresh(sizes) && sizes.Length == 17
      ensures forall s :: 1 <= s <= MAX_LENGTH ==> sizes[s] == Count(sizelist, s)
    {
      sizes := new nat[17](_ => 0);
      for i := 0 to |sizelist|
        invariant fresh(sizes) && sizes.Length == 17
        invariant forall s :: 0 <= s <= MAX_LENGTH ==> sizes[s] == Count(sizelist[..i], s)
      {
        forall s ensures Count(sizelist[..i + 1], s) == Count(sizelist[..i], s) + (if sizelist[i] == s then 1 else 0) {
          CountPrefix(sizelist, i, s);
        }
        sizes[sizelist[i]] := sizes[sizelist[i]] + 1;
      }
      assert sizelist[..|sizelist|] == sizelist;
      sizes[0] := 0;
    }

    /** Walks the lengths in order, giving each its first code and its limit. */
    method FillLimits(sizelist: seq<nat>, sizes: array<nat>) returns (ok: bool, nextCode: array<nat>)
      requires Shape() && ValidLengths(sizelist) && sizes.Length == 17
      requires forall s :: 1 <= s <= MAX_LENGTH ==> sizes[s] == Count(sizelist, s)
      requires sizes != firstcode && sizes != maxcode && sizes != firstsymbol
      modifies firstcode, maxcode, firstsymbol
      ensures ok <==> Boundary(sizelist, MAX_LENGTH) <= 0x1_0000
      ensures fresh(nextCode) && nextCode.Length == 16
      ensures ok ==> Limits(sizelist, MAX_LENGTH)
      ensures ok ==> forall s :: 1 <= s <= MAX_LENGTH ==> nextCode[s] == FirstCode(sizelist, s)
    {
      hide FirstCode, Count, Boundary, Below, Shl, ValidLengths;
      nextCode := new nat[16](_ => 0);
      var code, k := 0, 0;
      LimitsStart(sizelist);
      for i := 1 to 16
        invariant fresh(nextCode) && nextCode.Length == 16
        invariant code == FirstCode(sizelist, i) && k == Below(sizelist, i)
        invariant Boundary(sizelist, i - 1) <= 0x1_0000
        invariant Limits(sizelist, i - 1)
        invariant forall s :: 1 <= s < i ==> nextCode[s] == FirstCode(sizelist, s)
        invariant forall s :: 1 <= s <= MAX_LENGTH ==> sizes[s] == Count(sizelist, s)
      {
        nextCode[i] := code;
        CodeIs16Bit(sizelist, i);
        LimitsNext(sizelist, i, i + 1);
        firstcode[i] := code % 0x1_0000;
        firstsymbol[i] := k % 0x1_0000;
        code := code + sizes[i];
        NextFreeFits(sizelist, i);
        BoundaryStep(sizelist, i);
        BoundaryOrder(sizelist, i, MAX_LENGTH);
        if sizes[i] != 0 && code - 1 >= Shl(1, i) {
          return false, nextCode;
        }
        if sizes[i] == 0 {
          ShlOrder(0, 0, 16 - i);
        }
        maxcode[i] := Shl(code, 16 - i);
        code := Shl(code, 1);
        k := k + sizes[i];
      }
      ok := true;
    }
  }

  /** Between two numbers with low bits r that are 2^s apart there is no third. */
  lemma NextWithLow(q: nat, r: nat, s: nat, k: nat)
    requires Shl(q, s) + r < k < Shl(q, s) + r + Shl(1, s)
    ensures Low(k, s) != r
  {
    hide Shl, Low;
    Split(k, s);
    if Low(k, s) == r {
      ShlSum(q, 1, s);
      ShlLe(Shr(k, s), q, s);
      ShlLe(q + 1, Shr(k, s), s);
    }
  }

  /** The fast table after the entries of symbol i were stored. */
  lemma FastExtended(lengths: seq<nat>, i: nat, t0: seq<nat>, t1: seq<nat>)
    requires ValidLengths(lengths) && i < |lengths| && lengths[i] > 0
    requires Boundary(lengths, MAX_LENGTH) <= 0x1_0000
    requires |t0| == |t1| == ZFAST_SIZE
    requires FastTable(lengths, i, t0)
    requires forall j :: 0 <= j < ZFAST_SIZE ==>
      t1[j] == if FastMatch(lengths, i, j) then lengths[i] * 512 + i else t0[j]
    ensures FastTable(lengths, i + 1, t1)
  {
    hide FastMatch;
    forall j, k | 0 <= j < ZFAST_SIZE && 0 <= k < i && FastMatch(lengths, k, j)
      ensures !FastMatch(lengths, i, j)
    {
      if FastMatch(lengths, i, j) {
        FastMatchUnique(lengths, i, k, j);
      }
    }
    forall j | 0 <= j < ZFAST_SIZE && t1[j] != 0
      ensures exists k :: 0 <= k < i + 1 && FastMatch(lengths, k, j)
    {
      if !FastMatch(lengths, i, j) {
        var k :| 0 <= k < i && FastMatch(lengths, k, j);
        assert 0 <= k < i + 1;
      }
    }
  }

  lemma FastSkipped(lengths: seq<nat>, i: nat, table: seq<nat>)
    requires i < |lengths| && lengths[i] == 0 && |table| == ZFAST_SIZE
    requires FastTable(lengths, i, table)
    ensures FastTable(lengths, i + 1, table)
  {
  }

  lemma FastMatchUnique(lengths: seq<nat>, i: nat, k: nat, j: nat)
    requires ValidLengths(lengths) && i < |lengths| && k < |lengths|
    requires Boundary(lengths, MAX_LENGTH) <= 0x1_0000
    requires j < ZFAST_SIZE && FastMatch(lengths, i, j) && FastMatch(lengths, k, j)
    ensures i == k
  {
    ShlValues();
    LowOfSmall(j, ZFAST_BITS);
    BoundaryOrder(lengths, lengths[i], MAX_LENGTH);
    BoundaryOrder(lengths, lengths[k], MAX_LENGTH);
    CodeFits(lengths, i);
    CodeFits(lengths, k);
    FastMatchIsMatch(lengths, i, j);
    FastMatchIsMatch(lengths, k, j);
    MatchUnique(lengths, i, k, Reverse(j, 16));
  }

  /** More codes of s bits than there are s-bit words break Kraft's inequality. */
  lemma TooMany(lengths: seq<nat>, s: nat)
    requires 1 <= s <= MAX_LENGTH && Count(lengths, s) > Shl(1, s)
    ensures Boundary(lengths, MAX_LENGTH) > 0x1_0000
  {
    NextFreeFits(lengths, s);
    BoundaryOrder(lengths, s, MAX_LENGTH);
  }

  lemma NoSymbolsYet(lengths: seq<nat>)
    ensures forall s :: Count(lengths[..0], s) == 0
  {
  }

  lemma LimitsStart(lengths: seq<nat>)
    ensures FirstCode(lengths, 1) == 0 && Below(lengths, 1) == 0 && Boundary(lengths, 0) == 0
  {
  }

  lemma LimitsNext(lengths: seq<nat>, s: nat, next: nat)
    requires 1 <= s <= MAX_LENGTH && next == s + 1
    ensures FirstCode(lengths, next) == Shl(FirstCode(lengths, s) + Count(lengths, s), 1)
    ensures Below(lengths, next) == Below(lengths, s) + Count(lengths, s)
    ensures Boundary(lengths, s) == Shl(FirstCode(lengths, s) + Count(lengths, s), 16 - s)
  {
  }

  lemma SlotIs(lengths: seq<nat>, i: nat)
    requires ValidLengths(lengths) && i < |lengths|
    ensures Code(lengths, i) == FirstCode(lengths, lengths[i]) + Count(lengths[..i], lengths[i])
    ensures Slot(lengths, i) == Below(lengths, lengths[i]) + Count(lengths[..i], lengths[i])
  {
  }

  /** The casts to 16 bits lose nothing. */
  lemma CodeIs16Bit(lengths: seq<nat>, s: nat)
    requires 1 <= s <= MAX_LENGTH && ValidLengths(lengths)
    requires Boundary(lengths, s - 1) <= 0x1_0000
    ensures FirstCode(lengths, s) < 0x1_0000 && Below(lengths, s) < 0x1_0000
  {
    BelowTotal(lengths, s);
    BoundaryStep(lengths, s);
    ShlValues();
    ShlGrows(FirstCode(lengths, s), 16 - s);
  }

  // ---------------------------------------------------------------- the bit stream

  type Byte = b: nat | b < 256

  /** Bit n of what is still to be read: the buffered bits, lowest first, then the bytes, then
      zeros for ever. */
  ghost function StreamBit(bytes: seq<Byte>, pos: nat, numBits: nat, codeBuffer: nat, n: nat): nat {
    if n < numBits then Bit(codeBuffer, n)
    else
      var p := pos + (n - numBits) / 8;
      Bit(if p < |bytes| then bytes[p] else 0, (n - numBits) % 8)
  }

  /** The code word of symbol i, most significant bit first, begins the stream. */
  ghost predicate Starts(lengths: seq<nat>, i: nat, bits: nat -> nat)
    requires i < |lengths|
  {
    && lengths[i] > 0
    && forall b :: 0 <= b < lengths[i] ==> bits(b) == Bit(Code(lengths, i), lengths[i] - 1 - b)
  }

  /** Sixteen buffered bits tell which code word begins the stream. */
  lemma StartsIsMatch(lengths: seq<nat>, i: nat, buffer: nat, bits: nat -> nat)
    requires ValidLengths(lengths) && i < |lengths| && Kraft(lengths) <= 0x1_0000
    requires forall b: nat :: b < 16 ==> bits(b) == Bit(buffer, b)
    ensures Starts(lengths, i, bits) <==> Matches(lengths, i, Reverse(buffer, 16))
  {
    hide Shr, Reverse, Code, Bit, Kraft, Boundary;
    var s := lengths[i];
    if s > 0 {
      BoundaryIsKraft(lengths);
      BoundaryOrder(lengths, s, MAX_LENGTH);
      CodeFits(lengths, i);
      ReverseTop(buffer, 16, s);
      ReverseBound(buffer, s);
      forall b | 0 <= b < s ensures Bit(Reverse(buffer, s), s - 1 - b) == bits(b) {
        ReverseBit(buffer, s, b);
      }
      if Starts(lengths, i, bits) {
        forall b | 0 <= b < s ensures Bit(Reverse(buffer, s), b) == Bit(Code(lengths, i), b) {
          assert bits(s - 1 - b) == Bit(Code(lengths, i), s - 1 - (s - 1 - b));
        }
        SameBits(Reverse(buffer, s), Code(lengths, i), s);
      }
    }
  }

  class Zbuf {
    const zbuffer: seq<Byte>
    var pos: nat
    var numBits: nat
    var codeBuffer: nat

    ghost predicate Valid()
      reads this
    {
      numBits <= 32 && codeBuffer < Shl(1, numBits)
    }

    /** The bits still to be read. */
    ghost function Stream(): nat -> nat
      reads this
    {
      var (bytes, p, n, c) := (zbuffer, pos, numBits, codeBuffer);
      b => StreamBit(bytes, p, n, c, b)
    }

    constructor (zbuffer: seq<Byte>)
      ensures Valid() && this.zbuffer == zbuffer
      ensures forall b: nat :: Stream()(b) == Bit(if b / 8 < |zbuffer| then zbuffer[b / 8] else 0, b % 8)
    {
      this.zbuffer := zbuffer;
      pos, numBits, codeBuffer := 0, 0, 0;
    }

    method Get8() returns (b: Byte)
      modifies this`pos
      ensures b == (if old(pos) < |zbuffer| then zbuffer[old(pos)] else 0)
      ensures pos == old(pos) + 1 || (pos == old(pos) && pos >= |zbuffer|)
    {
      if pos >= |zbuffer| {
        return 0;
      }
      pos := pos + 1;
      return zbuffer[pos - 1];
    }

    /** stbi__fill_bits: at least 25 buffered bits, the stream as before. */
    method FillBits()
      requires Valid() && numBits <= 24
      modifies this`pos, this`numBits, this`codeBuffer
      ensures Valid() && 24 < numBits
      ensures Advanced(old(Stream()), Stream(), 0)
    {
      hide Advanced, StreamBit, Shl;
      ghost var stream := Stream();
      NotAdvanced(stream);
      var more := true;
      while more
        invariant Valid() && (more ==> numBits <= 24) && (!more ==> numBits > 24)
        invariant Advanced(stream, Stream(), 0)
        decreases 32 - numBits, more
      {
        ghost var before := Stream();
        FillByte();
        AdvancedTwice(stream, before, Stream(), 0);
        more := numBits <= 24;
      }
    }

    /** The body of that loop. The buffered bits lie below bit num_bits, so the byte is or-ed in above them. */
    method FillByte()
      requires Valid() && numBits <= 24
      modifies this`pos, this`numBits, this`codeBuffer
      ensures Valid() && numBits == old(numBits) + 8
      ensures Advanced(old(Stream()), Stream(), 0)
    {
      hide StreamBit, Shl, Or;
      var byte := Get8();
      OrIsSum(codeBuffer, byte, numBits);
      Buffered(zbuffer, old(pos), pos, numBits, codeBuffer, byte);
      codeBuffer := Or(codeBuffer, Shl(byte, numBits));
      numBits := numBits + 8;
    }

    method Consume(s: nat)
      requires Valid() && s <= numBits
      modifies this`numBits, this`codeBuffer
      ensures Valid()
      ensures Advanced(old(Stream()), Stream(), s)
    {
      Dropped(zbuffer, pos, numBits, codeBuffer, s, numBits - s);
      codeBuffer := Shr(codeBuffer, s);
      numBits := numBits - s;
    }

    /** stbi__zhuffman_decode: the symbol whose code word begins the stream, read past that word; -1
        when no code word does. The fast table and the search over the limits agree. */
    method Decode(z: ZHuffman, ghost lengths: seq<nat>) returns (r: int)
      requires Valid() && z.Built(lengths)
      modifies this
      ensures Valid()
      ensures r == -1 || 0 <= r < |lengths|
      ensures r == -1 <==> forall i :: 0 <= i < |lengths| ==> !Starts(lengths, i, old(Stream()))
      ensures r == -1 ==> Advanced(old(Stream()), Stream(), 0)
      ensures r >= 0 ==> forall i :: 0 <= i < |lengths| ==> (Starts(lengths, i, old(Stream())) <==> i == r)
      ensures r >= 0 ==> Advanced(old(Stream()), Stream(), lengths[r])
    {
      hide Shl, StreamBit, Starts, Kraft, FastTable, Slot, Advanced;
      ghost var stream := Stream();
      NotAdvanced(stream);
      if numBits < 16 {
        FillBits();
      }
      ghost var filled := Stream();
      SameStarts(lengths, stream, filled);
      r := DecodeBuffered(z, lengths);
      AdvancedTwice(stream, filled, Stream(), if r >= 0 then lengths[r] else 0);
    }

    /** The decoder with at least sixteen bits in the buffer. */
    method DecodeBuffered(z: ZHuffman, ghost lengths: seq<nat>) returns (r: int)
      requires Valid() && z.Built(lengths) && numBits >= 16
      modifies this`numBits, this`codeBuffer
      ensures Valid()
      ensures r == -1 || 0 <= r < |lengths|
      ensures r == -1 <==> forall i :: 0 <= i < |lengths| ==> !Starts(lengths, i, old(Stream()))
      ensures r == -1 ==> Advanced(old(Stream()), Stream(), 0)
      ensures r >= 0 ==> forall i :: 0 <= i < |lengths| ==> (Starts(lengths, i, old(Stream())) <==> i == r)
      ensures r >= 0 ==> Advanced(old(Stream()), Stream(), lengths[r])
    {
      hide Shl, Shr, Low, Reverse, Kraft, Boundary, Matches, FastTable, StreamBit, Starts, Slot, Bit, Count,
        Code, Advanced;
      NotAdvanced(Stream());
      ghost var k := Reverse(codeBuffer, 16);
      BufferedBits(zbuffer, pos, numBits, codeBuffer);
      forall i | 0 <= i < |lengths|
        ensures Starts(lengths, i, old(Stream())) <==> Matches(lengths, i, k)
      {
        StartsIsMatch(lengths, i, codeBuffer, old(Stream()));
      }
      ghost var symbol := FastLookup(lengths, z.fast[..], codeBuffer);
      var b := z.fast[Low(codeBuffer, ZFAST_BITS)];
      if b != 0 {
        OnlyMatch(lengths, symbol, k);
        Consume(b / 512);
        return b % 512;
      }
      r := DecodeSlowpath(z, lengths);
    }

    method DecodeSlowpath(z: ZHuffman, ghost lengths: seq<nat>) returns (r: int)
      requires Valid() && z.Built(lengths) && numBits >= 16
      requires Reverse(codeBuffer, 16) >= Boundary(lengths, ZFAST_BITS)
      modifies this`numBits, this`codeBuffer
      ensures Valid()
      ensures r == -1 || 0 <= r < |lengths|
      ensures r == -1 <==>
        forall i :: 0 <= i < |lengths| ==> !Matches(lengths, i, Reverse(old(codeBuffer), 16))
      ensures r == -1 ==> Advanced(old(Stream()), Stream(), 0)
      ensures r >= 0 ==>
        forall i :: 0 <= i < |lengths| ==> (Matches(lengths, i, Reverse(old(codeBuffer), 16)) <==> i == r)
      ensures r >= 0 ==> Advanced(old(Stream()), Stream(), lengths[r])
    {
      hide Shl, Shr, Low, Reverse, Kraft, Boundary, Matches, FastTable, StreamBit, FirstCode, Below, Rank, Code,
        ValidLengths, Bit, Count, BitReverse, Advanced;
      NotAdvanced(Stream());
      BitReverseIsReverse(codeBuffer, 16);
      ReverseBound(codeBuffer, 16);
      ShlValues();
      var k := BitReverse(codeBuffer, 16);
      var s := ZFAST_BITS + 1;
      while k >= z.maxcode[s]
        invariant ZFAST_BITS < s <= 16
        invariant k >= Boundary(lengths, s - 1)
        decreases 16 - s
      {
        s := s + 1;
      }
      if s == 16 {
        NoMatch(lengths, k);
        return -1;
      }
      ghost var i := MatchExists(lengths, s, k);
      OnlyMatch(lengths, i, k);
      var b := Shr(k, 16 - s) - z.firstcode[s] + z.firstsymbol[s];
      assert b == Slot(lengths, i);
      Consume(s);
      r := z.value[b];
    }
  }

  /** The second stream is what is left of the first after n bits. */
  ghost predicate Advanced(f: nat -> nat, g: nat -> nat, n: nat) {
    forall b: nat :: g(b) == f(n + b)
  }

  lemma NotAdvanced(f: nat -> nat)
    ensures Advanced(f, f, 0)
  {
  }

  lemma AdvancedTwice(f: nat -> nat, g: nat -> nat, h: nat -> nat, n: nat)
    requires Advanced(f, g, 0)
    ensures Advanced(g, h, n) ==> Advanced(f, h, n)
  {
    forall b: nat | Advanced(g, h, n) ensures h(b) == f(n + b) {
      assert g(n + b) == f(0 + (n + b));
    }
  }

  lemma SameStarts(lengths: seq<nat>, f: nat -> nat, g: nat -> nat)
    requires Advanced(f, g, 0)
    ensures forall i :: 0 <= i < |lengths| ==> (Starts(lengths, i, f) <==> Starts(lengths, i, g))
  {
    forall b: nat ensures g(b) == f(b) {
      assert g(b) == f(0 + b);
    }
  }

  lemma BufferedBits(bytes: seq<Byte>, pos: nat, numBits: nat, codeBuffer: nat)
    ensures forall b: nat :: b < numBits ==> StreamBit(bytes, pos, numBits, codeBuffer, b) == Bit(codeBuffer, b)
  {
  }

  lemma OnlyMatch(lengths: seq<nat>, i: nat, k: nat)
    requires ValidLengths(lengths) && i < |lengths| && Matches(lengths, i, k)
    ensures forall j :: 0 <= j < |lengths| ==> (Matches(lengths, j, k) <==> j == i)
  {
    forall j | 0 <= j < |lengths| && Matches(lengths, j, k) ensures j == i {
      MatchUnique(lengths, i, j, k);
    }
  }

  lemma NoMatch(lengths: seq<nat>, k: nat)
    requires ValidLengths(lengths) && k >= Boundary(lengths, MAX_LENGTH)
    ensures forall i :: 0 <= i < |lengths| ==> !Matches(lengths, i, k)
  {
    forall i | 0 <= i < |lengths| ensures !Matches(lengths, i, k) {
      if Matches(lengths, i, k) {
        MatchRange(lengths, i, k);
        BoundaryOrder(lengths, lengths[i], MAX_LENGTH);
      }
    }
  }

  /** A fast table hit is the symbol whose code word begins the buffer; a miss means that no short
      code word does. */
  lemma FastLookup(lengths: seq<nat>, table: seq<nat>, buffer: nat) returns (i: nat)
    requires ValidLengths(lengths) && Kraft(lengths) <= 0x1_0000 && |table| == ZFAST_SIZE
    requires FastTable(lengths, |lengths|, table)
    ensures Low(buffer, ZFAST_BITS) < ZFAST_SIZE
    ensures var b := table[Low(buffer, ZFAST_BITS)];
      if b == 0 then Reverse(buffer, 16) >= Boundary(lengths, ZFAST_BITS)
      else i < |lengths| && Matches(lengths, i, Reverse(buffer, 16)) && b / 512 == lengths[i] && b % 512 == i
  {
    hide Shl, Low, Reverse, Code, Kraft, Boundary, Matches, FastMatch, Shr;
    ShlValues();
    LowBound(buffer, ZFAST_BITS);
    BoundaryIsKraft(lengths);
    var j := Low(buffer, ZFAST_BITS);
    i := 0;
    if table[j] != 0 {
      i :| 0 <= i < |lengths| && FastMatch(lengths, i, j);
      ShortSymbol(lengths, i, j, buffer);
    } else if Reverse(buffer, 16) < Boundary(lengths, ZFAST_BITS) {
      i := ShortMatch(lengths, ZFAST_BITS, Reverse(buffer, 16));
      LongSymbol(lengths, i, j, buffer);
    }
  }

  lemma ShortSymbol(lengths: seq<nat>, i: nat, j: nat, buffer: nat)
    requires ValidLengths(lengths) && i < |lengths| && Boundary(lengths, MAX_LENGTH) <= 0x1_0000
    requires j == Low(buffer, ZFAST_BITS) && FastMatch(lengths, i, j)
    ensures Matches(lengths, i, Reverse(buffer, 16))
  {
    BoundaryOrder(lengths, lengths[i], MAX_LENGTH);
    CodeFits(lengths, i);
    FastMatchIsMatch(lengths, i, buffer);
  }

  lemma LongSymbol(lengths: seq<nat>, i: nat, j: nat, buffer: nat)
    requires ValidLengths(lengths) && i < |lengths| && Boundary(lengths, MAX_LENGTH) <= 0x1_0000
    requires j == Low(buffer, ZFAST_BITS) && 1 <= lengths[i] <= ZFAST_BITS && Matches(lengths, i, Reverse(buffer, 16))
    ensures FastMatch(lengths, i, j)
  {
    BoundaryOrder(lengths, lengths[i], MAX_LENGTH);
    CodeFits(lengths, i);
    FastMatchIsMatch(lengths, i, buffer);
  }

  /** A prefix below a boundary begins with a code word of at most that length. */
  lemma {:induction false} ShortMatch(lengths: seq<nat>, s: nat, k: nat) returns (i: nat)
    requires s <= MAX_LENGTH && k < Boundary(lengths, s)
    ensures i < |lengths| && 1 <= lengths[i] <= s && Matches(lengths, i, k)
  {
    if k < Boundary(lengths, s - 1) {
      i := ShortMatch(lengths, s - 1, k);
    } else {
      i := MatchExists(lengths, s, k);
    }
  }

  /** Dropping the first bits of the buffer drops the first bits of the stream. */
  lemma Dropped(bytes: seq<Byte>, pos: nat, numBits: nat, codeBuffer: nat, s: nat, rest: nat)
    requires s <= numBits && rest == numBits - s && codeBuffer < Shl(1, numBits)
    ensures Shr(codeBuffer, s) < Shl(1, rest)
    ensures forall b: nat ::
      StreamBit(bytes, pos, rest, Shr(codeBuffer, s), b) == StreamBit(bytes, pos, numBits, codeBuffer, s + b)
  {
  }

  /** Moving the next byte of the stream into the buffer changes no bit of the stream. */
  lemma Buffered(bytes: seq<Byte>, pos: nat, pos1: nat, numBits: nat, codeBuffer: nat, byte: Byte)
    requires codeBuffer < Shl(1, numBits)
    requires byte == if pos < |bytes| then bytes[pos] else 0
    requires pos1 == pos + 1 || (pos1 == pos && pos >= |bytes|)
    ensures codeBuffer + Shl(byte, numBits) < Shl(1, numBits + 8)
    ensures forall b: nat ::
      StreamBit(bytes, pos1, numBits + 8, codeBuffer + Shl(byte, numBits), b) == StreamBit(bytes, pos, numBits, codeBuffer, b)
  {
    ShlValues();
    ShlTwice(1, 8, numBits);
    ShlOrder(byte, 256, numBits);
    forall b: nat
      ensures StreamBit(bytes, pos1, numBits + 8, codeBuffer + Shl(byte, numBits), b) == StreamBit(bytes, pos, numBits, codeBuffer, b)
    {
      JoinBit(byte, codeBuffer, numBits, b);
    }
  }
}
