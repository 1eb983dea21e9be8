/** The bytes of a memory word, so that a page can be filled from a file. */
module Words {
  import opened PageTables

  type Byte = b: nat | b < 256

  const WORD_BYTES: nat := 8
  const PAGE_BYTES: nat := 4096

  /** The 64-bit value of a word: flags in bits 0 to 2, the frame number in bits 12 to 51, and the
      remaining bits around it. */
  function Value(e: PageMapEntry): nat {
    (if e.present then 1 else 0) + (if e.writable then 2 else 0) + (if e.user then 4 else 0)
    + 8 * (e.rest % 0x200) + 0x1000 * (e.addr % 0x100_0000_0000) + 0x10_0000_0000_0000 * (e.rest / 0x200)
  }

  function FromValue(v: nat): PageMapEntry {
    PageMapEntry(v % 2 == 1, v / 2 % 2 == 1, v / 4 % 2 == 1,
                 v / 0x1000 % 0x100_0000_0000, v / 8 % 0x200 + 0x200 * (v / 0x10_0000_0000_0000))
  }

  /** Where the processor finds the fields of an entry: the flags in the three lowest bits, the frame number
      from bit 12 on. */
  lemma ValueFields(e: PageMapEntry)
    ensures Value(e) % 2 == (if e.present then 1 else 0)
    ensures Value(e) / 2 % 2 == (if e.writable then 1 else 0)
    ensures Value(e) / 4 % 2 == (if e.user then 1 else 0)
    ensures e.addr < 0x100_0000_0000 ==> Value(e) / 0x1000 % 0x100_0000_0000 == e.addr
  {
    hide Value;
    var p, w, u := if e.present then 1 else 0, if e.writable then 1 else 0, if e.user then 1 else 0;
    var frame, high := e.addr % 0x100_0000_0000, e.rest / 0x200;
    ValueFrame(e, p, w, u);
    LowFlags(e.rest % 0x200 + 0x200 * (Value(e) / 0x1000), p, w, u);
    FrameField(frame, high);
  }

  lemma FrameField(frame: nat, high: nat)
    requires frame < 0x100_0000_0000
    ensures (0x100_0000_0000 * high + frame) % 0x100_0000_0000 == frame
  {
  }

  lemma LowFlags(q: nat, p: nat, w: nat, u: nat)
    requires p < 2 && w < 2 && u < 2
    ensures var v := 8 * q + (p + 2 * w + 4 * u); v % 2 == p && v / 2 % 2 == w && v / 4 % 2 == u
  {
    var low := p + 2 * w + 4 * u;
    Below(4 * q, low, 2);
    Below(2 * q, low, 4);
    Even(4 * q, low);
    Even(2 * q, low / 2);
    Even(q, low / 4);
  }

  lemma ValueFrame(e: PageMapEntry, p: nat, w: nat, u: nat)
    requires p == (if e.present then 1 else 0) && w == (if e.writable then 1 else 0) && u == if e.user then 1 else 0
    ensures Value(e) / 0x1000 == 0x100_0000_0000 * (e.rest / 0x200) + e.addr % 0x100_0000_0000
    ensures Value(e) == 8 * (e.rest % 0x200 + 0x200 * (Value(e) / 0x1000)) + (p + 2 * w + 4 * u)
  {
    Quotient(Value(e), 0x1000, 0x100_0000_0000 * (e.rest / 0x200) + e.addr % 0x100_0000_0000,
             8 * (e.rest % 0x200) + (p + 2 * w + 4 * u));
  }

  lemma ValueRoundTrip(v: nat)
    ensures Value(FromValue(v)) == v
  {
    Split(v);
    RestFields(v / 8 % 0x200, v / 0x10_0000_0000_0000);
    AddressField(v / 0x1000);
    LowBits(v, v % 8);
  }

  /** A word is the sum of its fields. */
  lemma Split(v: nat)
    ensures v == v % 8 + 8 * (v / 8 % 0x200) + 0x1000 * (v / 0x1000 % 0x100_0000_0000)
                 + 0x10_0000_0000_0000 * (v / 0x10_0000_0000_0000)
  {
    var r, h := v / 8, v / 0x1000;
    var top := h / 0x100_0000_0000;
    Quotient(v, 0x1000, r / 0x200, 8 * (r % 0x200) + v % 8);
    Quotient(v, 0x10_0000_0000_0000, top, 0x1000 * (h % 0x100_0000_0000) + 8 * (r % 0x200) + v % 8);
  }

  lemma RestFields(mid: nat, top: nat)
    requires mid < 0x200
    ensures (mid + 0x200 * top) % 0x200 == mid && (mid + 0x200 * top) / 0x200 == top
  {
  }

  lemma AddressField(h: nat)
    ensures h % 0x100_0000_0000 % 0x100_0000_0000 == h % 0x100_0000_0000
  {
  }

  lemma Quotient(v: nat, d: nat, q: nat, r: nat)
    requires d in {0x1000, 0x10_0000_0000_0000} && r < d && v == d * q + r
    ensures v / d == q
  {
  }

  lemma LowBits(v: nat, low: nat)
    requires low == v % 8
    ensures low == v % 2 + 2 * (v / 2 % 2) + 4 * (v / 4 % 2)
  {
    var q := v / 8;
    assert v == 8 * q + low;
    Below(4 * q, low, 2);
    Below(2 * q, low, 4);
    Even(2 * q, low / 2);
    Even(q, low / 4);
    Even(4 * q, low);
    ThreeBits(low);
  }

  lemma Below(q: nat, low: nat, d: nat)
    requires d in {2, 4}
    ensures (d * q + low) / d == q + low / d
  {
  }

  lemma Even(q: nat, x: nat)
    ensures (2 * q + x) % 2 == x % 2
  {
  }

  lemma ThreeBits(low: nat)
    requires low < 8
    ensures low == low % 2 + 2 * (low / 2 % 2) + 4 * (low / 4 % 2)
  {
  }

  function ByteOf(v: nat, j: nat): Byte {
    if j == 0 then v % 256 else ByteOf(v / 256, j - 1)
  }

  /** The lowest byte comes first. */
  lemma {:induction false} ByteUp(v: nat, j: nat)
    ensures ByteOf(v, 0) == v % 256 && ByteOf(v, j + 1) == ByteOf(v / 256, j)
    ensures v < 256 ==> ByteOf(v, j) == if j == 0 then v else 0
  {
    if j > 0 {
      ZeroByte(j - 1);
    }
  }

  function LittleEndian(bytes: seq<Byte>): nat {
    if bytes == [] then 0 else bytes[0] + 256 * LittleEndian(bytes[1..])
  }

  lemma {:induction false} LittleEndianByte(bytes: seq<Byte>, j: nat)
    requires j < |bytes|
    ensures ByteOf(LittleEndian(bytes), j) == bytes[j]
  {
    if j > 0 {
      LittleEndianByte(bytes[1..], j - 1);
    }
  }

  function PageByte(page: Page, i: nat): Byte
    requires i < PAGE_BYTES
  {
    ByteOf(Value(page[i / WORD_BYTES]), i % WORD_BYTES)
  }

  lemma {:induction false} ZeroByte(j: nat)
    ensures ByteOf(0, j) == 0
  {
    if j > 0 {
      ZeroByte(j - 1);
    }
  }

  lemma ZeroPageByte(i: nat)
    requires i < PAGE_BYTES
    ensures PageByte(ZeroPage(), i) == 0
  {
    ZeroByte(i % WORD_BYTES);
  }

  function FileByte(file: seq<Byte>, i: nat): Byte {
    if i < |file| then file[i] else 0
  }

  /** The page that loading 4096 file bytes from the offset leaves in a zeroed frame. */
  function FilePage(file: seq<Byte>, offset: nat): Page {
    seq(ENTRIES, w requires 0 <= w =>
      FromValue(LittleEndian(seq<Byte>(WORD_BYTES, j requires 0 <= j => FileByte(file, offset + w * WORD_BYTES + j)))))
  }

  /** Byte i of a loaded page is byte offset + i of the file, and zero past its end. */
  lemma FilePageByte(file: seq<Byte>, offset: nat, i: nat)
    requires i < PAGE_BYTES
    ensures PageByte(FilePage(file, offset), i) == FileByte(file, offset + i)
  {
    var w, j := i / WORD_BYTES, i % WORD_BYTES;
    var bytes := seq<Byte>(WORD_BYTES, j requires 0 <= j => FileByte(file, offset + w * WORD_BYTES + j));
    ValueRoundTrip(LittleEndian(bytes));
    LittleEndianByte(bytes, j);
    assert FilePage(file, offset)[w] == FromValue(LittleEndian(bytes));
  }

  /** The same for what was loaded from the offset on: up to 4096 bytes, and zeros after them. */
  lemma LoadedPage(file: seq<Byte>, offset: nat, loaded: seq<Byte>, i: nat)
    requires offset <= |file| && |loaded| == (if |file| - offset < PAGE_BYTES then |file| - offset else PAGE_BYTES)
    requires loaded == file[offset..offset + |loaded|] && i < PAGE_BYTES
    ensures PageByte(FilePage(file, offset), i) == if i < |loaded| then loaded[i] else 0
  {
    FilePageByte(file, offset, i);
  }
}
