/** Physical memory as bytes: words are little-endian. */
module Bytes {
  import opened Machine
  import opened Paging

  /** Byte k of a little-endian word. */
  function ByteOf(w: Word, k: int): Byte
    requires 0 <= k < 4
  {
    if k == 0 then w % 0x100
    else if k == 1 then w / 0x100 % 0x100
    else if k == 2 then w / 0x100 / 0x100 % 0x100
    else w / 0x100 / 0x100 / 0x100
  }

  function JoinBytes(b0: Byte, b1: Byte, b2: Byte, b3: Byte): Word {
    b0 + 0x100 * (b1 + 0x100 * (b2 + 0x100 * b3))
  }

  function WithByte(w: Word, k: int, b: Byte): Word
    requires 0 <= k < 4
  {
    JoinBytes(if k == 0 then b else ByteOf(w, 0), if k == 1 then b else ByteOf(w, 1),
              if k == 2 then b else ByteOf(w, 2), if k == 3 then b else ByteOf(w, 3))
  }

  lemma JoinExact(b0: Byte, b1: Byte, b2: Byte, b3: Byte)
    ensures var w := JoinBytes(b0, b1, b2, b3);
            ByteOf(w, 0) == b0 && ByteOf(w, 1) == b1 && ByteOf(w, 2) == b2 && ByteOf(w, 3) == b3
  {
  }

  lemma JoinOnto(w: Word)
    ensures JoinBytes(ByteOf(w, 0), ByteOf(w, 1), ByteOf(w, 2), ByteOf(w, 3)) == w
  {
  }

  function GetByte(ram: Ram, a: Word): Byte {
    ByteOf(ram[Pfn(a)][a % PAGE_SIZE / 4], a % 4)
  }

  function PutByte(ram: Ram, a: Word, b: Byte): Ram {
    var f, i := Pfn(a), a % PAGE_SIZE / 4;
    ram[f := ram[f][i := WithByte(ram[f][i], a % 4, b)]]
  }

  lemma WithByteExact(w: Word, k: int, b: Byte, j: int)
    requires 0 <= k < 4 && 0 <= j < 4
    ensures ByteOf(WithByte(w, k, b), j) == if j == k then b else ByteOf(w, j)
  {
    JoinExact(if k == 0 then b else ByteOf(w, 0), if k == 1 then b else ByteOf(w, 1),
              if k == 2 then b else ByteOf(w, 2), if k == 3 then b else ByteOf(w, 3));
  }

  /** Writing a byte changes that byte and no other. */
  lemma PutByteExact(ram: Ram, a: Word, b: Byte, x: Word)
    ensures GetByte(PutByte(ram, a, b), x) == if x == a then b else GetByte(ram, x)
  {
    hide ByteOf, WithByte;
    WithByteExact(ram[Pfn(a)][a % PAGE_SIZE / 4], a % 4, b, x % 4);
    AddressParts(a);
    AddressParts(x);
  }

  lemma AddressParts(a: Word)
    ensures a == Pfn(a) * PAGE_SIZE + a % PAGE_SIZE / 4 * 4 + a % 4
  {
  }

  /** Equal bytes make equal frames. */
  lemma BytesDetermineFrame(a: Ram, b: Ram, f: FrameNo)
    requires forall x: Word :: Pfn(x) == f ==> GetByte(b, x) == GetByte(a, x)
    ensures b[f] == a[f]
  {
    forall i: Slot ensures b[f][i] == a[f][i] {
      forall k | 0 <= k < 4 ensures ByteOf(b[f][i], k) == ByteOf(a[f][i], k) {
        WordAddress(f, i, k);
        assert GetByte(b, FrameAddress(f) + 4 * i + k) == GetByte(a, FrameAddress(f) + 4 * i + k);
      }
      JoinOnto(a[f][i]);
      JoinOnto(b[f][i]);
    }
  }

  lemma WordAddress(f: FrameNo, i: Slot, k: int)
    requires 0 <= k < 4
    ensures var x: Word := FrameAddress(f) + 4 * i + k; Pfn(x) == f && x % PAGE_SIZE / 4 == i && x % 4 == k
  {
  }

  // ------------------------------------------------------------ memset to zero

  /** A little-endian word after its first k bytes were set to zero. */
  function ZeroLow(w: Word, k: int): Word {
    if k <= 0 then w
    else if k == 1 then w - w % 0x100
    else if k == 2 then w - w % 0x1_0000
    else if k == 3 then w - w % 0x100_0000
    else 0
  }

  function ZeroedFrame(f: Frame, bytes: int): Frame {
    seq(PAGES_PER_TABLE, i requires 0 <= i < PAGES_PER_TABLE => ZeroLow(f[i], bytes - 4 * i))
  }

  /** How many bytes at the start of frame g lie in the size bytes from frame f on; the
      range goes round at 4 GB. */
  function BytesInto(f: int, g: int, size: nat): int {
    (if f <= g then f - g else f - g - TOTAL_PAGES) * PAGE_SIZE + size
  }

  /** memset(p, 0, size) where p is the address of frame f. */
  function Zeroed(ram: Ram, f: int, size: nat): Ram {
    var r: seq<Frame> := seq(TOTAL_PAGES, g requires 0 <= g < TOTAL_PAGES =>
      if BytesInto(f, g, size) > 0 then ZeroedFrame(ram[g], BytesInto(f, g, size)) else ram[g]);
    r
  }

  lemma ZeroedExact(ram: Ram, f: FrameNo, size: nat)
    requires size <= PAGE_SIZE
    ensures forall g: FrameNo :: g != f ==> Zeroed(ram, f, size)[g] == ram[g]
    ensures forall i: Slot :: 4 * i + 4 <= size ==> Zeroed(ram, f, size)[f][i] == 0
    ensures forall i: Slot :: size <= 4 * i ==> Zeroed(ram, f, size)[f][i] == ram[f][i]
    ensures size == PAGE_SIZE ==> Zeroed(ram, f, size)[f] == ZERO_FRAME
  {
  }

  lemma ZeroLowByte(w: Word, k: int, j: int)
    requires 0 <= j < 4
    ensures ByteOf(ZeroLow(w, k), j) == if j < k then 0 else ByteOf(w, j)
  {
    var b0, b1, b2, b3 := ByteOf(w, 0), ByteOf(w, 1), ByteOf(w, 2), ByteOf(w, 3);
    JoinOnto(w);
    ZeroLowJoined(b0, b1, b2, b3, k);
    JoinExact(b0, b1, b2, b3);
    JoinExact(if k >= 1 then 0 else b0, if k >= 2 then 0 else b1, if k >= 3 then 0 else b2, if k >= 4 then 0 else b3);
  }

  /** The remainders that ZeroLow takes away. */
  lemma LowBytes(b0: Byte, b1: Byte, b2: Byte, b3: Byte)
    ensures var w := JoinBytes(b0, b1, b2, b3);
            && w % 0x100 == b0 && w % 0x1_0000 == b0 + 0x100 * b1
            && w % 0x100_0000 == b0 + 0x100 * b1 + 0x1_0000 * b2
  {
    RemainderOfByte(b1 + 0x100 * b2 + 0x1_0000 * b3, b0);
    RemainderOfHalf(b2 + 0x100 * b3, b0 + 0x100 * b1);
    RemainderOfThree(b3, b0 + 0x100 * b1 + 0x1_0000 * b2);
  }

  lemma RemainderOfByte(q: nat, r: nat)
    requires r < 0x100
    ensures (q * 0x100 + r) % 0x100 == r
  {
  }

  lemma RemainderOfHalf(q: nat, r: nat)
    requires r < 0x1_0000
    ensures (q * 0x1_0000 + r) % 0x1_0000 == r
  {
  }

  lemma RemainderOfThree(q: nat, r: nat)
    requires r < 0x100_0000
    ensures (q * 0x100_0000 + r) % 0x100_0000 == r
  {
  }

  lemma ZeroLowJoined(b0: Byte, b1: Byte, b2: Byte, b3: Byte, k: int)
    ensures ZeroLow(JoinBytes(b0, b1, b2, b3), k)
         == JoinBytes(if k >= 1 then 0 else b0, if k >= 2 then 0 else b1,
                      if k >= 3 then 0 else b2, if k >= 4 then 0 else b3)
  {
    LowBytes(b0, b1, b2, b3);
  }

  /** Exactly the size bytes from frame f on are zero afterwards, also where the range goes
      round at 4 GB; all other bytes are as before. */
  lemma ZeroedByte(ram: Ram, f: FrameNo, size: nat, x: Word)
    requires size <= TWO32
    ensures GetByte(Zeroed(ram, f, size), x)
         == if (x - FrameAddress(f)) % TWO32 < size then 0 else GetByte(ram, x)
  {
    hide ByteOf, ZeroLow;
    var g, i, k := Pfn(x), x % PAGE_SIZE / 4, x % 4;
    AddressParts(x);
    var gap := if f <= g then g - f else g - f + TOTAL_PAGES;
    assert (x - FrameAddress(f)) % TWO32 == gap * PAGE_SIZE + 4 * i + k;
    assert BytesInto(f, g, size) == size - gap * PAGE_SIZE;
    ZeroLowByte(ram[g][i], BytesInto(f, g, size) - 4 * i, k);
  }

  // -------------------------------------------- a file read into memory

  /** A file as fread delivers it. */
  type File = s: seq<Byte> | |s| < TWO32

  /** Byte k of the word at address a, once the file lies in memory from base on. */
  function CoveredByte(a: int, w: Word, base: Word, file: File, k: int): Byte
    requires 0 <= k < 4
  {
    if base <= a + k < base + |file| then file[a + k - base] else ByteOf(w, k)
  }

  function CoveredWord(a: int, w: Word, base: Word, file: File): Word {
    JoinBytes(CoveredByte(a, w, base, file, 0), CoveredByte(a, w, base, file, 1),
              CoveredByte(a, w, base, file, 2), CoveredByte(a, w, base, file, 3))
  }

  function CoveredFrame(f: Frame, g: FrameNo, base: Word, file: File): Frame {
    seq(PAGES_PER_TABLE, i requires 0 <= i < PAGES_PER_TABLE =>
      CoveredWord(FrameAddress(g) + 4 * i, f[i], base, file))
  }

  /** Memory after the file has been read to base. */
  function Overlay(ram: Ram, base: Word, file: File): Ram {
    var r: seq<Frame> := seq(TOTAL_PAGES, g requires 0 <= g < TOTAL_PAGES => CoveredFrame(ram[g], g, base, file));
    r
  }

  /** The bytes from base on are those of the file, all others as before. */
  lemma OverlayExact(ram: Ram, base: Word, file: File, x: Word)
    ensures GetByte(Overlay(ram, base, file), x)
         == if base <= x < base + |file| then file[x - base] else GetByte(ram, x)
  {
    hide ByteOf, JoinBytes;
    var g, i, k := Pfn(x), x % PAGE_SIZE / 4, x % 4;
    AddressParts(x);
    var a, w := FrameAddress(g) + 4 * i, ram[g][i];
    assert x == a + k;
    JoinExact(CoveredByte(a, w, base, file, 0), CoveredByte(a, w, base, file, 1),
              CoveredByte(a, w, base, file, 2), CoveredByte(a, w, base, file, 3));
    assert Overlay(ram, base, file)[g][i] == CoveredWord(a, w, base, file);
  }

  /** A frame that the file does not reach stays as it was. */
  lemma OverlayOutside(ram: Ram, base: Word, file: File, g: FrameNo)
    requires FrameAddress(g) + PAGE_SIZE <= base || base + |file| <= FrameAddress(g)
    ensures Overlay(ram, base, file)[g] == ram[g]
  {
    hide Overlay, GetByte;
    forall x: Word | Pfn(x) == g ensures GetByte(Overlay(ram, base, file), x) == GetByte(ram, x) {
      OverlayExact(ram, base, file, x);
    }
    BytesDetermineFrame(ram, Overlay(ram, base, file), g);
  }
}
