/** Disk sectors and the byte stream over them (src/disk/Disk.c, src/disk/Streamer.c). */
module Stream {
  import opened Machine

  const SECTOR_SIZE := 512

  /** The contents of a disk: 512 bytes for every sector. */
  ghost predicate IsImage(image: nat -> seq<Byte>) {
    forall s: nat :: |image(s)| == SECTOR_SIZE
  }

  // ------------------------------------------------------------ the flat disk

  function ByteAt(image: nat -> seq<Byte>, p: nat): Byte
    requires IsImage(image)
  {
    image(p / SECTOR_SIZE)[p % SECTOR_SIZE]
  }

  /** Disk bytes [p, p + n). */
  function Bytes(image: nat -> seq<Byte>, p: nat, n: nat): (bytes: seq<Byte>)
    requires IsImage(image)
    ensures |bytes| == n
  {
    seq<Byte>(n, i requires 0 <= i < n => ByteAt(image, p + i))
  }

  /** The first n sectors laid end to end. */
  function Flat(image: nat -> seq<Byte>, n: nat): (flat: seq<Byte>)
    requires IsImage(image)
    ensures |flat| == n * SECTOR_SIZE
  {
    if n == 0 then [] else Flat(image, n - 1) + image(n - 1)
  }

  lemma {:induction false} FlatAt(image: nat -> seq<Byte>, n: nat, p: nat)
    requires IsImage(image) && p < n * SECTOR_SIZE
    ensures Flat(image, n)[p] == ByteAt(image, p)
  {
    if p < (n - 1) * SECTOR_SIZE {
      FlatAt(image, n - 1, p);
    } else {
      assert p / SECTOR_SIZE == n - 1;
    }
  }

  /** The bytes a read has to deliver are a slice of the sectors laid end to end. */
  lemma BytesAreFlat(image: nat -> seq<Byte>, p: nat, n: nat, sectors: nat)
    requires IsImage(image) && p + n <= sectors * SECTOR_SIZE
    ensures Bytes(image, p, n) == Flat(image, sectors)[p..p + n]
  {
    forall i | 0 <= i < n ensures Bytes(image, p, n)[i] == Flat(image, sectors)[p..p + n][i] {
      FlatAt(image, sectors, p + i);
    }
  }

  lemma SameSector(p: nat, i: nat)
    requires p % SECTOR_SIZE + i < SECTOR_SIZE
    ensures (p + i) / SECTOR_SIZE == p / SECTOR_SIZE && (p + i) % SECTOR_SIZE == p % SECTOR_SIZE + i
  {
  }

  /** Within one sector the bytes of a read are a slice of that sector. */
  lemma SectorPart(image: nat -> seq<Byte>, p: nat, n: nat)
    requires IsImage(image) && p % SECTOR_SIZE + n <= SECTOR_SIZE
    ensures image(p / SECTOR_SIZE)[p % SECTOR_SIZE..p % SECTOR_SIZE + n] == Bytes(image, p, n)
  {
    var o := p % SECTOR_SIZE;
    forall i | 0 <= i < n ensures image(p / SECTOR_SIZE)[o + i] == Bytes(image, p, n)[i] {
      SameSector(p, i);
    }
  }

  // ------------------------------------------------------------ sectors read

  function Range(first: int, n: nat): (s: seq<int>)
    ensures |s| == n
  {
    seq(n, i => first + i)
  }

  function Positive(n: int): nat {
    if n < 0 then 0 else n
  }

  /** How many sectors a read of total bytes from position p touches. */
  function SectorCount(p: nat, total: int): (n: nat)
    ensures n >= 1
  {
    if total < 0 then 1 else (p + total) / SECTOR_SIZE - p / SECTOR_SIZE + 1
  }

  /** The sectors it reads, in order. */
  function SectorsRead(p: nat, total: int): (s: seq<int>) {
    Range(p / SECTOR_SIZE, SectorCount(p, total))
  }

  /** read(a) then read(b) is read(a + b): the same bytes, the same end position; only the
      sector holding the meeting point is read twice. */
  lemma ReadsJoin(image: nat -> seq<Byte>, p: nat, a: nat, b: nat)
    requires IsImage(image)
    ensures Bytes(image, p, a) + Bytes(image, p + a, b) == Bytes(image, p, a + b)
    ensures SectorsRead(p, a) + SectorsRead(p + a, b)[1..] == SectorsRead(p, a + b)
    ensures SectorsRead(p + a, b)[0] == SectorsRead(p, a)[|SectorsRead(p, a)| - 1]
  {
  }

  /** The sectors read are exactly those holding a byte of [p, p + total], end included:
      a read that ends on a sector boundary fetches the following sector too. */
  lemma SectorsReadExact(p: nat, total: nat, s: nat)
    ensures s in SectorsRead(p, total) <==> exists x :: p <= x <= p + total && x / SECTOR_SIZE == s
  {
    if exists x :: p <= x <= p + total && x / SECTOR_SIZE == s {
      var x :| p <= x <= p + total && x / SECTOR_SIZE == s;
      assert SectorsRead(p, total)[s - p / SECTOR_SIZE] == s;
    }
    if s in SectorsRead(p, total) {
      var x := if s == p / SECTOR_SIZE then p else s * SECTOR_SIZE;
      assert p <= x <= p + total && x / SECTOR_SIZE == s;
    }
  }

  /** One round of the recursion: the sector at the position, then those of the rest. */
  lemma SectorsStep(p: nat, total: int)
    ensures var o := p % SECTOR_SIZE;
            SectorsRead(p, total)
            == [p / SECTOR_SIZE]
               + if o + total >= SECTOR_SIZE then SectorsRead(p + SECTOR_SIZE - o, total - (SECTOR_SIZE - o)) else []
  {
  }

  /** s with x written over it from position at on. */
  function Spliced(s: seq<Byte>, at: nat, x: seq<Byte>): (t: seq<Byte>)
    requires at + |x| <= |s|
    ensures |t| == |s|
  {
    s[..at] + x + s[at + |x|..]
  }

  lemma Splice(s: seq<Byte>, at: nat, x: seq<Byte>, y: seq<Byte>)
    requires at + |x| + |y| <= |s|
    ensures Spliced(Spliced(s, at, x), at + |x|, y) == Spliced(s, at, x + y)
  {
  }

  /** Two consecutive reads written one behind the other are one read. */
  lemma SpliceReads(image: nat -> seq<Byte>, p: nat, a: nat, b: nat, s: seq<Byte>, at: nat)
    requires IsImage(image) && at + a + b <= |s|
    ensures Spliced(Spliced(s, at, Bytes(image, p, a)), at + a, Bytes(image, p + a, b))
            == Spliced(s, at, Bytes(image, p, a + b))
  {
    hide Bytes, Spliced;
    ReadsJoin(image, p, a, b);
    Splice(s, at, Bytes(image, p, a), Bytes(image, p + a, b));
  }

  lemma SplicedBack(s: seq<Byte>, at: nat, n: nat)
    requires at + n <= |s|
    ensures Spliced(s, at, s[at..at + n]) == s
  {
  }

  lemma SplicedAfter(s: seq<Byte>, at: nat, x: seq<Byte>, n: nat)
    requires |x| <= n && at + n <= |s|
    ensures Spliced(s, at, x)[at + |x|..at + n] == s[at..at + n][|x|..]
  {
  }

  lemma SplicedParts(s: seq<Byte>, at: nat, x: seq<Byte>)
    requires at + |x| <= |s|
    ensures Spliced(s, at, x)[..at + |x|] == s[..at] + x
    ensures Spliced(s, at, x)[at + |x|..] == s[at..][|x|..]
    ensures Spliced(s, at, x) == s[..at] + (x + s[at..][|x|..])
  {
  }

  // ------------------------------------------------------------ code

  /** struct Disk. Only the one static disk can be read (disk_read_block). */
  class Disk {
    const image: nat -> seq<Byte>
    const isReal: bool
    ghost var log: seq<int> // the sectors read so far

    constructor (image: nat -> seq<Byte>, isReal: bool)
      ensures this.image == image && this.isReal == isReal && log == []
    {
      this.image, this.isReal, log := image, isReal, [];
    }

    /** disk_read_block with a count of 1. */
    method ReadBlock(lba: nat, buf: array<Byte>) returns (res: int)
      requires IsImage(image) && buf.Length == SECTOR_SIZE
      modifies this, buf
      ensures isReal ==> res == 0 && buf[..] == image(lba) && log == old(log) + [lba]
      ensures !isReal ==> res == -EIO && log == old(log)
    {
      if !isReal {
        return -EIO;
      }
      forall i | 0 <= i < SECTOR_SIZE {
        buf[i] := image(lba)[i];
      }
      log := log + [lba];
      res := 0;
    }
  }

  class DiskStream {
    var position: int
    const disk: Disk

    /** diskstreamer_new, for a disk that disk_get found. */
    constructor (disk: Disk)
      ensures this.disk == disk && position == 0
    {
      this.disk, position := disk, 0;
    }

    /** diskstreamer_seek */
    method Seek(pos: int) returns (res: int)
      modifies this
      ensures position == pos && res == 0
    {
      position := pos;
      res := 0;
    }

    /** diskstreamer_read, writing from out[at] on. */
    method Read(out: array<Byte>, at: nat, total: int) returns (res: int)
      requires IsImage(disk.image) && position >= 0 && at + Positive(total) <= out.Length
      modifies this`position, disk, out
      ensures disk.isReal ==>
                res == 0 && position == old(position) + total
                && out[..] == Spliced(old(out[..]), at, Bytes(disk.image, old(position), Positive(total)))
                && disk.log == old(disk.log) + SectorsRead(old(position), total)
      ensures !disk.isReal ==>
                res == -EIO && position == old(position) && out[..] == old(out[..]) && disk.log == old(disk.log)
      decreases Positive(total)
    {
      hide Bytes, SectorsRead, Spliced, IsImage;
      var sector, offset := position / SECTOR_SIZE, position % SECTOR_SIZE;
      var toRead := total;
      var overflow := offset + toRead >= SECTOR_SIZE;
      var buf := new Byte[SECTOR_SIZE];
      if overflow {
        toRead := toRead - (offset + toRead - SECTOR_SIZE);
      }
      res := disk.ReadBlock(sector, buf);
      if res < 0 {
        return;
      }
      CopyOut(out, at, buf, offset, toRead);
      position := position + toRead;
      SectorPart(disk.image, old(position), Positive(toRead));
      assert buf[offset..offset + Positive(toRead)] == disk.image(sector)[offset..offset + Positive(toRead)];
      SectorsStep(old(position), total);
      if overflow {
        SpliceReads(disk.image, old(position), toRead, total - toRead, old(out[..]), at);
        res := Read(out, at + toRead, total - toRead);
      }
    }

    /** The copying loop of diskstreamer_read. */
    method CopyOut(out: array<Byte>, at: nat, buf: array<Byte>, offset: nat, n: int)
      requires out != buf && at + Positive(n) <= out.Length && offset + Positive(n) <= buf.Length
      modifies out
      ensures out[..] == Spliced(old(out[..]), at, buf[offset..offset + Positive(n)])
    {
      var i := 0;
      while i < n
        invariant 0 <= i <= Positive(n)
        invariant out[..] == Spliced(old(out[..]), at, buf[offset..offset + i])
      {
        out[at + i] := buf[offset + i];
        i := i + 1;
      }
    }
  }
}
