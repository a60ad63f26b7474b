/** Reading a file along its cluster chain (src/fs/fat/Fat16.c). The lookup of a FAT entry is
    a parameter: what fat16_get_fat_entry returns for a cluster, negative when it fails. */
module Fat {
  import opened Machine
  import opened Stream

  /** The parts of struct fat_private that a read uses. */
  datatype Volume = Volume(sectorsPerCluster: nat, firstDataSector: nat, entry: int -> int)
  {
    predicate Valid() { sectorsPerCluster > 0 }

    function ClusterBytes(): (n: nat)
      ensures Valid() ==> n > 0
    {
      sectorsPerCluster * SECTOR_SIZE
    }

    /** The number of the cluster of a file that holds byte f, and the byte's place in it. */
    function Number(f: nat): nat
      requires Valid()
    {
      f / ClusterBytes()
    }

    function Within(f: nat): nat
      requires Valid()
    {
      f % ClusterBytes()
    }

    /** fat16_cluster_to_sector, in bytes. */
    function ClusterStart(cluster: int): int {
      (firstDataSector + (cluster - 2) * sectorsPerCluster) * SECTOR_SIZE
    }
  }

  /** The FAT entries that stop the walk: both end marks, bad, both reserved marks, free. */
  predicate Stops(entry: int) {
    entry in {0xFF8, 0xFFF, 0xFF7, 0xFF0, 0xFF6, 0}
  }

  /** The cluster n links after start, as fat16_get_cluster_for_offset finds it. */
  function Walk(v: Volume, start: int, n: nat): Option<int> {
    if n == 0 then Some(start)
    else match Walk(v, start, n - 1) {
      case None => None
      case Some(c) => if Stops(v.entry(c)) then None else Some(v.entry(c))
    }
  }

  /** What fat16_get_cluster_for_offset returns for cluster number n of the file. */
  function ClusterOf(v: Volume, start: int, n: nat): int {
    match Walk(v, start, n)
    case None => -EIO
    case Some(c) => c
  }

  lemma {:induction false} WalkStops(v: Volume, start: int, n: nat, k: nat)
    requires k <= n && Walk(v, start, k).None?
    ensures Walk(v, start, n).None?
    decreases n
  {
    if k < n {
      WalkStops(v, start, n - 1, k);
    }
  }

  /** The walk fails exactly if one of the entries it meets is a stopping one. */
  lemma {:induction false} WalkFailsIff(v: Volume, start: int, n: nat)
    ensures Walk(v, start, n).None? <==>
            exists k: nat :: k < n && Walk(v, start, k).Some? && Stops(v.entry(Walk(v, start, k).value))
    decreases n
  {
    if n > 0 {
      WalkFailsIff(v, start, n - 1);
      if k: nat :| k < n && Walk(v, start, k).Some? && Stops(v.entry(Walk(v, start, k).value)) {
        WalkStops(v, start, n, k + 1);
      }
    }
  }

  /** Where a walk goes on: -EIO at a free entry, at the bad-cluster and reserved marks 0xFF7,
      0xFF0 and 0xFF6 and at the end marks 0xFF8 and 0xFFF, to the entry's cluster otherwise. */
  lemma NextOnWalk(v: Volume, start: int, n: nat, last: int)
    requires Walk(v, start, n) == Some(last)
    ensures var e := v.entry(last);
            ClusterOf(v, start, n + 1)
            == if e == 0 || e == 0xFF0 || e == 0xFF6 || e == 0xFF7 || e == 0xFF8 || e == 0xFFF then -1 else e
  {
  }

  /** FAT16's own end-of-chain marks, 0xFFF8 to 0xFFFF, are 16-bit values, and none of them
      stops the walk: past the end of a file the mark itself is taken for a cluster. */
  lemma EndMarksNotRecognised(v: Volume, start: int, n: nat, last: int)
    requires Walk(v, start, n) == Some(last) && 0xFFF8 <= v.entry(last) <= 0xFFFF
    ensures ClusterOf(v, start, n + 1) == v.entry(last)
  {
  }

  /** The byte of the FAT that fat16_get_fat_entry seeks to, in the arithmetic of uint32_t:
      the two positions are multiplied instead of added, and even where the product wraps
      it is never the entry's position, except for entry 0 without reserved sectors. */
  lemma EntryPositionWrong(reservedSectors: bv32, cluster: bv32)
    requires reservedSectors < 0x1_0000 && cluster < 0x1_0000
    ensures reservedSectors * 512 * (cluster * 2) == reservedSectors * 512 + cluster * 2
            <==> reservedSectors == 0 && cluster == 0
  {
  }

  // ------------------------------------------------------------ a read in chunks

  /** The number of chunks, and so of cluster lookups at the head, of a read. */
  function Chunks(v: Volume, total: int): (n: nat)
    requires v.Valid()
    ensures n >= 1
  {
    if total <= v.ClusterBytes() then 1 else (total - 1) / v.ClusterBytes() + 1
  }

  /** The first failure among the m clusters from number k on; 0 if there is none. */
  function Status(v: Volume, start: int, k: nat, m: nat): int
    decreases m
  {
    if m == 0 then 0
    else if ClusterOf(v, start, k) < 0 then ClusterOf(v, start, k)
    else Status(v, start, k + 1, m - 1)
  }

  lemma {:induction false} StatusIff(v: Volume, start: int, k: nat, m: nat)
    ensures Status(v, start, k, m) <= 0
    ensures Status(v, start, k, m) == 0 <==> forall n :: k <= n < k + m ==> ClusterOf(v, start, n) >= 0
    decreases m
  {
    if m > 0 {
      StatusIff(v, start, k + 1, m - 1);
    }
  }

  /** Where byte i of the output of a read at the given file offset comes from: byte
      offset % C of the first cluster, and C bytes from there; then the same place of the
      next cluster, and so on. */
  function SourceOf(v: Volume, start: int, offset: nat, i: nat): int
    requires v.Valid()
  {
    v.ClusterStart(ClusterOf(v, start, v.Number(offset) + v.Number(i))) + v.Within(offset) + v.Within(i)
  }

  /** Where byte f of the file is: byte f % C of cluster number f / C. */
  function PlaceOf(v: Volume, start: int, f: nat): int
    requires v.Valid()
  {
    v.ClusterStart(ClusterOf(v, start, v.Number(f))) + v.Within(f)
  }

  /** The chain is on the disk: no cluster that is read lies before sector 0. */
  ghost predicate OnDisk(v: Volume, start: int) {
    forall n: nat :: ClusterOf(v, start, n) >= 0 ==> v.ClusterStart(ClusterOf(v, start, n)) >= 0
  }

  /** Output byte i is delivered if the lookups of its chunk and all chunks before succeed. */
  predicate Delivered(v: Volume, start: int, offset: nat, i: nat)
    requires v.Valid()
  {
    Status(v, start, v.Number(offset), v.Number(i) + 1) == 0
  }

  /** The output of a read over what was there before. */
  function Output(v: Volume, image: nat -> seq<Byte>, start: int, offset: nat, before: seq<Byte>): (out: seq<Byte>)
    requires v.Valid() && IsImage(image) && OnDisk(v, start)
    ensures |out| == |before|
  {
    seq<Byte>(|before|, i requires 0 <= i < |before| => OutputAt(v, image, start, offset, before, i))
  }

  function OutputAt(v: Volume, image: nat -> seq<Byte>, start: int, offset: nat, before: seq<Byte>, i: nat): Byte
    requires v.Valid() && IsImage(image) && OnDisk(v, start) && i < |before|
  {
    if Delivered(v, start, offset, i) then
      StatusIff(v, start, v.Number(offset), v.Number(i) + 1);
      ByteAt(image, SourceOf(v, start, offset, i))
    else before[i]
  }

  lemma {:induction false} Shift(n: nat, c: nat)
    requires c > 0
    ensures (n + c) / c == n / c + 1 && (n + c) % c == n % c
  {
    var q, r := n / c, n % c;
    DivisionUnique(n + c, c, q + 1, r);
  }

  lemma MultipleAtLeast(d: int, c: int)
    requires c > 0 && d > 0
    ensures d * c >= c
  {
  }

  lemma OneClusterOn(v: Volume, start: int, offset: nat, i: nat)
    requires v.Valid() && i >= v.ClusterBytes()
    ensures var c := v.ClusterBytes();
            && SourceOf(v, start, offset, i) == SourceOf(v, start, offset + c, i - c)
            && (Delivered(v, start, offset, i)
                <==> ClusterOf(v, start, v.Number(offset)) >= 0 && Delivered(v, start, offset + c, i - c))
  {
    hide Walk, ClusterOf, Volume.ClusterStart, Volume.Number, Volume.Within;
    NextCluster(v, offset);
    NextCluster(v, i - v.ClusterBytes());
  }

  lemma NextCluster(v: Volume, f: nat)
    requires v.Valid()
    ensures v.Number(f + v.ClusterBytes()) == v.Number(f) + 1 && v.Within(f + v.ClusterBytes()) == v.Within(f)
  {
    Shift(f, v.ClusterBytes());
  }

  /** The first chunk of the output. */
  lemma FirstChunk(v: Volume, image: nat -> seq<Byte>, start: int, offset: nat, before: seq<Byte>)
    requires v.Valid() && IsImage(image) && OnDisk(v, start) && |before| <= v.ClusterBytes()
    ensures var cluster := ClusterOf(v, start, v.Number(offset));
            Output(v, image, start, offset, before)
            == if cluster < 0 then before else Bytes(image, v.ClusterStart(cluster) + v.Within(offset), |before|)
  {
    var c := v.ClusterBytes();
    var cluster := ClusterOf(v, start, v.Number(offset));
    forall i | 0 <= i < |before|
      ensures OutputAt(v, image, start, offset, before, i)
              == if cluster < 0 then before[i] else ByteAt(image, v.ClusterStart(cluster) + v.Within(offset) + i)
    {
      DivisionUnique(i, c, 0, i);
    }
  }

  /** All further chunks are the output of the read that starts one cluster later. */
  lemma LaterChunks(v: Volume, image: nat -> seq<Byte>, start: int, offset: nat, before: seq<Byte>)
    requires v.Valid() && IsImage(image) && OnDisk(v, start) && |before| >= v.ClusterBytes()
    ensures var c := v.ClusterBytes();
            Output(v, image, start, offset, before)
            == Output(v, image, start, offset, before[..c])
             + if ClusterOf(v, start, v.Number(offset)) < 0 then before[c..]
                  else Output(v, image, start, offset + c, before[c..])
  {
    hide Walk, ClusterOf, SourceOf, Status, Delivered, Volume.ClusterBytes, Volume.Number;
    var c := v.ClusterBytes();
    forall i | c <= i < |before|
      ensures OutputAt(v, image, start, offset, before, i)
              == if ClusterOf(v, start, v.Number(offset)) < 0 then before[i]
                 else OutputAt(v, image, start, offset + c, before[c..], i - c)
    {
      OneClusterOn(v, start, offset, i);
    }
    forall i | 0 <= i < c
      ensures OutputAt(v, image, start, offset, before, i) == OutputAt(v, image, start, offset, before[..c], i) {
    }
  }

  /** One level of the recursion of fat16_read_internal_from_stream. */
  lemma ReadStep(v: Volume, image: nat -> seq<Byte>, start: int, offset: nat, before: seq<Byte>)
    requires v.Valid() && IsImage(image) && OnDisk(v, start)
    ensures var c, cluster := v.ClusterBytes(), ClusterOf(v, start, v.Number(offset));
            Output(v, image, start, offset, before)
            == if cluster < 0 then before
               else if |before| <= c then Bytes(image, v.ClusterStart(cluster) + v.Within(offset), |before|)
               else Bytes(image, v.ClusterStart(cluster) + v.Within(offset), c)
                    + Output(v, image, start, offset + c, before[c..])
  {
    hide Output, Bytes, ClusterOf, Volume.ClusterBytes, Volume.Number, Volume.Within;
    var c := v.ClusterBytes();
    if |before| <= c {
      FirstChunk(v, image, start, offset, before);
    } else {
      FirstChunk(v, image, start, offset, before[..c]);
      LaterChunks(v, image, start, offset, before);
    }
  }

  lemma StatusStep(v: Volume, start: int, offset: nat, total: int)
    requires v.Valid()
    ensures var c, cluster := v.ClusterBytes(), ClusterOf(v, start, v.Number(offset));
            Status(v, start, v.Number(offset), Chunks(v, total))
            == if cluster < 0 then cluster
               else if total <= c then 0
               else Status(v, start, v.Number(offset + c), Chunks(v, total - c))
  {
    hide ClusterOf, Volume.Number;
    var c := v.ClusterBytes();
    NextCluster(v, offset);
    if total > c {
      Shift(total - c - 1, c);
      if total - c <= c {
        DivisionUnique(total - c - 1, c, 0, total - c - 1);
      }
      assert Chunks(v, total) == Chunks(v, total - c) + 1;
    }
  }

  // ------------------------------------------------------------ which reads are right

  /** Output byte i of the read comes from where byte offset + i of the file is. */
  predicate RightByte(v: Volume, start: int, offset: nat, i: nat)
    requires v.Valid()
  {
    ClusterOf(v, start, v.Number(offset + i)) >= 0 && SourceOf(v, start, offset, i) == PlaceOf(v, start, offset + i)
  }

  /** Chunk a, of at most C bytes, fits behind the place where it starts in its cluster. */
  predicate ChunkFits(v: Volume, offset: nat, total: nat, a: nat)
    requires v.Valid()
  {
    var c := v.ClusterBytes();
    v.Within(offset) + (if total - a * c < c then total - a * c else c) <= c
  }

  /** Every chunk fits, or the file goes on in the physically following cluster. */
  ghost predicate Exact(v: Volume, start: int, offset: nat, total: nat)
    requires v.Valid()
  {
    forall a: nat | a * v.ClusterBytes() < total && !ChunkFits(v, offset, total, a) ::
      ClusterOf(v, start, v.Number(offset) + a + 1) == ClusterOf(v, start, v.Number(offset) + a) + 1
  }

  lemma Decompose(v: Volume, f: nat)
    requires v.Valid()
    ensures f == v.Number(f) * v.ClusterBytes() + v.Within(f) && v.Within(f) < v.ClusterBytes()
  {
  }

  lemma NextStartIff(v: Volume, c: int, d: int)
    requires v.Valid()
    ensures v.ClusterStart(d) == v.ClusterStart(c) + v.ClusterBytes() <==> d == c + 1
  {
    var k := v.sectorsPerCluster;
    assert v.ClusterStart(d) - v.ClusterStart(c) == ((d - 2) * k - (c - 2) * k) * SECTOR_SIZE;
    assert (d - 2) * k - (c - 2) * k - k == (d - c - 1) * k;
    NonZeroMultiple(d - c - 1, k);
  }

  /** The cluster and the place in it of byte offset + i. */
  lemma NumberOfSum(v: Volume, offset: nat, i: nat)
    requires v.Valid()
    ensures var c, a, b := v.ClusterBytes(), v.Number(offset) + v.Number(i), v.Within(offset) + v.Within(i);
            && v.Number(offset + i) == (if b < c then a else a + 1)
            && v.Within(offset + i) == (if b < c then b else b - c)
  {
    var c, a, b := v.ClusterBytes(), v.Number(offset) + v.Number(i), v.Within(offset) + v.Within(i);
    Decompose(v, offset);
    Decompose(v, i);
    assert offset + i == a * c + b;
    if b < c {
      DivisionUnique(offset + i, c, a, b);
    } else {
      DivisionUnique(offset + i, c, a + 1, b - c);
    }
  }

  lemma RightByteIff(v: Volume, start: int, offset: nat, i: nat)
    requires v.Valid() && ClusterOf(v, start, v.Number(offset) + v.Number(i)) >= 0
    ensures RightByte(v, start, offset, i) <==>
            || v.Within(offset) + v.Within(i) < v.ClusterBytes()
            || ClusterOf(v, start, v.Number(offset) + v.Number(i) + 1)
               == ClusterOf(v, start, v.Number(offset) + v.Number(i)) + 1
  {
    hide Walk, ClusterOf, Volume.ClusterStart, Volume.ClusterBytes, Volume.Number, Volume.Within;
    var a := v.Number(offset) + v.Number(i);
    NumberOfSum(v, offset, i);
    NextStartIff(v, ClusterOf(v, start, a), ClusterOf(v, start, a + 1));
  }

  /** A successful read delivers every byte from its place in the file if and only if every
      chunk that does not fit behind its start continues in the physically next cluster. */
  lemma ReadRightIff(v: Volume, start: int, offset: nat, total: nat)
    requires v.Valid() && Status(v, start, v.Number(offset), Chunks(v, total)) == 0
    ensures Exact(v, start, offset, total) <==> forall i: nat | i < total :: RightByte(v, start, offset, i)
  {
    hide Walk, ClusterOf, Volume.ClusterStart, Volume.ClusterBytes, Volume.Number, Volume.Within, RightByte;
    var c := v.ClusterBytes();
    forall i: nat | i < total && Exact(v, start, offset, total) ensures RightByte(v, start, offset, i) {
      ByteOfChunk(v, start, offset, total, i);
      RightByteIff(v, start, offset, i);
    }
    forall a: nat | a * c < total && !ChunkFits(v, offset, total, a)
                        && (forall i: nat | i < total :: RightByte(v, start, offset, i))
      ensures ClusterOf(v, start, v.Number(offset) + a + 1) == ClusterOf(v, start, v.Number(offset) + a) + 1
    {
      var i := a * c + (c - v.Within(offset));
      Decompose(v, offset);
      PlaceInChunk(v, a, c - v.Within(offset));
      ByteOfChunk(v, start, offset, total, i);
      RightByteIff(v, start, offset, i);
    }
  }

  lemma PlaceInChunk(v: Volume, a: nat, b: nat)
    requires v.Valid() && b < v.ClusterBytes()
    ensures v.Number(a * v.ClusterBytes() + b) == a && v.Within(a * v.ClusterBytes() + b) == b
  {
    DivisionUnique(a * v.ClusterBytes() + b, v.ClusterBytes(), a, b);
  }

  /** Byte i belongs to chunk Number(i), whose cluster was found. */
  lemma ByteOfChunk(v: Volume, start: int, offset: nat, total: nat, i: nat)
    requires v.Valid() && i < total && Status(v, start, v.Number(offset), Chunks(v, total)) == 0
    ensures v.Number(i) * v.ClusterBytes() < total
    ensures ChunkFits(v, offset, total, v.Number(i)) ==> v.Within(offset) + v.Within(i) < v.ClusterBytes()
    ensures ClusterOf(v, start, v.Number(offset) + v.Number(i)) >= 0
  {
    hide ClusterOf, Volume.ClusterBytes, Volume.Number, Volume.Within;
    Decompose(v, i);
    StatusIff(v, start, v.Number(offset), Chunks(v, total));
    ChunkNumber(v, total, i);
  }

  lemma ChunkNumber(v: Volume, total: nat, i: nat)
    requires v.Valid() && i < total
    ensures v.Number(i) < Chunks(v, total)
  {
    var c := v.ClusterBytes();
    Decompose(v, i);
    if total <= c {
      DivisionUnique(i, c, 0, i);
    } else {
      Decompose(v, total - 1);
      var d := v.Number(i) - v.Number(total - 1);
      NonZeroMultiple(d, c);
      assert d * c == v.Number(i) * c - v.Number(total - 1) * c;
      if d > 0 {
        MultipleAtLeast(d, c);
      }
    }
  }

  /** In particular from a cluster-aligned offset, and within one cluster. */
  lemma AlignedIsExact(v: Volume, start: int, offset: nat, total: nat)
    requires v.Valid() && (v.Within(offset) == 0 || v.Within(offset) + total <= v.ClusterBytes())
    ensures Exact(v, start, offset, total)
  {
  }

  // ------------------------------------------------------------ the file

  function FileBytes(v: Volume, n: nat): nat {
    n * v.ClusterBytes()
  }

  /** The data area with room for n clusters: the sectors from firstDataSector on. */
  function DataArea(v: Volume, image: nat -> seq<Byte>, n: nat): (area: seq<Byte>)
    requires v.Valid() && IsImage(image)
    ensures |area| == n * v.sectorsPerCluster * SECTOR_SIZE
  {
    Flat(image, v.firstDataSector + n * v.sectorsPerCluster)[v.firstDataSector * SECTOR_SIZE..]
  }

  /** Clusters tile the data area from its start on, and the first one has number 2. */
  lemma ClustersTile(v: Volume, image: nat -> seq<Byte>, n: nat, k: nat)
    requires v.Valid() && IsImage(image) && k < n
    ensures v.ClusterStart(2) == v.firstDataSector * SECTOR_SIZE && v.ClusterStart(2 + k) >= 0
    ensures var c := v.sectorsPerCluster * SECTOR_SIZE;
            && 0 <= k * c <= k * c + c <= |DataArea(v, image, n)|
            && Bytes(image, v.ClusterStart(2 + k), c) == DataArea(v, image, n)[k * c..k * c + c]
  {
    var s, first, c := v.sectorsPerCluster, v.firstDataSector, v.sectorsPerCluster * SECTOR_SIZE;
    LastFits(k, n, s);
    assert v.ClusterStart(2 + k) == (first + k * s) * SECTOR_SIZE == first * SECTOR_SIZE + k * c;
    BytesAreFlat(image, first * SECTOR_SIZE + k * c, c, first + n * s);
  }

  lemma LastFits(k: nat, n: nat, s: nat)
    requires k < n
    ensures k * s + s <= n * s
  {
    assert n * s == k * s + s + (n - k - 1) * s;
  }

  /** The bytes of cluster c, as sectors of the disk. */
  function Cluster(v: Volume, image: nat -> seq<Byte>, c: int): (bytes: seq<Byte>)
    requires v.Valid() && IsImage(image) && v.firstDataSector + (c - 2) * v.sectorsPerCluster >= 0
    ensures |bytes| == v.ClusterBytes()
  {
    var s := v.firstDataSector + (c - 2) * v.sectorsPerCluster;
    Flat(image, s + v.sectorsPerCluster)[s * SECTOR_SIZE..]
  }

  lemma ClusterIsRead(v: Volume, image: nat -> seq<Byte>, c: int)
    requires v.Valid() && IsImage(image) && v.ClusterStart(c) >= 0
    ensures v.firstDataSector + (c - 2) * v.sectorsPerCluster >= 0
    ensures Cluster(v, image, c) == Bytes(image, v.ClusterStart(c), v.ClusterBytes())
  {
    var s := v.firstDataSector + (c - 2) * v.sectorsPerCluster;
    BytesAreFlat(image, s * SECTOR_SIZE, v.ClusterBytes(), s + v.sectorsPerCluster);
  }

  /** The first n clusters of the file laid end to end. */
  function Contents(v: Volume, image: nat -> seq<Byte>, start: int, n: nat): (bytes: seq<Byte>)
    requires v.Valid() && IsImage(image) && OnDisk(v, start) && HasClusters(v, start, n)
    ensures |bytes| == FileBytes(v, n)
  {
    if n == 0 then []
    else
      ClusterIsRead(v, image, ClusterOf(v, start, n - 1));
      Contents(v, image, start, n - 1) + Cluster(v, image, ClusterOf(v, start, n - 1))
  }

  ghost predicate HasClusters(v: Volume, start: int, n: nat) {
    forall k: nat | k < n :: ClusterOf(v, start, k) >= 0
  }

  lemma {:induction false} ContentsAt(v: Volume, image: nat -> seq<Byte>, start: int, n: nat, f: nat)
    requires v.Valid() && IsImage(image) && OnDisk(v, start) && HasClusters(v, start, n)
    requires f < FileBytes(v, n)
    ensures v.Number(f) < n && Contents(v, image, start, n)[f] == ByteAt(image, PlaceOf(v, start, f))
    decreases n
  {
    hide ClusterOf, Volume.ClusterStart;
    var c := v.ClusterBytes();
    var last := (n - 1) * c;
    assert n * c == last + c;
    ClusterIsRead(v, image, ClusterOf(v, start, n - 1));
    if n > 1 && f < last {
      ContentsAt(v, image, start, n - 1, f);
    } else {
      PlaceInChunk(v, n - 1, f - last);
    }
  }

  /** A read that meets the condition delivers exactly bytes [offset, offset + total) of the
      clusters of the file laid end to end. */
  lemma ReadIsFileSlice(v: Volume, image: nat -> seq<Byte>, start: int, offset: nat, before: seq<Byte>, n: nat)
    requires v.Valid() && IsImage(image) && OnDisk(v, start) && HasClusters(v, start, n)
    requires offset + |before| <= FileBytes(v, n) && Exact(v, start, offset, |before|)
    requires Status(v, start, v.Number(offset), Chunks(v, |before|)) == 0
    ensures Output(v, image, start, offset, before) == Contents(v, image, start, n)[offset..offset + |before|]
  {
    hide Exact, Status, RightByte, ClusterOf, Volume.ClusterBytes;
    ReadRightIff(v, start, offset, |before|);
    forall i: nat | i < |before|
      ensures OutputAt(v, image, start, offset, before, i) == Contents(v, image, start, n)[offset + i]
    {
      ContentsAt(v, image, start, n, offset + i);
      RightByteDelivered(v, image, start, offset, before, i);
    }
  }

  lemma RightByteDelivered(v: Volume, image: nat -> seq<Byte>, start: int, offset: nat, before: seq<Byte>, i: nat)
    requires v.Valid() && IsImage(image) && OnDisk(v, start) && i < |before|
    requires Status(v, start, v.Number(offset), Chunks(v, |before|)) == 0 && RightByte(v, start, offset, i)
    ensures ClusterOf(v, start, v.Number(offset + i)) >= 0
    ensures OutputAt(v, image, start, offset, before, i) == ByteAt(image, PlaceOf(v, start, offset + i))
  {
    hide ClusterOf, SourceOf, PlaceOf, Volume.ClusterBytes, Volume.ClusterStart;
    StatusIff(v, start, v.Number(offset), Chunks(v, |before|));
    StatusIff(v, start, v.Number(offset), v.Number(i) + 1);
    ChunkNumber(v, |before|, i);
  }

  // ------------------------------------------------------------ fat16_read

  /** What fat16_read returns and leaves in the output, for n items of the given size. */
  function ReadItems(v: Volume, image: nat -> seq<Byte>, start: int, offset: nat, size: nat, n: nat,
      before: seq<Byte>): (r: (int, seq<Byte>))
    requires v.Valid() && IsImage(image) && OnDisk(v, start) && |before| == n * size
    ensures |r.1| == |before| && r.0 <= 0
    decreases n
  {
    if n == 0 then (0, before)
    else
      MoreItems(n, size);
      StatusIff(v, start, v.Number(offset), Chunks(v, size));
      var status := Status(v, start, v.Number(offset), Chunks(v, size));
      var first := Output(v, image, start, offset, before[..size]);
      if status < 0 then (status, first + before[size..])
      else
        var rest := ReadItems(v, image, start, offset + size, size, n - 1, before[size..]);
        (rest.0, first + rest.1)
  }

  lemma MoreItems(n: nat, size: nat)
    requires n > 0
    ensures size <= n * size && n * size - size == (n - 1) * size
  {
  }

  lemma NextItem(v: Volume, image: nat -> seq<Byte>, start: int, offset: nat, size: nat, n: nat, before: seq<Byte>)
    requires v.Valid() && IsImage(image) && OnDisk(v, start) && |before| == n * size && n > 0
    requires size <= n * size && n * size - size == (n - 1) * size
    ensures var status, first := Status(v, start, v.Number(offset), Chunks(v, size)),
                                  Output(v, image, start, offset, before[..size]);
            ReadItems(v, image, start, offset, size, n, before)
            == if status < 0 then (status, first + before[size..])
               else var rest := ReadItems(v, image, start, offset + size, size, n - 1, before[size..]);
                    (rest.0, first + rest.1)
    ensures Status(v, start, v.Number(offset), Chunks(v, size)) <= 0
  {
    hide Output, Status, Chunks;
    StatusIff(v, start, v.Number(offset), Chunks(v, size));
  }

  /** What is left to read from s[at] on, behind what is there, makes the goal. */
  predicate Ahead(v: Volume, image: nat -> seq<Byte>, start: int, offset: nat, size: nat, n: nat,
      goal: (int, seq<Byte>), s: seq<Byte>, at: nat)
    requires v.Valid() && IsImage(image) && OnDisk(v, start) && at <= |s| && |s| - at == n * size
  {
    var rest := ReadItems(v, image, start, offset, size, n, s[at..]);
    goal.0 == rest.0 && goal.1 == s[..at] + rest.1
  }

  lemma AheadAtStart(v: Volume, image: nat -> seq<Byte>, start: int, offset: nat, size: nat, n: nat, s: seq<Byte>)
    requires v.Valid() && IsImage(image) && OnDisk(v, start) && |s| == n * size
    ensures Ahead(v, image, start, offset, size, n, ReadItems(v, image, start, offset, size, n, s), s, 0)
  {
  }

  lemma AheadAtEnd(v: Volume, image: nat -> seq<Byte>, start: int, offset: nat, size: nat,
      goal: (int, seq<Byte>), s: seq<Byte>)
    requires v.Valid() && IsImage(image) && OnDisk(v, start) && Ahead(v, image, start, offset, size, 0, goal, s, |s|)
    ensures goal.0 == 0 && goal.1 == s
  {
  }

  lemma ItemDone(v: Volume, image: nat -> seq<Byte>, start: int, offset: nat, size: nat, n: nat,
      goal: (int, seq<Byte>), s: seq<Byte>, at: nat)
    requires v.Valid() && IsImage(image) && OnDisk(v, start) && at <= |s| && |s| - at == n * size && n > 0
    requires size <= n * size && n * size - size == (n - 1) * size
    requires Ahead(v, image, start, offset, size, n, goal, s, at)
    ensures var status := Status(v, start, v.Number(offset), Chunks(v, size));
            var after := Spliced(s, at, Output(v, image, start, offset, s[at..at + size]));
            && status <= 0
            && if status < 0 then goal.0 == status && goal.1 == after
               else Ahead(v, image, start, offset + size, size, n - 1, goal, after, at + size)
  {
    hide Output, Status, Chunks, ReadItems, Spliced, Volume.ClusterBytes;
    assert s[at..][..size] == s[at..at + size];
    NextItem(v, image, start, offset, size, n, s[at..]);
    SplicedParts(s, at, Output(v, image, start, offset, s[at..at + size]));
  }

  /** All items are read from the right places: every item starts where it may. */
  ghost predicate ExactItems(v: Volume, start: int, offset: nat, size: nat, n: nat)
    requires v.Valid()
    decreases n
  {
    n == 0 || (Exact(v, start, offset, size) && ExactItems(v, start, offset + size, size, n - 1))
  }

  /** fat16_read delivers a slice of the file, from the descriptor's position on. */
  lemma {:induction false} ItemsAreFileSlice(v: Volume, image: nat -> seq<Byte>, start: int, offset: nat, size: nat,
      n: nat, before: seq<Byte>, clusters: nat)
    requires v.Valid() && IsImage(image) && OnDisk(v, start) && HasClusters(v, start, clusters)
    requires |before| == n * size && offset + |before| <= FileBytes(v, clusters)
    requires ExactItems(v, start, offset, size, n)
    requires ReadItems(v, image, start, offset, size, n, before).0 == 0
    ensures ReadItems(v, image, start, offset, size, n, before).1
            == Contents(v, image, start, clusters)[offset..offset + |before|]
    decreases n
  {
    if n > 0 {
      hide Exact, Status, Output, Contents, ClusterOf, FileBytes, Chunks, Volume.ClusterBytes, Volume.Number;
      MoreItems(n, size);
      NextItem(v, image, start, offset, size, n, before);
      ReadIsFileSlice(v, image, start, offset, before[..size], clusters);
      ItemsAreFileSlice(v, image, start, offset + size, size, n - 1, before[size..], clusters);
    }
  }

  /** Items of whole clusters from an aligned position. */
  lemma {:induction false} WholeClusterItems(v: Volume, start: int, offset: nat, size: nat, n: nat)
    requires v.Valid() && v.Within(offset) == 0 && v.Within(size) == 0
    ensures ExactItems(v, start, offset, size, n)
    decreases n
  {
    if n > 0 {
      hide Exact, Volume.ClusterBytes, Volume.Within, Volume.Number;
      AlignedIsExact(v, start, offset, size);
      NumberOfSum(v, offset, size);
      WholeClusterItems(v, start, offset + size, size, n - 1);
    }
  }

  /** What a read returns on a disk that cannot be read: the walk comes first. */
  function Unreadable(v: Volume, start: int, offset: nat): (res: int)
    requires v.Valid()
    ensures res < 0
  {
    if ClusterOf(v, start, v.Number(offset)) < 0 then ClusterOf(v, start, v.Number(offset)) else -EIO
  }

  /** struct fat_file_descriptor: the file's first cluster and the position. */
  class Descriptor {
    const firstCluster: int
    var pos: nat

    constructor (firstCluster: int)
      ensures this.firstCluster == firstCluster && pos == 0
    {
      this.firstCluster, pos := firstCluster, 0;
    }
  }

  class Reader {
    const v: Volume
    const stream: DiskStream

    constructor (v: Volume, stream: DiskStream)
      ensures this.v == v && this.stream == stream
    {
      this.v, this.stream := v, stream;
    }

    ghost predicate Ready(start: int) {
      v.Valid() && IsImage(stream.disk.image) && OnDisk(v, start)
    }

    /** fat16_get_cluster_for_offset */
    method ClusterForOffset(start: int, offset: nat) returns (res: int)
      requires v.Valid()
      ensures res == ClusterOf(v, start, v.Number(offset))
    {
      var cluster := start;
      var ahead := v.Number(offset);
      for i := 0 to ahead
        invariant Walk(v, start, i) == Some(cluster)
      {
        var entry := v.entry(cluster);
        if entry == 0xFF8 || entry == 0xFFF || entry == 0xFF7 || entry == 0xFF0 || entry == 0xFF6 || entry == 0 {
          WalkStops(v, start, ahead, i + 1);
          return -EIO;
        }
        cluster := entry;
      }
      res := cluster;
    }

    /** fat16_read_internal_from_stream */
    method ReadFromStream(start: int, offset: nat, total: int, out: array<Byte>, at: nat) returns (res: int)
      requires Ready(start) && at + Positive(total) <= out.Length
      modifies stream, stream.disk, out
      ensures stream.disk.isReal ==>
                var before := old(out[at..at + Positive(total)]);
                && res == Status(v, start, v.Number(offset), Chunks(v, total))
                && out[..] == Spliced(old(out[..]), at, Output(v, stream.disk.image, start, offset, before))
      ensures !stream.disk.isReal ==> res == Unreadable(v, start, offset) && out[..] == old(out[..])
      decreases Positive(total)
    {
      hide Output, Bytes, ClusterOf, Status, Chunks, SectorsRead, Spliced, Volume.ClusterBytes, Volume.ClusterStart;
      ghost var was, before := out[..], out[at..at + Positive(total)];
      var clusterBytes := v.ClusterBytes();
      StatusStep(v, start, offset, total);
      ReadStep(v, stream.disk.image, start, offset, before);
      var cluster := ClusterForOffset(start, offset);
      if cluster < 0 {
        SplicedBack(was, at, Positive(total));
        return cluster;
      }
      var startingPos := v.ClusterStart(cluster) + offset % clusterBytes;
      var toRead := if total > clusterBytes then clusterBytes else total;
      res := stream.Seek(startingPos);
      ghost var chunk := Bytes(stream.disk.image, startingPos, Positive(toRead));
      res := stream.Read(out, at, toRead);
      if res != 0 {
        return;
      }
      if total - toRead > 0 {
        ghost var rest := Output(v, stream.disk.image, start, offset + toRead, before[toRead..]);
        SplicedAfter(was, at, chunk, total);
        Splice(was, at, chunk, rest);
        res := ReadFromStream(start, offset + toRead, total - toRead, out, at + toRead);
      }
    }

    /** fat16_read. The descriptor's pos is read but not advanced: a second call delivers
        the same bytes again. */
    method Read(desc: Descriptor, size: nat, nmemb: nat, out: array<Byte>) returns (res: int)
      requires Ready(desc.firstCluster) && out.Length == nmemb * size
      modifies stream, stream.disk, out
      ensures desc.pos == old(desc.pos)
      ensures stream.disk.isReal ==>
                var r := ReadItems(v, stream.disk.image, desc.firstCluster, old(desc.pos), size, nmemb, old(out[..]));
                out[..] == r.1 && res == if r.0 < 0 then r.0 else nmemb
      ensures !stream.disk.isReal ==>
                && out[..] == old(out[..])
                && res == if nmemb == 0 then 0 else Unreadable(v, desc.firstCluster, old(desc.pos))
    {
      hide Output, Status, ReadItems, Spliced, Chunks, Ahead, Volume.ClusterBytes;
      var start, pos := desc.firstCluster, desc.pos;
      ghost var image, readable := stream.disk.image, stream.disk.isReal;
      ghost var goal := ReadItems(v, image, start, pos, size, nmemb, out[..]);
      AheadAtStart(v, image, start, pos, size, nmemb, out[..]);
      var offset, at := pos, 0;
      var i := 0;
      while i < nmemb
        invariant 0 <= i <= nmemb && 0 <= at <= out.Length && out.Length - at == (nmemb - i) * size
        invariant offset == pos + at
        invariant stream.disk.isReal ==> Ahead(v, image, start, offset, size, nmemb - i, goal, out[..], at)
        invariant !stream.disk.isReal ==> i == 0 && at == 0 && out[..] == old(out[..])
      {
        MoreItems(nmemb - i, size);
        if readable {
          ItemDone(v, image, start, offset, size, nmemb - i, goal, out[..], at);
        }
        assert Positive(size) == size;
        res := ReadFromStream(start, offset, size, out, at);
        if res < 0 {
          return;
        }
        at := at + size;
        offset := offset + size;
        i := i + 1;
      }
      if readable {
        AheadAtEnd(v, image, start, offset, size, goal, out[..]);
      }
      res := nmemb;
    }
  }
}
