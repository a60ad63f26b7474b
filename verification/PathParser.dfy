/** Path parsing into heap-allocated lists (src/fs/PathParser.c). */
module PathParser {
  import opened Machine
  import opened CStrings
  import opened Heap
  import Directory
  import Kernel

  const MAX_PATH := 108 // PEACHOS_MAX_PATH

  // ------------------------------------------------------------ paths as text

  /** The length of the text before the first slash. */
  function Segment(s: string): (n: nat)
    ensures n <= |s| && '/' !in s[..n] && (n < |s| ==> s[n] == '/')
  {
    if s == [] || s[0] == '/' then 0 else 1 + Segment(s[1..])
  }

  /** What pathparser_get_path_part leaves for the next call. */
  function Rest(s: string): (t: string)
    ensures s != [] ==> |t| < |s|
  {
    var n := Segment(s);
    if n < |s| then s[n + 1..] else s[n..]
  }

  /** The parts found in s: the calls stop at the first empty one. */
  function Parts(s: string): (parts: seq<string>)
    ensures forall i :: 0 <= i < |parts| ==> parts[i] != []
    decreases |s|
  {
    var n := Segment(s);
    if n == 0 then [] else [s[..n]] + Parts(Rest(s))
  }

  datatype Path = Path(drive: int, parts: seq<string>)

  /** pathparser_path_valid_format on a string without NUL. */
  predicate ValidFormat(s: string) {
    |s| >= 3 && '0' <= s[0] <= '9' && s[1] == ':' && s[2] == '/'
  }

  /** pathparser_parse, as a function of the text. */
  function ParseText(s: string): Option<Path> {
    if |s| > MAX_PATH || !ValidFormat(s) then None
    else Some(Path(s[0] as int - '0' as int, Parts(s[3..])))
  }

  // ------------------------------------------------------------ printing and splitting

  function Join(parts: seq<string>): string {
    if parts == [] then []
    else if |parts| == 1 then parts[0]
    else parts[0] + "/" + Join(parts[1..])
  }

  function PrintPath(p: Path): string
    requires 0 <= p.drive <= 9
  {
    [p.drive as char + '0'] + ":/" + Join(p.parts)
  }

  /** All fields between slashes, the empty ones included. */
  function Split(s: string): (fields: seq<string>)
    ensures fields != []
    decreases |s|
  {
    var n := Segment(s);
    if n == |s| then [s] else [s[..n]] + Split(s[n + 1..])
  }

  function BeforeEmpty(fields: seq<string>): seq<string> {
    if fields == [] || fields[0] == [] then [] else [fields[0]] + BeforeEmpty(fields[1..])
  }

  lemma BeforeEmptyStep(field: string, fields: seq<string>)
    ensures BeforeEmpty([field] + fields) == if field == [] then [] else [field] + BeforeEmpty(fields)
  {
  }

  /** The parts are the fields between slashes up to the first empty one. */
  lemma {:induction false} PartsAreFields(s: string)
    ensures Parts(s) == BeforeEmpty(Split(s))
    decreases |s|
  {
    hide Segment;
    var n := Segment(s);
    if n < |s| {
      PartsAreFields(s[n + 1..]);
      BeforeEmptyStep(s[..n], Split(s[n + 1..]));
    } else {
      assert s[..n] == s && s[n..] == [] && [s] == [s] + [];
      BeforeEmptyStep(s, []);
      assert Parts([]) == [];
    }
  }

  /** Accepted are exactly the texts of a digit, ":/" and up to 105 more characters, whatever
      those are; the parts are then the fields up to the first empty one. */
  lemma AcceptedIff(s: string)
    ensures ParseText(s).Some? <==> |s| <= 108 && exists d: char, t: string :: '0' <= d <= '9' && s == [d] + ":/" + t
    ensures forall d: char, t: string | '0' <= d <= '9' && |t| <= 105 ::
              ParseText([d] + ":/" + t) == Some(Path(d as int - '0' as int, BeforeEmpty(Split(t))))
  {
    hide Split, BeforeEmpty, Parts;
    if ParseText(s).Some? {
      assert s == [s[0]] + ":/" + s[3..];
    }
    forall d: char, t: string | '0' <= d <= '9' && |t| <= 105
      ensures ParseText([d] + ":/" + t) == Some(Path(d as int - '0' as int, BeforeEmpty(Split(t)))) {
      assert ([d] + ":/" + t)[3..] == t;
      PartsAreFields(t);
    }
  }

  lemma JoinStep(part: string, parts: seq<string>)
    ensures Join([part] + parts) == if parts == [] then part else part + "/" + Join(parts)
  {
    assert ([part] + parts)[1..] == parts;
  }

  lemma {:induction false} JoinOfSplit(s: string)
    ensures Join(Split(s)) == s
    decreases |s|
  {
    hide Segment, Join;
    var n := Segment(s);
    if n < |s| {
      JoinOfSplit(s[n + 1..]);
      JoinStep(s[..n], Split(s[n + 1..]));
      assert s == s[..n] + "/" + s[n + 1..];
    } else {
      JoinStep(s, []);
      assert [s] + [] == [s];
    }
  }

  predicate Plain(part: string) {
    part != [] && '/' !in part && '\0' !in part
  }

  lemma {:induction false} SegmentOf(part: string, rest: string)
    requires '/' !in part && (rest == [] || rest[0] == '/')
    ensures Segment(part + rest) == |part|
    decreases |part|
  {
    if part == [] {
      assert part + rest == rest;
    } else {
      assert (part + rest)[1..] == part[1..] + rest;
      SegmentOf(part[1..], rest);
    }
  }

  lemma PartsOfNothing()
    ensures Parts([]) == []
  {
  }

  lemma PartsOfFirst(part: string, rest: string)
    requires Plain(part) && (rest == [] || rest[0] == '/')
    ensures Parts(part + rest) == [part] + Parts(if rest == [] then [] else rest[1..])
  {
    hide Segment;
    SegmentOf(part, rest);
    var s := part + rest;
    assert s[..|part|] == part;
    assert Rest(s) == if rest == [] then [] else rest[1..];
  }

  lemma {:induction false} PartsOfJoin(parts: seq<string>)
    requires forall i :: 0 <= i < |parts| ==> Plain(parts[i])
    ensures Parts(Join(parts)) == parts
    decreases |parts|
  {
    hide Segment, Parts;
    if parts != [] {
      PartsOfJoin(parts[1..]);
      var rest := if |parts| == 1 then [] else "/" + Join(parts[1..]);
      assert Join(parts) == parts[0] + rest;
      PartsOfFirst(parts[0], rest);
      assert (if rest == [] then [] else rest[1..]) == Join(parts[1..]);
      assert parts == [parts[0]] + parts[1..];
    } else {
      PartsOfNothing();
    }
  }

  /** Parsing what was printed gives back the path. */
  lemma ParsePrinted(p: Path)
    requires 0 <= p.drive <= 9 && forall i :: 0 <= i < |p.parts| ==> Plain(p.parts[i])
    requires |PrintPath(p)| <= MAX_PATH
    ensures ParseText(PrintPath(p)) == Some(p)
  {
    PartsOfJoin(p.parts);
    var s := PrintPath(p);
    assert s[3..] == Join(p.parts);
  }

  /** Printing what was parsed gives back the text, if and only if no field is empty or
      nothing at all follows the drive. */
  lemma PrintParsedIff(s: string)
    requires ParseText(s).Some?
    ensures PrintPath(ParseText(s).value) == s <==> |s| == 3 || [] !in Split(s[3..])
  {
    var t := s[3..];
    PartsAreFields(t);
    JoinOfSplit(t);
    if [] !in Split(t) {
      NothingCut(Split(t));
    } else if |s| > 3 {
      JoinShorter(Split(t));
    }
    assert s == [s[0]] + ":/" + t;
  }

  lemma {:induction false} NothingCut(fields: seq<string>)
    requires [] !in fields
    ensures BeforeEmpty(fields) == fields
    decreases |fields|
  {
    if fields != [] {
      assert fields[0] in fields;
      NothingCut(fields[1..]);
    }
  }

  lemma {:induction false} JoinShorter(fields: seq<string>)
    requires [] in fields && fields != [[]]
    ensures |Join(BeforeEmpty(fields))| < |Join(fields)|
    decreases |fields|
  {
    if fields[0] != [] {
      assert [] in fields[1..];
      if fields[1..] != [[]] {
        JoinShorter(fields[1..]);
      }
      assert BeforeEmpty(fields)[1..] == BeforeEmpty(fields[1..]);
    }
  }

  // ------------------------------------------------------------ the heap blocks of a path

  /** One more block, s, of a well-formed heap is in use. */
  ghost predicate Taken(m: Map, r: Map, s: int) {
    && KernelMap(r) && |r| == |m| && 0 <= s < |m|
    && |Directory.FreeSet(r)| == |Directory.FreeSet(m)| - 1
    && s !in Live(m) && Live(r) == Live(m)[s := 1]
  }

  lemma BlockTaken(m: Map, size: Word)
    requires KernelMap(m) && 1 <= size <= PAGE_SIZE && |Directory.FreeSet(m)| >= 1
    ensures var (r, ptr) := AfterMalloc(m, size);
            && 0 < ptr < TWO32 && AddressBlock(ptr) >= 0
            && Taken(m, r, AddressBlock(ptr)) && MarkFree(r, AddressBlock(ptr)) == m
  {
    hide StartBlock, WellFormed, Live, MarkTaken, MarkFree;
    assert Fits(m, 1) by {
      var j :| j in Directory.FreeSet(m);
      assert RunAt(m, j, 1);
    }
    assert Blocks(size) == 1;
    MallocOutcome(m, size);
    var s := StartBlock(m, 1);
    Directory.FreeSetAfterTake(m, s);
    TakeThenFreeRestores(m, s, 1);
    AddressBlockInverse(s, 0);
  }

  /** m is m0 with exactly the given blocks in use besides. */
  ghost predicate Grown(m0: Map, m: Map, blocks: seq<int>) {
    && KernelMap(m) && |m| == |m0| && Directory.Distinct(blocks)
    && |Directory.FreeSet(m)| == |Directory.FreeSet(m0)| - |blocks|
    && Live(m) == Live(m0) + Directory.Ones(blocks)
    && forall b | b in blocks :: 0 <= b < |m0| && b !in Live(m0)
  }

  /** A block taken next may be listed anywhere, here before the last one. */
  lemma GrownByOne(m0: Map, m: Map, r: Map, left: seq<int>, right: seq<int>, s: int)
    requires Grown(m0, m, left + right) && Taken(m, r, s)
    ensures Grown(m0, r, left + [s] + right)
  {
    hide Live, WellFormed, Directory.FreeSet;
    var was, now := left + right, left + [s] + right;
    forall b ensures b in now <==> b == s || b in was {
      InMiddle(left, s, right, b);
    }
    assert forall b | b in was :: b in Directory.Ones(was) && b in Live(m);
    MiddleDistinct(left, s, right);
    assert Directory.Ones(now) == Directory.Ones(was)[s := 1];
    assert Live(m0) + Directory.Ones(now) == (Live(m0) + Directory.Ones(was))[s := 1];
  }

  lemma InMiddle(left: seq<int>, s: int, right: seq<int>, b: int)
    ensures b in left + [s] + right <==> b == s || b in left + right
  {
  }

  lemma MiddleDistinct(left: seq<int>, s: int, right: seq<int>)
    requires Directory.Distinct(left + right) && s !in left + right
    ensures Directory.Distinct(left + [s] + right)
  {
    var was, now := left + right, left + [s] + right;
    forall i, j | 0 <= i < j < |now| ensures now[i] != now[j] {
      var i', j' := if i < |left| then i else i - 1, if j < |left| then j else j - 1;
      if i != |left| {
        assert was[i'] == now[i];
      }
      if j != |left| {
        assert was[j'] == now[j];
      }
    }
  }

  /** Freeing the blocks in any order brings back the map from before. */
  lemma FreeingRestores(m0: Map, m: Map, blocks: seq<int>)
    requires KernelMap(m0) && Grown(m0, m, blocks)
    ensures Directory.FreeBlocks(m, blocks) == m0
  {
    hide Live, WellFormed, Directory.FreeBlocks, Directory.FreeSet;
    Directory.FreeBlocksExact(m, blocks);
    assert Live(m) - (set b | b in blocks) == Live(m0);
    ChainsDetermineMap(Directory.FreeBlocks(m, blocks), m0);
  }

  lemma SegmentStart(s: string, i: nat)
    requires i <= Segment(s)
    ensures i <= |s|
    ensures i < Segment(s) <==> i < |s| && s[i] != '/'
  {
  }

  // ------------------------------------------------------------ code

  /** struct PathPart and the buffer it points to, with the addresses of both. */
  class PathPart {
    const address: Word
    const partAddress: Word
    const part: array<char>
    var next: PathPart?

    constructor (address: Word, partAddress: Word, part: array<char>)
      ensures this.address == address && this.partAddress == partAddress && this.part == part && next == null
    {
      this.address, this.partAddress, this.part, next := address, partAddress, part, null;
    }
  }

  class PathRoot {
    const address: Word
    const driveNo: int
    var first: PathPart?

    constructor (address: Word, driveNo: int)
      ensures this.address == address && this.driveNo == driveNo && first == null
    {
      this.address, this.driveNo, first := address, driveNo, null;
    }
  }

  /** parts are distinct and linked in this order. */
  ghost predicate Linked(parts: seq<PathPart>)
    reads parts
  {
    && (forall i :: 0 <= i < |parts| ==> parts[i].next == if i + 1 < |parts| then parts[i + 1] else null)
    && forall i, j :: 0 <= i < j < |parts| ==> parts[i] != parts[j]
  }

  /** The parts hold the first texts of the list. */
  ghost predicate Texts(parts: seq<PathPart>, texts: seq<string>)
    reads set i | 0 <= i < |parts| :: parts[i].part
  {
    |parts| <= |texts| && forall i :: 0 <= i < |parts| ==> Text(parts[i].part[..], 0) == texts[i]
  }

  /** The blocks of the parts in the order in which pathparser_free gives them back. */
  function BlocksOf(parts: seq<PathPart>): (blocks: seq<int>)
    ensures |blocks| == 2 * |parts|
  {
    if parts == [] then []
    else BlocksOf(parts[..|parts| - 1])
         + [AddressBlock(parts[|parts| - 1].partAddress), AddressBlock(parts[|parts| - 1].address)]
  }

  lemma GrownByPart(m0: Map, m: Map, m1: Map, m2: Map, parts: seq<PathPart>, part: PathPart, r: int)
    requires Grown(m0, m, BlocksOf(parts) + [r])
    requires Taken(m, m1, AddressBlock(part.partAddress)) && Taken(m1, m2, AddressBlock(part.address))
    ensures Grown(m0, m2, BlocksOf(parts + [part]) + [r])
  {
    hide Grown, Taken, AddressBlock;
    var s1, s2 := AddressBlock(part.partAddress), AddressBlock(part.address);
    GrownByOne(m0, m, m1, BlocksOf(parts), [r], s1);
    GrownByOne(m0, m1, m2, BlocksOf(parts) + [s1], [r], s2);
    assert (parts + [part])[..|parts|] == parts;
    assert BlocksOf(parts + [part]) == BlocksOf(parts) + [s1] + [s2];
  }

  lemma RootTaken(m0: Map, m: Map, r: int)
    requires KernelMap(m0) && Taken(m0, m, r)
    ensures Grown(m0, m, BlocksOf([]) + [r])
  {
  }

  lemma NoTexts(texts: seq<string>)
    ensures Texts([], texts) && Linked([])
  {
  }

  lemma MoreTexts(parts: seq<PathPart>, part: PathPart, texts: seq<string>)
    requires Texts(parts, texts) && |parts| < |texts| && Text(part.part[..], 0) == texts[|parts|]
    ensures Texts(parts + [part], texts)
  {
  }

  /** The first n texts have been read, and what follows position at holds the others. */
  ghost predicate Pending(b: seq<char>, at: nat, texts: seq<string>, n: nat, done: bool) {
    && n <= |texts|
    && if done then n == |texts|
       else at <= |b| && Terminated(b, at) && |Text(b, at)| < MAX_PATH && texts[n..] == Parts(Text(b, at))
  }

  /** One call of pathparser_parse_path_part, on the text. */
  lemma PartsStep(b: seq<char>, at: nat)
    requires at <= |b| && Terminated(b, at)
    ensures var s := Text(b, at);
            var next := at + |s| - |Rest(s)|;
            && |Rest(s)| <= |s| && Terminated(b, next) && Text(b, next) == Rest(s)
            && Parts(s) == if Segment(s) == 0 then [] else [s[..Segment(s)]] + Parts(Rest(s))
  {
    hide Text, Terminated;
    var s := Text(b, at);
    TextSuffix(b, at, |s| - |Rest(s)|);
  }

  /** How far pathparser_parse has come: the parts it has, the text behind at, and the heap. */
  ghost predicate Reading(b: seq<char>, at: nat, m0: Map, m: Map, r: int,
      parts: seq<PathPart>, texts: seq<string>, done: bool)
    reads parts, set i | 0 <= i < |parts| :: parts[i].part
  {
    && Pending(b, at, texts, |parts|, done) && Texts(parts, texts) && Linked(parts)
    && KernelMap(m0) && |Directory.FreeSet(m0)| >= 2 * |texts| + 2 && Grown(m0, m, BlocksOf(parts) + [r])
  }

  lemma ReadingMeans(b: seq<char>, at: nat, m0: Map, m: Map, r: int, parts: seq<PathPart>, texts: seq<string>)
    requires Reading(b, at, m0, m, r, parts, texts, false)
    ensures at <= |b| && Terminated(b, at) && |Text(b, at)| < MAX_PATH && KernelMap(m)
    ensures |Directory.FreeSet(m)| >= if Segment(Text(b, at)) == 0 then 1 else 2
    ensures var s := Text(b, at);
            if Segment(s) == 0 then Pending(b, at + |s| - |Rest(s)|, texts, |parts|, true)
            else
              && |parts| < |texts| && texts[|parts|] == s[..Segment(s)] && |Rest(s)| <= |s|
              && Pending(b, at + |s| - |Rest(s)|, texts, |parts| + 1, false)
  {
    hide Text, Terminated, Segment, Rest, KernelMap, Directory.FreeSet, Parts, Texts, Linked, BlocksOf;
    PartsStep(b, at);
    assert |parts| < |texts| ==> texts[|parts| + 1..] == texts[|parts|..][1..];
  }

  lemma StartReading(b: seq<char>, m0: Map, m: Map, r: int)
    requires Terminated(b, 0) && 3 <= |Text(b, 0)| <= MAX_PATH
    requires KernelMap(m0) && |Directory.FreeSet(m0)| >= 2 * |Parts(Text(b, 0)[3..])| + 2 && Taken(m0, m, r)
    ensures Reading(b, 3, m0, m, r, [], Parts(Text(b, 0)[3..]), false)
  {
    hide Text, Segment, Rest, KernelMap, Directory.FreeSet, Parts, Grown, Taken;
    TextSuffix(b, 0, 3);
    RootTaken(m0, m, r);
    NoTexts(Parts(Text(b, 0)[3..]));
  }

  lemma ReadingDone(b: seq<char>, m0: Map, m: Map, r: int, parts: seq<PathPart>, texts: seq<string>)
    requires exists at: nat :: Reading(b, at, m0, m, r, parts, texts, true)
    ensures |parts| == |texts| && Texts(parts, texts) && Linked(parts) && Grown(m0, m, BlocksOf(parts) + [r])
  {
  }

  lemma NextOf(parts: seq<PathPart>, i: nat)
    requires Linked(parts) && i < |parts|
    ensures parts[i].next == if i + 1 < |parts| then parts[i + 1] else null
  {
  }

  lemma NoBlocks(m: Map)
    ensures Directory.FreeBlocks(m, BlocksOf([])) == m
  {
  }

  lemma {:induction false} BlocksOfPart(parts: seq<PathPart>, i: nat)
    requires i < |parts|
    ensures BlocksOf(parts[..i + 1])
            == BlocksOf(parts[..i]) + [AddressBlock(parts[i].partAddress)] + [AddressBlock(parts[i].address)]
    ensures AddressBlock(parts[i].partAddress) in BlocksOf(parts) && AddressBlock(parts[i].address) in BlocksOf(parts)
    decreases |parts|
  {
    hide AddressBlock;
    var front := parts[..|parts| - 1];
    assert parts[..i + 1][..i] == parts[..i];
    if i < |front| {
      BlocksOfPart(front, i);
    }
  }

  class Parser {
    const heap: KernelHeap

    constructor (heap: KernelHeap)
      ensures this.heap == heap
    {
      this.heap := heap;
    }

    ghost predicate Apart(parts: seq<PathPart>) {
      forall i :: 0 <= i < |parts| ==> parts[i].part as object != heap.entries
    }

    ghost predicate Room(blocks: nat)
      reads heap.entries
    {
      KernelMap(heap.entries[..]) && |Directory.FreeSet(heap.entries[..])| >= blocks
    }

    /** kernel_zeroed_alloc of a structure or a part buffer. */
    method ZeroedBlock(size: Word) returns (ptr: Word)
      requires Room(1) && 1 <= size <= PAGE_SIZE
      modifies heap.entries
      ensures ptr > 0 && Taken(old(heap.entries[..]), heap.entries[..], AddressBlock(ptr))
      ensures AddressBlock(ptr) >= 0 && MarkFree(heap.entries[..], AddressBlock(ptr)) == old(heap.entries[..])
    {
      hide AfterMalloc, MarkFree, Taken, Serveable;
      BlockTaken(heap.entries[..], size);
      Kernel.SmallRequestServeable(heap.entries[..], size);
      ptr := heap.Malloc(size);
    }

    /** pathparser_get_path_part; the buffer of an empty part is given back at once. */
    method GetPathPart(path: array<char>, at: nat) returns (part: array?<char>, address: Word, next: nat)
      requires Room(1) && path as object != heap.entries
      requires Terminated(path[..], at) && |Text(path[..], at)| < MAX_PATH
      modifies heap.entries
      ensures next == at + |Text(path[..], at)| - |Rest(Text(path[..], at))|
      ensures Segment(Text(path[..], at)) == 0 ==> part == null && heap.entries[..] == old(heap.entries[..])
      ensures Segment(Text(path[..], at)) > 0 ==>
                && part != null && fresh(part) && Text(part[..], 0) == Text(path[..], at)[..Segment(Text(path[..], at))]
                && Taken(old(heap.entries[..]), heap.entries[..], AddressBlock(address))
    {
      hide Text, Segment, Taken, MarkFree, KernelMap, Terminated;
      ghost var b, s := path[..], Text(path[..], at);
      address := ZeroedBlock(MAX_PATH);
      ghost var m := heap.entries[..];
      var buffer := new char[MAX_PATH](_ => '\0');
      var i := 0;
      next := at;
      AtEnd(b, at, 0);
      SegmentStart(s, 0);
      while path[next] != '/' && path[next] != '\0'
        invariant next == at + i && i <= Segment(s) && path[..] == b && heap.entries[..] == m
        invariant buffer[..i] == s[..i] && forall k :: i <= k < MAX_PATH ==> buffer[k] == '\0'
        invariant next < path.Length && (path[next] == '\0' <==> i == |s|) && (i < |s| ==> path[next] == s[i])
        decreases |s| - i
      {
        SegmentStart(s, i);
        buffer[i] := path[next];
        next := next + 1;
        i := i + 1;
        AtEnd(b, at, i);
      }
      SegmentStart(s, i);
      if path[next] == '/' {
        next := next + 1;
      }
      part := buffer;
      if i == 0 {
        heap.Free(address);
        part := null;
      } else {
        TextIs(buffer[..], 0, s[..i]);
      }
    }

    /** pathparser_parse_path_part; r is the block of the root. */
    method ParsePathPart(last: PathPart?, path: array<char>, at: nat,
        ghost m0: Map, ghost r: int, ghost parts: seq<PathPart>)
      returns (part: PathPart?, next: nat)
      requires path as object != heap.entries && Terminated(path[..], at) && |Text(path[..], at)| < MAX_PATH
      requires Room(if Segment(Text(path[..], at)) == 0 then 1 else 2)
      requires Grown(m0, heap.entries[..], BlocksOf(parts) + [r])
      requires Linked(parts) && last == if parts == [] then null else parts[|parts| - 1]
      modifies heap.entries, if last == null then {} else {last}
      ensures next == at + |Text(path[..], at)| - |Rest(Text(path[..], at))|
      ensures Segment(Text(path[..], at)) == 0 ==>
                part == null && heap.entries[..] == old(heap.entries[..]) && Linked(parts)
      ensures Segment(Text(path[..], at)) > 0 ==>
                && part != null && fresh(part) && fresh(part.part) && Linked(parts + [part])
                && Grown(m0, heap.entries[..], BlocksOf(parts + [part]) + [r])
                && Text(part.part[..], 0) == Text(path[..], at)[..Segment(Text(path[..], at))]
    {
      hide Text, Terminated, Segment, Rest, Grown, BlocksOf, KernelMap, AddressBlock, Directory.FreeSet;
      ghost var m := heap.entries[..];
      var buffer, partAddress;
      buffer, partAddress, next := GetPathPart(path, at);
      if buffer == null {
        return null, next;
      }
      ghost var m1 := heap.entries[..];
      var address := ZeroedBlock(8); // sizeof(struct PathPart)
      part := new PathPart(address, partAddress, buffer);
      if last != null {
        last.next := part;
      }
      GrownByPart(m0, m, m1, heap.entries[..], parts, part, r);
    }

    /** pathparser_parse_path_part within pathparser_parse. */
    method NextPart(last: PathPart?, path: array<char>, at: nat, ghost m0: Map, ghost r: int,
        ghost parts: seq<PathPart>, ghost texts: seq<string>)
      returns (part: PathPart?, next: nat)
      requires path as object != heap.entries && Apart(parts)
      requires Reading(path[..], at, m0, heap.entries[..], r, parts, texts, false)
      requires last == if parts == [] then null else parts[|parts| - 1]
      modifies heap.entries, if last == null then {} else {last}
      ensures part == null ==> Reading(path[..], next, m0, heap.entries[..], r, parts, texts, true)
      ensures part != null ==>
                && fresh(part) && fresh(part.part) && |parts| < |texts|
                && Reading(path[..], next, m0, heap.entries[..], r, parts + [part], texts, false)
    {
      hide Text, Terminated, Segment, Rest, Grown, BlocksOf, KernelMap, AddressBlock, Directory.FreeSet, Parts,
        Texts, Linked;
      ghost var m, b := heap.entries[..], path[..];
      ReadingMeans(b, at, m0, m, r, parts, texts);
      part, next := ParsePathPart(last, path, at, m0, r, parts);
      if part != null {
        MoreTexts(parts, part, texts);
      }
    }

    /** pathparser_parse. Besides its result it is told which blocks of the heap are in use
        afterwards: the root's, and two for each part. */
    method Parse(path: array<char>) returns (root: PathRoot?, ghost parts: seq<PathPart>)
      requires path as object != heap.entries && Terminated(path[..], 0)
      requires Room(match ParseText(Text(path[..], 0)) case None => 0 case Some(p) => 2 * |p.parts| + 2)
      modifies heap.entries
      ensures root == null <==> ParseText(old(Text(path[..], 0))).None?
      ensures root == null ==> heap.entries[..] == old(heap.entries[..])
      ensures root != null ==>
                var p := ParseText(old(Text(path[..], 0))).value;
                && root.driveNo == p.drive && |parts| == |p.parts| && Texts(parts, p.parts) && Linked(parts)
                && root.first == (if parts == [] then null else parts[0])
                && Grown(old(heap.entries[..]), heap.entries[..], BlocksOf(parts) + [AddressBlock(root.address)])
    {
      hide Text, Terminated, KernelMap, AddressBlock, Directory.FreeSet, Parts, Reading, MarkFree, Taken;
      ghost var b, m0, s := path[..], heap.entries[..], Text(path[..], 0);
      parts := [];
      if |Text(path[..], 0)| > MAX_PATH || !ValidFormat(Text(path[..], 0)) {
        return null, [];
      }
      var driveNo := Text(path[..], 0)[0] as int - '0' as int;
      var address := ZeroedBlock(8); // sizeof(struct PathRoot)
      root := new PathRoot(address, driveNo);
      ghost var texts, r := Parts(s[3..]), AddressBlock(address);
      StartReading(b, m0, heap.entries[..], r);
      var part, at := NextPart(null, path, 3, m0, r, parts, texts);
      if part != null {
        root.first := part;
        assert parts + [part] == [part];
        parts := ReadOn(part, path, at, m0, r, texts);
      }
      ReadingDone(b, m0, heap.entries[..], r, parts, texts);
    }

    /** The loop of pathparser_parse. */
    method ReadOn(first: PathPart, path: array<char>, from: nat, ghost m0: Map, ghost r: int, ghost texts: seq<string>)
      returns (ghost parts: seq<PathPart>)
      requires path as object != heap.entries && first.part as object != heap.entries && texts != []
      requires Reading(path[..], from, m0, heap.entries[..], r, [first], texts, false)
      modifies heap.entries, first
      ensures parts != [] && parts[0] == first
      ensures exists at: nat :: Reading(path[..], at, m0, heap.entries[..], r, parts, texts, true)
    {
      hide Reading;
      var part, at := first, from;
      parts := [first];
      while part != null
        invariant parts != [] && parts[0] == first && (part != null ==> part == parts[|parts| - 1])
        invariant |parts| <= |texts| && Apart(parts) && forall i :: 1 <= i < |parts| ==> fresh(parts[i])
        invariant Reading(path[..], at, m0, heap.entries[..], r, parts, texts, part == null)
        decreases part != null, |texts| - |parts|
      {
        part, at := NextPart(part, path, at, m0, r, parts, texts);
        if part != null {
          parts := parts + [part];
        }
      }
    }

    /** pathparser_free */
    method Free(root: PathRoot, ghost parts: seq<PathPart>)
      requires Linked(parts) && root.first == if parts == [] then null else parts[0]
      requires forall b :: b in BlocksOf(parts) + [AddressBlock(root.address)] ==> b >= 0
      modifies heap.entries
      ensures heap.entries[..]
              == Directory.FreeBlocks(old(heap.entries[..]), BlocksOf(parts) + [AddressBlock(root.address)])
    {
      hide Directory.FreeBlocks, AddressBlock, MarkFree, BlocksOf;
      ghost var m, blocks := heap.entries[..], BlocksOf(parts) + [AddressBlock(root.address)];
      assert AddressBlock(root.address) in blocks && forall b :: b in BlocksOf(parts) ==> b in blocks;
      NoBlocks(m);
      assert parts[..|parts|] == parts;
      var part := root.first;
      ghost var i := 0;
      while part != null
        invariant Linked(parts) && i <= |parts| && part == (if i < |parts| then parts[i] else null)
        invariant heap.entries[..] == Directory.FreeBlocks(m, BlocksOf(parts[..i]))
        decreases |parts| - i
      {
        BlocksOfPart(parts, i);
        var next := part.next;
        NextOf(parts, i);
        Directory.FreeBlocksSnoc(m, BlocksOf(parts[..i]), AddressBlock(part.partAddress));
        heap.Free(part.partAddress);
        Directory.FreeBlocksSnoc(m, BlocksOf(parts[..i]) + [AddressBlock(part.partAddress)],
          AddressBlock(part.address));
        heap.Free(part.address);
        part := next;
        i := i + 1;
      }
      Directory.FreeBlocksSnoc(m, BlocksOf(parts), AddressBlock(root.address));
      heap.Free(root.address);
    }

    /** Parsing a path and freeing the result leaves the heap map as it was. */
    method ParseAndFree(path: array<char>)
      requires path as object != heap.entries && Terminated(path[..], 0)
      requires Room(match ParseText(Text(path[..], 0)) case None => 0 case Some(p) => 2 * |p.parts| + 2)
      modifies heap.entries
      ensures heap.entries[..] == old(heap.entries[..])
    {
      hide Text, Terminated, ParseText, KernelMap, Directory.FreeSet, Directory.FreeBlocks, BlocksOf, AddressBlock;
      ghost var m0 := heap.entries[..];
      var root;
      ghost var parts;
      root, parts := Parse(path);
      if root != null {
        FreeingRestores(m0, heap.entries[..], BlocksOf(parts) + [AddressBlock(root.address)]);
        Free(root, parts);
      }
    }
  }
}
