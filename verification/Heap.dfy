/** The block-map allocator of src/malloc/Heap.c: the map as a value, what its
    operations do to it, and the class that overwrites it in place. */
module Heap {
  import opened Machine

  const FREE: bv8 := 0x00
  const TAKEN: bv8 := 0x01
  const IS_FIRST: bv8 := 0x40
  const HAS_NEXT: bv8 := 0x80

  type Map = seq<bv8>

  /** heap_get_entry_type compares only the low four bits. */
  predicate IsFree(e: bv8) {
    e & 0x0f == FREE
  }

  predicate HasNext(e: bv8) {
    e & HAS_NEXT != 0
  }

  predicate IsHead(e: bv8) {
    e & IS_FIRST != 0
  }

  // ---------------------------------------------------------------- first fit

  /** n consecutive free entries start at s. */
  ghost predicate RunAt(m: Map, s: int, n: nat) {
    && 1 <= n && 0 <= s && s + n <= |m|
    && forall j | s <= j < s + n :: IsFree(m[j])
  }

  ghost predicate Fits(m: Map, n: nat) {
    exists s :: RunAt(m, s, n)
  }

  ghost predicate LastTaken(m: Map) {
    |m| == 0 || !IsFree(m[|m| - 1])
  }

  /** The least start of a run of n at or after s, or -1. */
  ghost function FirstRun(m: Map, n: nat, s: nat): (r: int)
    ensures r == -1 || (s <= r && RunAt(m, r, n))
    ensures forall t :: s <= t && RunAt(m, t, n) ==> 0 <= r <= t
    decreases |m| - s
  {
    if s + n > |m| then -1
    else if RunAt(m, s, n) then s
    else if s == |m| then -1
    else FirstRun(m, n, s + 1)
  }

  /** The start of the free run that ends just before e. */
  ghost function TailStart(m: Map, e: nat): (r: nat)
    requires e <= |m|
    ensures r <= e && (forall j | r <= j < e :: IsFree(m[j]))
    ensures r == 0 || !IsFree(m[r - 1])
  {
    if e == 0 || !IsFree(m[e - 1]) then e else TailStart(m, e - 1)
  }

  lemma TailUnique(m: Map, s: nat, e: nat)
    requires s <= e <= |m|
    requires (forall j | s <= j < e :: IsFree(m[j])) && (s == 0 || !IsFree(m[s - 1]))
    ensures TailStart(m, e) == s
  {
  }

  /** What heap_get_start_block returns, by cases on the map. */
  ghost function StartBlock(m: Map, n: nat): int {
    if Fits(m, n) then FirstRun(m, n, 0)
    else if LastTaken(m) then -ENOMEM
    else TailStart(m, |m|)
  }

  /** First fit as coded: the least fitting start if one exists; otherwise -ENOMEM
      exactly when the last entry is taken (or the map is empty), and a start whose
      free run is too short when it is not. */
  lemma FirstFit(m: Map, n: nat)
    ensures Fits(m, n) ==> RunAt(m, StartBlock(m, n), n)
    ensures Fits(m, n) ==> forall t :: RunAt(m, t, n) ==> StartBlock(m, n) <= t
    ensures !Fits(m, n) ==> (StartBlock(m, n) == -ENOMEM <==> LastTaken(m))
    ensures !Fits(m, n) && !LastTaken(m) ==>
              var r := StartBlock(m, n);
              && 0 <= r < |m| && RunAt(m, r, |m| - r) && (r == 0 || !IsFree(m[r - 1]))
              && (n >= 1 ==> |m| - r < n)
  {
    if Fits(m, n) {
      var s :| RunAt(m, s, n);
      assert FirstRun(m, n, 0) <= s;
    } else if !LastTaken(m) {
      var r := TailStart(m, |m|);
      assert r < |m|;
      if n >= 1 && |m| - r >= n {
        assert RunAt(m, r, n);
      }
    }
  }

  // ------------------------------------------------------- chains and the map

  /** Entry i of a chain of n blocks. */
  function ChainByte(i: nat, n: nat): bv8 {
    (if i == 0 then TAKEN | IS_FIRST else TAKEN) | (if i + 1 < n then HAS_NEXT else FREE)
  }

  /** The tests on an entry, as arithmetic: type 0 in the low four bits, has-next in the highest
      bit, first in the one below. */
  lemma EntryTests(e: bv8)
    ensures IsFree(e) <==> e % 16 == 0
    ensures HasNext(e) <==> e >= 128
    ensures IsHead(e) <==> e / 64 % 2 == 1
  {
  }

  /** The bytes of a chain, in the numbers of Heap.h. */
  lemma ChainBytes(i: nat, n: nat)
    requires i < n
    ensures ChainByte(i, n) == if i == 0 then (if n == 1 then 0x41 else 0xC1) else if i + 1 < n then 0x81 else 0x01
  {
  }

  /** A chain of exactly k blocks occupies m[s..s+k]. */
  ghost predicate ChainAt(m: Map, s: int, k: int) {
    && 1 <= k && 0 <= s && s + k <= |m|
    && forall j | s <= j < s + k :: m[j] == ChainByte(j - s, k)
  }

  /** How many entries heap_mark_blocks_free clears when it starts at s. */
  function Extent(m: Map, s: nat): (r: nat)
    requires s < |m|
    ensures 1 <= r && s + r <= |m|
    ensures forall j | s <= j < s + r - 1 :: HasNext(m[j])
    ensures s + r == |m| || !HasNext(m[s + r - 1])
    decreases |m| - s
  {
    if HasNext(m[s]) && s + 1 < |m| then 1 + Extent(m, s + 1) else 1
  }

  /** The chains of a map, start entry to number of blocks, read off from entry i on. */
  ghost function LiveFrom(m: Map, i: nat): map<int, int>
    requires i <= |m|
    decreases |m| - i
  {
    if i == |m| then map[]
    else if ChainAt(m, i, Extent(m, i)) then LiveFrom(m, i + 1)[i := Extent(m, i)]
    else LiveFrom(m, i + 1)
  }

  ghost function Live(m: Map): map<int, int> {
    LiveFrom(m, 0)
  }

  /** Entry j belongs to the chain that starts at s. */
  ghost predicate Covers(m: Map, s: int, j: int) {
    s in Live(m) && s <= j < s + Live(m)[s]
  }

  /** The map decomposes into free entries and chains. */
  ghost predicate WellFormed(m: Map) {
    forall j | 0 <= j < |m| && m[j] != FREE :: exists s :: Covers(m, s, j)
  }

  lemma ExtentOfChain(m: Map, s: int, k: int)
    requires ChainAt(m, s, k)
    ensures Extent(m, s) == k
  {
    var r := Extent(m, s);
    assert !HasNext(m[s + k - 1]);
  }

  lemma {:induction false} LiveFromIsChains(m: Map, i: nat, s: int, k: int)
    requires i <= |m|
    ensures s in LiveFrom(m, i) && LiveFrom(m, i)[s] == k <==> i <= s && ChainAt(m, s, k)
    decreases |m| - i
  {
    if i < |m| {
      LiveFromIsChains(m, i + 1, s, k);
      if s == i && ChainAt(m, s, k) {
        ExtentOfChain(m, s, k);
      }
    }
  }

  /** Live lists exactly the chains of the map. */
  lemma LiveIsChains(m: Map, s: int, k: int)
    ensures s in Live(m) && Live(m)[s] == k <==> ChainAt(m, s, k)
  {
    LiveFromIsChains(m, 0, s, k);
  }

  lemma LiveBounds(m: Map, s: int)
    requires s in Live(m)
    ensures ChainAt(m, s, Live(m)[s])
    ensures 0 <= s && 1 <= Live(m)[s] && s + Live(m)[s] <= |m|
  {
    LiveIsChains(m, s, Live(m)[s]);
  }

  /** Chains with different starts do not overlap. */
  lemma ChainsApart(m: Map, s: int, n: int, t: int, k: int)
    requires ChainAt(m, s, n) && ChainAt(m, t, k) && s != t
    ensures s + n <= t || t + k <= s
  {
    assert IsHead(m[s]) && IsHead(m[t]);
    assert forall i | s < i < s + n :: !IsHead(m[i]);
    assert forall i | t < i < t + k :: !IsHead(m[i]);
  }

  /** No entry belongs to two chains: the decomposition of a map is unique. */
  lemma CoversUnique(m: Map, s: int, t: int, j: int)
    requires Covers(m, s, j) && Covers(m, t, j)
    ensures s == t
  {
    LiveBounds(m, s);
    LiveBounds(m, t);
    if s != t {
      ChainsApart(m, s, Live(m)[s], t, Live(m)[t]);
    }
  }

  /** A well-formed map is determined by its chains. */
  lemma ChainsDetermineMap(a: Map, b: Map)
    requires WellFormed(a) && WellFormed(b) && |a| == |b|
    requires Live(a) == Live(b)
    ensures a == b
  {
    forall j | 0 <= j < |a| ensures a[j] == b[j] {
      if a[j] != FREE {
        SameEntry(a, b, j);
      } else if b[j] != FREE {
        SameEntry(b, a, j);
      }
    }
  }

  lemma SameEntry(a: Map, b: Map, j: int)
    requires WellFormed(a) && |a| == |b| && Live(a) == Live(b)
    requires 0 <= j < |a| && a[j] != FREE
    ensures a[j] == b[j]
  {
    var s :| Covers(a, s, j);
    LiveBounds(a, s);
    LiveBounds(b, s);
  }

  // ------------------------------------------------------ taking and freeing

  function MarkTaken(m: Map, s: nat, n: nat): (r: Map)
    ensures |r| == |m|
  {
    seq(|m|, j requires 0 <= j < |m| => if s <= j < s + n then ChainByte(j - s, n) else m[j])
  }

  function MarkFree(m: Map, s: int): (r: Map)
    ensures |r| == |m|
  {
    if s < 0 || s >= |m| then m
    else seq(|m|, j requires 0 <= j < |m| => if s <= j < s + Extent(m, s) then FREE else m[j])
  }

  /** Every entry of a well-formed map that is not zero is taken. */
  lemma FreeIsZero(m: Map, j: int)
    requires WellFormed(m) && 0 <= j < |m|
    ensures IsFree(m[j]) <==> m[j] == FREE
    ensures IsFree(m[j]) <==> !exists s :: Covers(m, s, j)
  {
    if s :| Covers(m, s, j) {
      LiveBounds(m, s);
      assert m[j] == ChainByte(j - s, Live(m)[s]);
    }
  }

  /** Live is the only map that lists exactly the chains. */
  lemma LiveIs(m: Map, l: map<int, int>)
    requires forall s, k :: ChainAt(m, s, k) <==> s in l && l[s] == k
    ensures Live(m) == l
  {
    forall s ensures s in Live(m) <==> s in l
             ensures s in l ==> Live(m)[s] == l[s] {
      if s in l {
        LiveIsChains(m, s, l[s]);
      }
      if s in Live(m) {
        LiveBounds(m, s);
      }
    }
  }

  /** Marking a free run taken adds exactly one chain. */
  lemma TakeAddsChain(m: Map, s: nat, n: nat)
    requires WellFormed(m) && RunAt(m, s, n)
    ensures s !in Live(m) && Live(MarkTaken(m, s, n)) == Live(m)[s := n]
    ensures WellFormed(MarkTaken(m, s, n))
  {
    var r, l := MarkTaken(m, s, n), Live(m)[s := n];
    if s in Live(m) {
      LiveBounds(m, s);
      assert Covers(m, s, s);
      FreeIsZero(m, s);
    }
    forall t, k ensures ChainAt(r, t, k) <==> t in l && l[t] == k {
      if t == s {
        OneLength(r, s, n, k);
      } else {
        TakeKeeps(m, s, n, t, k);
      }
      LiveIsChains(m, t, k);
    }
    LiveIs(r, l);
    TakeWellFormed(m, s, n);
  }

  lemma OneLength(m: Map, s: int, n: int, k: int)
    requires ChainAt(m, s, n)
    ensures ChainAt(m, s, k) <==> k == n
  {
    LiveIsChains(m, s, n);
    LiveIsChains(m, s, k);
  }

  lemma TakeKeeps(m: Map, s: nat, n: nat, t: int, k: int)
    requires WellFormed(m) && RunAt(m, s, n) && t != s
    ensures ChainAt(MarkTaken(m, s, n), t, k) <==> ChainAt(m, t, k)
  {
    var r := MarkTaken(m, s, n);
    if ChainAt(m, t, k) {
      LiveIsChains(m, t, k);
      forall j | t <= j < t + k ensures m[j] == r[j] {
        assert Covers(m, t, j);
        FreeIsZero(m, j);
      }
    }
    if ChainAt(r, t, k) {
      assert ChainAt(r, s, n);
      ChainsApart(r, s, n, t, k);
      assert forall j | t <= j < t + k :: m[j] == r[j];
    }
  }

  lemma TakeWellFormed(m: Map, s: nat, n: nat)
    requires WellFormed(m) && RunAt(m, s, n)
    requires Live(MarkTaken(m, s, n)) == Live(m)[s := n] && s !in Live(m)
    ensures WellFormed(MarkTaken(m, s, n))
  {
    var r := MarkTaken(m, s, n);
    forall j | 0 <= j < |r| && r[j] != FREE ensures exists t :: Covers(r, t, j) {
      if s <= j < s + n {
        assert Covers(r, s, j);
      } else {
        var t :| Covers(m, t, j);
        assert Covers(r, t, j);
      }
    }
  }

  /** Freeing the start of a chain removes exactly that chain. */
  lemma FreeRemovesChain(m: Map, s: nat)
    requires WellFormed(m) && s in Live(m)
    ensures Live(MarkFree(m, s)) == Live(m) - {s}
    ensures WellFormed(MarkFree(m, s))
  {
    var r, l, n := MarkFree(m, s), Live(m) - {s}, Live(m)[s];
    LiveBounds(m, s);
    forall t, k ensures ChainAt(r, t, k) <==> t in l && l[t] == k {
      FreeKeeps(m, s, n, t, k);
      LiveIsChains(m, t, k);
    }
    LiveIs(r, l);
    FreeWellFormed(m, s);
  }

  lemma FreeWellFormed(m: Map, s: nat)
    requires WellFormed(m) && s in Live(m)
    requires Live(MarkFree(m, s)) == Live(m) - {s}
    ensures WellFormed(MarkFree(m, s))
  {
    var r := MarkFree(m, s);
    LiveBounds(m, s);
    ExtentOfChain(m, s, Live(m)[s]);
    forall j | 0 <= j < |r| && r[j] != FREE ensures exists t :: Covers(r, t, j) {
      var t :| Covers(m, t, j);
      assert t != s;
      assert Covers(r, t, j);
    }
  }

  lemma FreeKeeps(m: Map, s: nat, n: int, t: int, k: int)
    requires ChainAt(m, s, n)
    ensures ChainAt(MarkFree(m, s), t, k) <==> ChainAt(m, t, k) && t != s
  {
    var r := MarkFree(m, s);
    ExtentOfChain(m, s, n);
    if ChainAt(m, t, k) && t != s {
      ChainsApart(m, s, n, t, k);
    }
    if ChainAt(r, t, k) {
      assert forall j | t <= j < t + k :: r[j] == ChainByte(j - t, k) && r[j] == m[j];
      assert r[t] != FREE;
    }
  }

  /** malloc followed by free of what it returned restores the map. */
  lemma TakeThenFreeRestores(m: Map, s: nat, n: nat)
    requires WellFormed(m) && RunAt(m, s, n)
    ensures MarkFree(MarkTaken(m, s, n), s) == m
  {
    var r := MarkTaken(m, s, n);
    TakeAddsChain(m, s, n);
    FreeRemovesChain(r, s);
    assert Live(m)[s := n] - {s} == Live(m);
    ChainsDetermineMap(MarkFree(r, s), m);
  }

  // ------------------------------------------------------- sizes and addresses

  /** Blocks reserved for a request of size bytes. */
  function Blocks(size: Word): nat {
    AlignUp(size) / PAGE_SIZE
  }

  /** Rounding up is the ceiling, except that it wraps to zero in the last page. */
  lemma BlocksIsCeiling(size: Word)
    ensures size <= 0xFFFF_F000 ==> Blocks(size) == (size + PAGE_SIZE - 1) / PAGE_SIZE
    ensures Blocks(size) == 0 <==> size == 0 || size > 0xFFFF_F000
  {
  }

  function BlockAddress(block: int): int {
    HEAP_BASE + block * PAGE_SIZE
  }

  function AddressBlock(address: Word): int {
    CDiv(ToSigned(Wrap(address - HEAP_BASE)), PAGE_SIZE)
  }

  /** Addresses inside a block name that block; the null pointer names entry -4096,
      in front of the map. */
  lemma AddressBlockInverse(block: nat, offset: nat)
    requires block < HEAP_BLOCKS && offset < PAGE_SIZE
    ensures AddressBlock(BlockAddress(block) + offset) == block
    ensures AddressBlock(0) == -4096
  {
  }

  /** The state the kernel heap has: no more entries than kernel_heap_init gives it. */
  ghost predicate KernelMap(m: Map) {
    |m| <= HEAP_BLOCKS && WellFormed(m)
  }

  /** heap_mark_blocks_taken gets a run that lies inside the map. */
  ghost predicate StaysInside(m: Map, n: nat) {
    StartBlock(m, n) + n <= |m|
  }

  /** Since a start is returned even when its run is too short, marking can leave the
      map; it does so unless a fit exists or the last entry is taken. */
  lemma StaysInsideIff(m: Map, n: nat)
    requires n <= TOTAL_PAGES
    ensures (StartBlock(m, n) < 0 || StaysInside(m, n)) <==> n == 0 || Fits(m, n) || LastTaken(m)
  {
    FirstFit(m, n);
  }

  /** The same failure on a map of two free entries: three blocks are asked for, entry
      0 is returned. */
  lemma ShortRunExample()
    ensures !Fits([FREE, FREE], 3) && StartBlock([FREE, FREE], 3) == 0
  {
  }

  /** The requests heap_malloc serves without writing past its map. */
  ghost predicate Serveable(m: Map, size: Word) {
    Blocks(size) == 0 || Fits(m, Blocks(size)) || LastTaken(m)
  }

  ghost function AfterMalloc(m: Map, size: Word): (Map, int) {
    var s := StartBlock(m, Blocks(size));
    if s < 0 then (m, 0) else (MarkTaken(m, s, Blocks(size)), BlockAddress(s))
  }

  /** A request of at least one block: null and no change when nothing fits, else one
      new chain of the right length at a page-aligned address. */
  lemma MallocOutcome(m: Map, size: Word)
    requires KernelMap(m) && Serveable(m, size) && Blocks(size) >= 1
    ensures !Fits(m, Blocks(size)) ==> AfterMalloc(m, size) == (m, 0)
    ensures Fits(m, Blocks(size)) ==>
              var (r, ptr) := AfterMalloc(m, size);
              var s := StartBlock(m, Blocks(size));
              && RunAt(m, s, Blocks(size)) && s !in Live(m)
              && ptr == BlockAddress(s) && HEAP_BASE <= ptr < TWO32
              && r == MarkTaken(m, s, Blocks(size)) && KernelMap(r)
              && Live(r) == Live(m)[s := Blocks(size)]
  {
    var n := Blocks(size);
    FirstFit(m, n);
    if Fits(m, n) {
      TakeAddsChain(m, StartBlock(m, n), n);
    }
  }

  // ------------------------------------------------------------- all the runs

  datatype Op = DoMalloc(size: Word) | DoFree(ptr: Word)

  /** The map, and what its user believes: address to requested size. */
  datatype State = State(m: Map, ledger: map<int, Word>)

  ghost predicate Legal(st: State, op: Op) {
    match op
    case DoMalloc(size) => Blocks(size) >= 1 && Serveable(st.m, size)
    case DoFree(ptr) => ptr in st.ledger
  }

  ghost function Step(st: State, op: Op): State {
    match op
    case DoMalloc(size) =>
      var (r, ptr) := AfterMalloc(st.m, size);
      if ptr == 0 then st else State(r, st.ledger[ptr := size])
    case DoFree(ptr) =>
      var b := AddressBlock(ptr);
      if b < 0 then st else State(MarkFree(st.m, b), st.ledger - {ptr})
  }

  ghost predicate LegalRun(st: State, ops: seq<Op>)
    decreases |ops|
  {
    ops != [] ==> Legal(st, ops[0]) && LegalRun(Step(st, ops[0]), ops[1..])
  }

  ghost function Run(st: State, ops: seq<Op>): State
    decreases |ops|
  {
    if ops == [] then st else Run(Step(st, ops[0]), ops[1..])
  }

  /** The chains of the map are exactly the entries of the ledger. */
  ghost predicate Agrees(st: State) {
    && KernelMap(st.m)
    && (forall a | a in st.ledger :: exists b :: b in Live(st.m) && a == BlockAddress(b))
    && (forall b | b in Live(st.m) ::
          BlockAddress(b) in st.ledger && Blocks(st.ledger[BlockAddress(b)]) == Live(st.m)[b])
  }

  lemma MallocAgrees(st: State, size: Word)
    requires Agrees(st) && Legal(st, DoMalloc(size))
    ensures Agrees(Step(st, DoMalloc(size)))
  {
    MallocOutcome(st.m, size);
    if Fits(st.m, Blocks(size)) {
      var st', s := Step(st, DoMalloc(size)), StartBlock(st.m, Blocks(size));
      forall a | a in st'.ledger ensures exists b :: b in Live(st'.m) && a == BlockAddress(b) {
        if a == BlockAddress(s) {
          assert s in Live(st'.m);
        } else {
          var b :| b in Live(st.m) && a == BlockAddress(b);
          assert b in Live(st'.m);
        }
      }
    }
  }

  lemma FreeIsStep(st: State, s: int)
    requires Agrees(st) && s in Live(st.m)
    ensures HEAP_BASE <= BlockAddress(s) < TWO32
    ensures Step(st, DoFree(BlockAddress(s))) == State(MarkFree(st.m, s), st.ledger - {BlockAddress(s)})
  {
    LiveBounds(st.m, s);
    AddressBlockInverse(s, 0);
  }

  lemma FreeAgrees(st: State, s: nat)
    requires Agrees(st) && s in Live(st.m)
    ensures Agrees(State(MarkFree(st.m, s), st.ledger - {BlockAddress(s)}))
  {
    LiveBounds(st.m, s);
    FreeRemovesChain(st.m, s);
    var st' := State(MarkFree(st.m, s), st.ledger - {BlockAddress(s)});
    forall a | a in st'.ledger ensures exists b :: b in Live(st'.m) && a == BlockAddress(b) {
      var b :| b in Live(st.m) && a == BlockAddress(b);
      assert b in Live(st'.m);
    }
  }

  /** Over every run of mallocs and frees the map is the ledger, block for block. */
  lemma {:induction false} RunRefinesLedger(st: State, ops: seq<Op>)
    requires Agrees(st) && LegalRun(st, ops)
    ensures Agrees(Run(st, ops))
    decreases |ops|
  {
    if ops != [] {
      match ops[0] {
        case DoMalloc(size) => MallocAgrees(st, size);
        case DoFree(ptr) =>
          var s :| s in Live(st.m) && ptr == BlockAddress(s);
          LiveBounds(st.m, s);
          FreeIsStep(st, s);
          FreeAgrees(st, s);
      }
      RunRefinesLedger(Step(st, ops[0]), ops[1..]);
    }
  }

  /** heap_create leaves an all-free map, which agrees with the empty ledger. */
  lemma InitialAgrees(m: Map)
    requires |m| <= HEAP_BLOCKS && forall j | 0 <= j < |m| :: m[j] == FREE
    ensures Agrees(State(m, map[]))
  {
    forall s, k ensures !ChainAt(m, s, k) {
      assert 0 <= s < |m| && k >= 0 ==> m[s] != ChainByte(0, k);
    }
    LiveIs(m, map[]);
  }

  /** What the ledger gives out never overlaps. */
  lemma LedgerDisjoint(st: State, a: int, b: int)
    requires Agrees(st) && a in st.ledger && b in st.ledger && a < b
    ensures a + st.ledger[a] <= b
  {
    var s :| s in Live(st.m) && a == BlockAddress(s);
    var t :| t in Live(st.m) && b == BlockAddress(t);
    LiveBounds(st.m, s);
    LiveBounds(st.m, t);
    ChainsApart(st.m, s, Live(st.m)[s], t, Live(st.m)[t]);
    BlocksIsCeiling(st.ledger[a]);
  }

  // ----------------------------------------------------- the code, in place

  /** struct Heap with its map of one byte per block. */
  class KernelHeap {
    const entries: array<bv8>

    constructor (total: nat)
      ensures entries.Length == total && fresh(entries)
      ensures forall j | 0 <= j < total :: entries[j] == FREE
    {
      entries := new bv8[total](_ => FREE);
    }

    method GetStartBlock(total: nat) returns (bs: int)
      ensures bs == StartBlock(entries[..], total)
    {
      ghost var m := entries[..];
      var bc := 0;
      bs := -1;
      for i := 0 to entries.Length
        invariant bs == -1 ==> bc == 0 && (i == 0 || !IsFree(m[i - 1]))
        invariant bs != -1 ==> 0 <= bs < i && bc == i - bs && (total == 0 || bc < total)
        invariant bs != -1 ==> (forall j | bs <= j < i :: IsFree(m[j])) && (bs == 0 || !IsFree(m[bs - 1]))
        invariant forall t :: RunAt(m, t, total) ==> (if bs == -1 then i else bs) <= t
      {
        if !IsFree(entries[i]) {
          bc := 0;
          bs := -1;
          continue;
        }
        if bs == -1 {
          bs := i;
        }
        bc := bc + 1;
        if bc == total {
          assert RunAt(m, bs, total);
          return;
        }
      }
      assert !Fits(m, total);
      if bs == -1 {
        return -ENOMEM;
      }
      TailUnique(m, bs, |m|);
    }

    method MarkBlocksTaken(start: int, total: int)
      requires 0 <= start && 0 <= total && start + total <= entries.Length
      modifies entries
      ensures entries[..] == MarkTaken(old(entries[..]), start, total)
    {
      var end := start + total - 1;
      var entry := TAKEN | IS_FIRST;
      if total > 1 {
        entry := entry | HAS_NEXT;
      }
      var i := start;
      while i <= end
        invariant start <= i <= end + 1
        invariant i <= end ==> entry == ChainByte(i - start, total)
        invariant forall j | 0 <= j < entries.Length ::
          entries[j] == if start <= j < i then ChainByte(j - start, total) else old(entries[j])
      {
        entries[i] := entry;
        entry := TAKEN;
        if i != end - 1 {
          entry := entry | HAS_NEXT;
        }
        i := i + 1;
      }
    }

    method MarkBlocksFree(start: int)
      requires 0 <= start
      modifies entries
      ensures entries[..] == MarkFree(old(entries[..]), start)
    {
      ghost var m := entries[..];
      ghost var stop := if start < |m| then start + Extent(m, start) else start;
      var i := start;
      while i < entries.Length
        invariant start <= i <= stop
        invariant i < stop ==> i + Extent(m, i) == stop
        invariant i == stop ==> stop >= |m|
        invariant forall j | 0 <= j < |m| :: entries[j] == if start <= j < i then FREE else m[j]
      {
        var entry := entries[i];
        entries[i] := FREE;
        if !HasNext(entry) {
          break;
        }
        i := i + 1;
      }
    }

    method Malloc(size: Word) returns (ptr: int)
      requires entries.Length <= HEAP_BLOCKS && Serveable(entries[..], size)
      modifies entries
      ensures (entries[..], ptr) == AfterMalloc(old(entries[..]), size)
    {
      StaysInsideIff(entries[..], Blocks(size));
      var total := AlignUp(size) / PAGE_SIZE;
      var start := GetStartBlock(total);
      if start < 0 {
        return 0;
      }
      ptr := BlockAddress(start);
      MarkBlocksTaken(start, total);
    }

    method Free(ptr: Word)
      requires AddressBlock(ptr) >= 0
      modifies entries
      ensures entries[..] == MarkFree(old(entries[..]), AddressBlock(ptr))
    {
      MarkBlocksFree(AddressBlock(ptr));
    }
  }
}
