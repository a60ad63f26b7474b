/** 32-bit words, status codes and page arithmetic shared by every module
    (src/Memory_Constants.h, src/Status.h). */
module Machine {
  const PAGE_SIZE := 4096
  const PAGES_PER_TABLE := 1024
  const TOTAL_PAGES := 1048576 // 2^32 / PAGE_SIZE
  const TWO32 := 0x1_0000_0000

  const HEAP_BASE := 0x0100_0000 // HEAP_BASE_ADDRESS
  const HEAP_BLOCKS := 25600     // TOTAL_HEAP_MAP_BLOCKS
  const HEAP_MAP_BASE := 0x7E00  // HEAP_MAP_BASE_ADDRESS

  const EIO := 1
  const EINVARG := 2
  const ENOMEM := 3

  /** An unsigned 32-bit machine word. */
  type Word = x: int | 0 <= x < 0x1_0000_0000

  type Byte = x: int | 0 <= x < 256

  datatype Option<+T> = None | Some(value: T)

  /** Conversion of an integer to uint32_t. */
  function Wrap(x: int): Word {
    x % TWO32
  }

  /** Conversion of a 32-bit pattern to int. */
  function ToSigned(w: Word): int {
    if w < 0x8000_0000 then w else w - TWO32
  }

  /** The C operators / and % with a positive divisor: they truncate towards zero. */
  function CDiv(a: int, b: int): int
    requires b > 0
  {
    if a >= 0 then a / b else -((-a) / b)
  }

  function CMod(a: int, b: int): int
    requires b > 0
  {
    a - b * CDiv(a, b)
  }

  /** paging_align_to_lower_page, and the effect of masking with 0xFFFFF000. */
  function LowerPage(a: Word): Word {
    a - a % PAGE_SIZE
  }

  /** paging_align_address and heap_align_value_to_upper: both round up and wrap at 2^32. */
  function AlignUp(a: Word): Word {
    if a % PAGE_SIZE == 0 then a else Wrap(a - a % PAGE_SIZE + PAGE_SIZE)
  }

  lemma EvenPlus(q: int, r: int)
    ensures (2 * q + r) % 2 == r % 2
  {
  }

  lemma HalfOf(q: int, r: int)
    ensures (2 * q + r) / 2 == q + r / 2
  {
  }

  lemma QuarterOf(q: int, r: int)
    ensures (4 * q + r) / 4 == q + r / 4
  {
  }

  /** Quotient and remainder are unique. */
  lemma DivisionUnique(n: nat, c: nat, q: nat, r: nat)
    requires r < c && n == q * c + r
    ensures n / c == q && n % c == r
  {
    var d := n / c - q;
    assert d * c == r - n % c;
    NonZeroMultiple(d, c);
  }

  lemma NonZeroMultiple(d: int, c: int)
    requires c > 0
    ensures d == 0 || d * c >= c || d * c <= -c
  {
  }

  /** For an aligned address and flags below 4096, bitwise "or" is addition. */
  lemma OrIsAddition(a: bv32, f: bv32)
    requires a & 0xFFF == 0 && f & 0xFFFFF000 == 0
    ensures a | f == a + f
    ensures (a | f) & 0xFFFFF000 == a
  {
  }
}
