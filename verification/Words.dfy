/** Machine words and ranges of addresses. */
module Words {
  const TWO_32: nat := 0x1_0000_0000
  const TWO_64: nat := 0x1_0000_0000_0000_0000

  type uint32 = n: nat | n < TWO_32
  type uint64 = n: nat | n < TWO_64

  /** The conversion of an unsigned number to a 32-bit int. */
  function ToInt32(n: nat): int {
    var w := n % TWO_32;
    if w < TWO_32 / 2 then w else w - TWO_32
  }

  /** The n bytes at a and the m bytes at b have none in common. */
  ghost predicate Disjoint(a: int, n: int, b: int, m: int) { a + n <= b || b + m <= a }
}
