/** Small integer helpers of the reservation store: the unsigned 32-bit range,
    the millisecond-to-timespec conversion and the row-major seat index. */
module Helpers {

  datatype Option<T> = None | Some(value: T)

  /** Number of values of a C `unsigned int`; arithmetic on such values is modulo this. */
  const U32: nat := 0x1_0000_0000

  /** The value after c of an unsigned 32-bit counter: one more, and 0 after 2^32 - 1. */
  function Inc32(c: nat): (r: nat)
    requires c < U32
    ensures r < U32
    ensures r == 0 <==> c == U32 - 1
    ensures r != 0 ==> r == c + 1
  {
    (c + 1) % U32
  }

  /** The value before c of an unsigned 32-bit counter: one less, and 2^32 - 1 before 0. */
  function Dec32(c: nat): (r: nat)
    requires c < U32
    ensures r < U32
    ensures r == U32 - 1 <==> c == 0
    ensures c != 0 ==> r == c - 1
  {
    (c - 1) % U32
  }

  /** Counting down undoes counting up, also across the wrap-around. */
  lemma DecUndoesInc(c: nat)
    requires c < U32
    ensures Dec32(Inc32(c)) == c
  {
  }

  /** A `struct timespec`: whole seconds and the remaining nanoseconds. */
  datatype Timespec = Timespec(sec: nat, nsec: nat)

  /** Splits a delay in milliseconds into seconds and nanoseconds. The result is a
      normalised timespec (fewer than 10^9 nanoseconds, a whole number of
      milliseconds in the nanosecond part) that denotes exactly `delayMs`. */
  function DelayToTimespec(delayMs: nat): (t: Timespec)
    ensures t.nsec < 1000000000 && t.nsec % 1000000 == 0
    ensures t.sec * 1000 + t.nsec / 1000000 == delayMs
  {
    Timespec(delayMs / 1000, (delayMs % 1000) * 1000000)
  }

  /** Whether (row, col) names a seat of a rows x cols grid; rows and columns count from 1. */
  predicate InBounds(rows: nat, cols: nat, row: int, col: int) {
    1 <= row <= rows && 1 <= col <= cols
  }

  /** Position of seat (row, col) in the row-major seat array of a rows x cols grid.
      The index is inside the array, and dividing it by the row width gives back the
      zero-based row, the remainder the zero-based column. */
  function SeatIndex(rows: nat, cols: nat, row: int, col: int): (idx: nat)
    requires InBounds(rows, cols, row, col)
    ensures idx < rows * cols
    ensures idx / cols == row - 1 && idx % cols == col - 1
  {
    SeatIndexFacts(rows, cols, row - 1, col - 1);
    (row - 1) * cols + col - 1
  }

  lemma SeatIndexFacts(rows: nat, cols: nat, r: nat, c: nat)
    requires r < rows && c < cols
    ensures r * cols + c < rows * cols
    ensures (r * cols + c) / cols == r && (r * cols + c) % cols == c
  {
    calc {
      r * cols + c;
    <  r * cols + cols;
    == (r + 1) * cols;
    <= { MulMonotone(r + 1, rows, cols); }
      rows * cols;
    }
    DivModUnique(r * cols + c, cols, r, c);
  }

  lemma MulMonotone(a: nat, b: nat, k: nat)
    requires a <= b
    ensures a * k <= b * k
  {
  }

  lemma DivModUnique(n: int, d: int, q: int, r: int)
    requires d > 0 && 0 <= r < d && n == q * d + r
    ensures n / d == q && n % d == r
  {
    var q', r' := n / d, n % d;
    assert q' * d + r' == n;
    assert (q - q') * d == r' - r;
    if q > q' {
      MulMonotone(1, q - q', d);
      assert false;
    } else if q < q' {
      MulMonotone(1, q' - q, d);
      assert false;
    }
  }

  /** Two in-bounds seats share an index exactly when they are the same seat. */
  lemma {:induction false} SeatIndexInjective(rows: nat, cols: nat, r1: int, c1: int, r2: int, c2: int)
    requires InBounds(rows, cols, r1, c1) && InBounds(rows, cols, r2, c2)
    ensures SeatIndex(rows, cols, r1, c1) == SeatIndex(rows, cols, r2, c2) <==> r1 == r2 && c1 == c2
  {
  }

  /** Seat indices follow row-major order: a seat comes before another exactly when it is
      in an earlier row, or in the same row and an earlier column. */
  lemma {:induction false} SeatIndexRowMajor(rows: nat, cols: nat, r1: int, c1: int, r2: int, c2: int)
    requires InBounds(rows, cols, r1, c1) && InBounds(rows, cols, r2, c2)
    ensures SeatIndex(rows, cols, r1, c1) < SeatIndex(rows, cols, r2, c2)
            <==> r1 < r2 || (r1 == r2 && c1 < c2)
  {
    var i1, i2 := SeatIndex(rows, cols, r1, c1), SeatIndex(rows, cols, r2, c2);
    assert i1 == (r1 - 1) * cols + (c1 - 1);
    assert i2 == (r2 - 1) * cols + (c2 - 1);
    if r1 < r2 {
      MulMonotone(r1, r2 - 1, cols);
      assert r1 * cols <= (r2 - 1) * cols;
      assert (r1 - 1) * cols + cols == r1 * cols;
    } else if r2 < r1 {
      MulMonotone(r2, r1 - 1, cols);
      assert r2 * cols <= (r1 - 1) * cols;
      assert (r2 - 1) * cols + cols == r2 * cols;
    }
  }

  /** Every position of the seat array is the index of exactly one seat: the one in row
      idx / cols + 1 and column idx % cols + 1. */
  lemma SeatIndexOnto(rows: nat, cols: nat, idx: nat)
    requires idx < rows * cols
    ensures cols > 0 && InBounds(rows, cols, idx / cols + 1, idx % cols + 1)
    ensures SeatIndex(rows, cols, idx / cols + 1, idx % cols + 1) == idx
  {
    var r := idx / cols;
    assert r * cols + idx % cols == idx;
    if r >= rows {
      MulMonotone(rows, r, cols);
    }
  }
}
