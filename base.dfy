/** Small shared vocabulary: optional values, results with an error, Go's
    byte type and Go's integer division (which truncates toward zero). */
module Base {

  datatype Option<T> = None | Some(value: T)

  datatype Result<T, E> = Ok(value: T) | Err(error: E)

  /** A sequence is its two halves around j. */
  lemma SliceSplit<T>(s: seq<T>, i: nat, j: nat)
    requires i <= j <= |s|
    ensures s[i..] == s[i..j] + s[j..]
  {
  }

  /** A slice of a slice is a slice of the whole. */
  lemma SliceOfSlice<T>(s: seq<T>, i: nat, j: nat, a: nat, b: nat)
    requires i <= j <= |s| && a <= b <= j - i
    ensures s[i..j][a..b] == s[i + a..i + b]
  {
    forall k | 0 <= k < b - a
      ensures s[i..j][a..b][k] == s[i + a..i + b][k]
    {
      assert s[i..j][a..b][k] == s[i..j][a + k] == s[i + a + k];
    }
  }

  /** Go's `uint8`. */
  newtype uint8 = x: int | 0 <= x < 256

  /** Go's `a / b` on `int` for a positive divisor: the quotient rounded
      toward zero (Dafny's own `/` rounds toward negative infinity here). */
  function GoDiv(a: int, b: int): int
    requires b > 0
  {
    if a >= 0 then a / b else -((-a) / b)
  }

  /** Go's quotient leaves a remainder that is smaller than the divisor and
      has the sign of the dividend; on a non-negative dividend it agrees with
      Dafny's division. */
  lemma GoDivTruncates(a: int, b: int)
    requires b > 0
    ensures a >= 0 ==> GoDiv(a, b) == a / b
    ensures var r := a - GoDiv(a, b) * b;
      -b < r < b && (r == 0 || (r < 0) == (a < 0))
  {
    if a < 0 {
      var m := (-a) / b;
      assert -a == m * b + (-a) % b;
      assert a - GoDiv(a, b) * b == -((-a) % b);
    }
  }

  /** `(n + c - 1) / c`, the ceiling division that sizes a grid of n cells
      in rows of c: the smallest r with r * c >= n. */
  function CeilDiv(n: nat, c: int): (r: nat)
    requires c > 0
    ensures n <= r * c < n + c
    ensures r == 0 <==> n == 0
  {
    var q := (n + c - 1) / c;
    assert q * c == n + c - 1 - (n + c - 1) % c;
    q
  }

  /** Cell k of a grid with rows of c cells is column k % c of row k / c,
      and the cell at column x of row y is cell y * c + x. */
  lemma CellOfIndex(y: nat, c: int, x: nat)
    requires 0 <= x < c
    ensures (y * c + x) % c == x && (y * c + x) / c == y
  {
    var k := y * c + x;
    var q, m := k / c, k % c;
    assert k == q * c + m && 0 <= m < c;
    assert (q - y) * c == x - m;
    SmallMultiple(q - y, c);
  }

  /** The only multiple of c strictly between -c and c is zero. */
  lemma SmallMultiple(d: int, c: int)
    requires c > 0 && -c < d * c < c
    ensures d == 0
  {
    if d >= 1 {
      MulAtLeast(d, c);
    } else if d <= -1 {
      MulAtLeast(-d, c);
    }
  }

  lemma MulAtLeast(a: int, c: int)
    requires a >= 1 && c >= 0
    ensures a * c >= c
  {
    var k := a - 1;
    assert a * c == k * c + c;
  }

  /** Scaling by a fraction no larger than one cannot grow a value. */
  lemma MulDivAtMost(a: nat, b: nat, c: nat)
    requires c > 0 && b <= c
    ensures 0 <= a * b / c <= a
  {
    assert a * b <= a * c by { assert a * c - a * b == a * (c - b); }
    var q := a * b / c;
    assert q * c <= a * b;
  }

  /** The floor quotient of non-negative numbers, bracketed. */
  lemma DivBracket(a: nat, b: nat)
    requires b > 0
    ensures (a / b) * b <= a < (a / b + 1) * b
  {
    assert a == (a / b) * b + a % b;
    assert (a / b + 1) * b == (a / b) * b + b;
  }

  /** `cell * a / b` for a <= b: the shorter side of a size scaled to `cell`. */
  lemma ScaledSide(cell: int, a: nat, b: nat)
    requires 0 < b && a <= b
    ensures cell >= 0 ==> 0 <= GoDiv(cell * a, b) <= cell
    ensures cell >= 0 ==> GoDiv(cell * a, b) * b <= cell * a < (GoDiv(cell * a, b) + 1) * b
  {
    if cell >= 0 {
      MulDivAtMost(cell, a, b);
      DivBracket(cell * a, b);
    }
  }

  /** Multiplying by a non-negative factor keeps the order. */
  lemma MulMono(a: int, b: int, c: nat)
    requires a <= b
    ensures a * c <= b * c
  {
    assert b * c - a * c == (b - a) * c;
  }
}
