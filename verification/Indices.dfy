/** Quotients and remainders of flattened indices. */
module Indices {

  lemma MulGrows(a: int, m: int)
    requires a >= 1 && m >= 0
    ensures a * m >= m
  {}

  lemma MulMonotone(a: int, b: int, m: int)
    requires a <= b
    ensures m >= 0 ==> a * m <= b * m
    ensures m <= 0 ==> b * m <= a * m
  {}

  lemma MulDistribute(a: int, b: int, m: int)
    ensures (a + b) * m == a * m + b * m
  {}

  lemma MulAssociate(a: int, b: int, c: int)
    ensures a * (b * c) == (a * b) * c
  {}

  /** Euclid's division is unique. */
  lemma DivMod(x: int, m: int, q: int, r: int)
    requires x == q * m + r && 0 <= r < m
    ensures x / m == q && x % m == r
  {
    var q', r' := x / m, x % m;
    MulDistribute(q - q', q', m);
    MulDistribute(q' - q, q, m);
    if q > q' { MulGrows(q - q', m); }
    if q < q' { MulGrows(q' - q, m); }
  }

  /** An index of two parts stays below the product of the extents. */
  lemma TwoParts(y: int, z: int, b: int, c: int)
    requires 0 <= y < b && 0 <= z < c
    ensures 0 <= y * c + z < b * c
    ensures (y * c + z) / c == y && (y * c + z) % c == z
  {
    MulMonotone(y + 1, b, c);
    MulDistribute(y, 1, c);
    MulMonotone(0, y, c);
    DivMod(y * c + z, c, y, z);
  }

  /** The flat index of (x, y, z) in a row-major box whose last two extents are b and c. */
  function Flat(x: int, y: int, z: int, b: int, c: int): int { x * (b * c) + y * c + z }

  /** A flat index, taken apart the way the lambdas do. */
  lemma FlatParts(x: int, y: int, z: int, b: int, c: int)
    requires 0 <= y < b && 0 <= z < c
    ensures var i := Flat(x, y, z, b, c);
            b * c > 0 && i / (b * c) == x && i % (b * c) / c == y && i % c == z
  {
    var i, low := x * (b * c) + y * c + z, y * c + z;
    TwoParts(y, z, b, c);
    DivMod(i, b * c, x, low);
    MulAssociate(x, b, c);
    MulDistribute(x * b, y, c);
    DivMod(i, c, x * b + y, z);
  }
}
