/** The BIOS square-root service: the digit-by-digit loop finds the integer square
    root of every 32-bit number without leaving 32 bits. */
module GbaSqrt {
  import opened Words

  predicate IsRoot(n: int, r: int) {
    r >= 0 && r * r <= n < (r + 1) * (r + 1)
  }

  lemma SquareGrows(m: int, r: int)
    requires 0 <= m <= r
    ensures m * m <= r * r
  {
    assert r * r == m * m + (r - m) * (r + m);
  }

  /** There is only one integer square root. */
  lemma RootUnique(n: int, r: int, s: int)
    requires IsRoot(n, r) && IsRoot(n, s)
    ensures r == s
  {
    if r < s {
      SquareGrows(r + 1, s);
    } else if s < r {
      SquareGrows(s + 1, r);
    }
  }

  /** The square of `root`, scaled by `scale`, has been taken from `n`, leaving `v`;
      `r` is the scaled root. */
  predicate Partial(n: int, v: int, r: int, root: int, scale: int) {
    root >= 0 && scale > 0 && v >= 0
    && r == root * scale && n == v + root * root * scale && v < (2 * root + 1) * scale
  }

  lemma Scaled(root: int, bit: int)
    ensures var q := root * bit;
      root * (4 * bit) == 4 * q && (2 * root + 1) * (4 * bit) == 8 * q + 4 * bit
      && 2 * root * bit == 2 * q && (2 * root + 1) * bit == 2 * q + bit
      && (2 * (2 * root) + 1) * bit == 4 * q + bit && (2 * (2 * root + 1) + 1) * bit == 4 * q + 3 * bit
  {
  }

  lemma ScaledSquares(root: int, bit: int)
    ensures var q := root * bit;
      root * root * (4 * bit) == 4 * (root * q)
      && (2 * root) * (2 * root) * bit == 4 * (root * q)
      && (2 * root + 1) * (2 * root + 1) * bit == 4 * (root * q) + 4 * q + bit
  {
    var s := root * root;
    assert s * bit == root * (root * bit);
    assert (2 * root) * (2 * root) == 4 * s;
    assert (2 * root + 1) * (2 * root + 1) == 4 * s + 4 * root + 1;
    Distribute(s, root, bit);
  }

  /** One binary digit of the root. */
  lemma Digit(n: int, v: int, r: int, root: int, bit: int)
    requires Partial(n, v, r, root, 4 * bit)
    ensures r % 2 == 0
    ensures v >= r + bit ==> Partial(n, v - (r + bit), r / 2 + bit, 2 * root + 1, bit)
    ensures v < r + bit ==> Partial(n, v, r / 2, 2 * root, bit)
  {
    Scaled(root, bit);
    ScaledSquares(root, bit);
    Even(root * bit);
  }

  lemma Even(q: int)
    ensures 4 * q % 2 == 0 && 4 * q / 2 == 2 * q
  {
  }

  lemma Distribute(a: int, b: int, c: int)
    ensures (4 * a + 4 * b + 1) * c == 4 * (a * c) + 4 * (b * c) + c && 4 * a * c == 4 * (a * c)
  {
  }

  /** The trial subtrahend fits a word. */
  lemma TrialFits(n: Word, v: int, r: int, root: int, bit: int)
    requires Partial(n, v, r, root, 4 * bit) && bit <= 0x4000_0000
    requires root == 0 || 4 * bit <= 0x4000_0000
    ensures 0 <= r + bit < 0x1_0000_0000
  {
    if root > 0 {
      var s := 4 * bit;
      assert r * r == (root * root * s) * s by {
        Squares(root, s);
      }
      assert root * root * s <= n;
      Product(root * root * s, s, 0x1_0000_0000, 0x4000_0000);
      SquareBelow(r, 0x8000_0000);
    }
  }

  lemma Squares(a: int, s: int)
    ensures (a * s) * (a * s) == (a * a * s) * s
  {
    assert a * s * (a * s) == a * (s * a) * s;
    assert s * a == a * s && a * (a * s) == a * a * s;
  }

  lemma Product(x: int, y: int, m: int, k: int)
    requires 0 <= x < m && 0 < y <= k
    ensures x * y < m * k
  {
    assert x * y < m * y;
    assert m * (k - y) >= 0;
  }

  lemma SquareBelow(r: int, m: int)
    requires 0 <= r && 0 < m && r * r < m * m
    ensures r < m
  {
    if r >= m {
      SquareGrows(m, r);
    }
  }

  /** The service. Every variable is a machine word throughout. */
  method Sqrt(n: Word) returns (r: Word)
    ensures IsRoot(n, r) && forall s :: IsRoot(n, s) ==> s == r
  {
    hide Partial, IsRoot;
    var v := n;
    var bit, scale := StartBit(n);
    r := 0;
    ghost var root := 0;
    Begins(n, scale);
    while bit != 0
      invariant BitOf(scale, bit) && (root == 0 || scale <= 0x4000_0000)
      invariant Partial(n, v, r, root, scale)
      decreases bit
    {
      Digit(n, v, r, root, bit);
      TrialFits(n, v, r, root, bit);
      Halved(r);
      Shrinks(scale, bit);
      if v >= r + bit {
        v := v - (r + bit);
        r := r / 2 + bit;
        root := 2 * root + 1;
      } else {
        r := r / 2;
        root := 2 * root;
      }
      scale := bit;
      bit := bit / 4;
    }
    Ends(n, v, r, root);
    forall s | IsRoot(n, s)
      ensures s == r
    {
      RootUnique(n, r, s);
    }
  }

  /** The largest power of four at most n, or zero. */
  method StartBit(n: Word) returns (bit: Word, ghost scale: int)
    ensures BitOf(scale, bit) && n < scale
  {
    bit := 0x4000_0000;
    scale := 0x1_0000_0000;
    while bit > n
      invariant BitOf(scale, bit) && n < scale
      decreases bit
    {
      Shrinks(scale, bit);
      scale := bit;
      bit := bit / 4;
    }
  }

  /** The powers of four from 1 to 2^32. */
  predicate IsScale(s: int) {
    s in {1, 4, 16, 64, 256, 0x400, 0x1000, 0x4000, 0x1_0000, 0x4_0000, 0x10_0000, 0x40_0000, 0x100_0000,
      0x400_0000, 0x1000_0000, 0x4000_0000, 0x1_0000_0000}
  }

  /** The bit under trial is a quarter of the scale, and gone after the last digit. */
  predicate BitOf(scale: int, bit: int) {
    IsScale(scale) && bit == scale / 4 && (bit > 0 ==> scale == 4 * bit) && (bit == 0 ==> scale == 1)
    && 0 <= bit <= 0x4000_0000
  }

  lemma Shrinks(scale: int, bit: int)
    requires BitOf(scale, bit) && bit > 0
    ensures BitOf(bit, bit / 4)
  {
  }

  lemma Begins(n: int, scale: int)
    requires 0 <= n < scale
    ensures Partial(n, n, 0, 0, scale)
  {
  }

  lemma Ends(n: int, v: int, r: int, root: int)
    requires Partial(n, v, r, root, 1)
    ensures IsRoot(n, r)
  {
    assert (root + 1) * (root + 1) == root * root + 2 * root + 1;
  }

  lemma Halved(r: int)
    requires r >= 0
    ensures 0 <= r / 2 <= r
  {
  }
}
