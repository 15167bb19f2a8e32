/** Machine words as bounded integers, and the bit-field operations on them. */
module Words {
  type Byte = x: int | 0 <= x < 0x100
  type Half = x: int | 0 <= x < 0x1_0000
  type Word = x: int | 0 <= x < 0x1_0000_0000
  type Long = x: int | 0 <= x < 0x1_0000_0000_0000_0000

  /** v & (2^k - 1), v >> k and so on are written as `%` and `/` throughout. */
  function Low16(v: Word): Half {
    v % 0x10000
  }

  function High16(v: Word): Half {
    v / 0x10000
  }

  function Pack(lo: Half, hi: Half): (v: Word)
    ensures Low16(v) == lo && High16(v) == hi
  {
    lo + hi * 0x10000
  }

  /** 32-bit wrap-around. */
  function Wrap(v: int): Word {
    v % 0x1_0000_0000
  }

  function Plus(v: Word, d: int): Word {
    Wrap(v + d)
  }

  /** v & ~3. */
  function AlignDown(v: Word): (a: Word)
    ensures a % 4 == 0 && a <= v < a + 4
  {
    v - v % 4
  }

  lemma PositiveFactor(p: int, w: int)
    requires w > 0 && p * w > 0
    ensures p > 0
  {
  }

  lemma CancelFactor(a: int, p: int, q: int)
    requires a > 0
    ensures a * p <= a * q ==> p <= q
    ensures a * p < a * q ==> p < q
  {
    if q < p {
      assert a * (p - q) > 0;
    }
  }

  /** Euclidean quotient and remainder are the only ones. */
  lemma DivModUnique(w: int, q: int, r: int)
    requires 0 <= r < w
    ensures (q * w + r) / w == q && (q * w + r) % w == r
  {
    var n := q * w + r;
    var d := q - n / w;
    assert n == (n / w) * w + n % w;
    assert d * w == n % w - r;
    assert (d + 1) * w == d * w + w && (1 - d) * w == w - d * w;
    PositiveFactor(d + 1, w);
    PositiveFactor(1 - d, w);
  }

  lemma QuotientBelow(n: int, w: int, m: int)
    requires w > 0 && 0 <= n < m * w
    ensures 0 <= n / w < m
  {
    var q := n / w;
    assert n == q * w + n % w;
    assert (m - q) * w == m * w - q * w > 0;
    PositiveFactor(m - q, w);
    assert (q + 1) * w == q * w + w > 0;
    PositiveFactor(q + 1, w);
  }

  /** Masking to a low part of a value that was already masked. */
  lemma ModOfMod(x: int, m: int, k: int)
    requires m > 0 && k > 0
    ensures k * m > 0 && x % (k * m) % m == x % m
  {
    assert k * m > 0;
    var q, r := x / (k * m), x % (k * m);
    var q2, r2 := r / m, r % m;
    assert x == q * (k * m) + r && r == q2 * m + r2;
    assert x == (q * k + q2) * m + r2;
    DivModUnique(m, q * k + q2, r2);
  }

  lemma ModShift(x: int, q: int, m: int)
    requires m > 0
    ensures (x - q * m) % m == x % m
  {
    assert x - q * m == (x / m - q) * m + x % m;
    DivModUnique(m, x / m - q, x % m);
  }

  lemma WrapSmall(v: int)
    requires 0 <= v < 0x1_0000_0000
    ensures Wrap(v) == v
  {
    DivModUnique(0x1_0000_0000, 0, v);
  }

  lemma WrapAdd(x: int, d: int)
    ensures Wrap(Wrap(x) + d) == Wrap(x + d)
  {
    var q := x / 0x1_0000_0000;
    ModShift(x + d, q, 0x1_0000_0000);
  }

  lemma TwoDigits(v: int, q: int, r: int, s: int, a: int, b: int, k: int)
    requires v == q * s + r && q == a * k + b && 0 <= r < s && 0 <= b < k
    ensures v == a * (k * s) + (b * s + r) && 0 <= b * s + r < k * s
  {
    assert (a * k + b) * s == a * (k * s) + b * s;
    assert (k - 1 - b) * s >= 0 && b * s >= 0;
    assert (k - 1 - b) * s == k * s - s - b * s;
  }

  /** Dividing in two steps. */
  lemma DivTwice(v: nat, a: nat, b: nat)
    requires a > 0 && b > 0
    ensures a * b > 0 && v / (a * b) == v / a / b
  {
    var q := v / a;
    TwoDigits(v, q, v % a, a, q / b, q % b, b);
    DivModUnique(b * a, q / b, q % b * a + v % a);
  }

  /** The quotient of a remainder. */
  lemma DivOfMod(v: nat, s: nat, k: nat)
    requires s > 0 && k > 0
    ensures k * s > 0 && v % (k * s) / s == v / s % k
  {
    var q := v / s;
    TwoDigits(v, q, v % s, s, q / k, q % k, k);
    DivModUnique(k * s, q / k, q % k * s + v % s);
    DivModUnique(s, q % k, v % s);
  }
}
