/** The perspective divider of the PlayStation geometry coprocessor: a table-seeded
    reciprocal, refined by one Newton step, in place of the exact quotient. */
module PsxGteDivide {
  import opened Words

  /** The 257-entry reciprocal seed table, sixteen entries a row. */
  const UNR_TABLE: seq<seq<int>> := [
    [0xFF, 0xFD, 0xFB, 0xF9, 0xF7, 0xF5, 0xF3, 0xF1, 0xEF, 0xEE, 0xEC, 0xEA, 0xE8, 0xE6, 0xE4, 0xE3],
    [0xE1, 0xDF, 0xDD, 0xDC, 0xDA, 0xD8, 0xD6, 0xD5, 0xD3, 0xD1, 0xD0, 0xCE, 0xCD, 0xCB, 0xC9, 0xC8],
    [0xC6, 0xC5, 0xC3, 0xC1, 0xC0, 0xBE, 0xBD, 0xBB, 0xBA, 0xB8, 0xB7, 0xB5, 0xB4, 0xB2, 0xB1, 0xB0],
    [0xAE, 0xAD, 0xAB, 0xAA, 0xA9, 0xA7, 0xA6, 0xA4, 0xA3, 0xA2, 0xA0, 0x9F, 0x9E, 0x9C, 0x9B, 0x9A],
    [0x99, 0x97, 0x96, 0x95, 0x94, 0x92, 0x91, 0x90, 0x8F, 0x8D, 0x8C, 0x8B, 0x8A, 0x89, 0x87, 0x86],
    [0x85, 0x84, 0x83, 0x82, 0x81, 0x7F, 0x7E, 0x7D, 0x7C, 0x7B, 0x7A, 0x79, 0x78, 0x77, 0x75, 0x74],
    [0x73, 0x72, 0x71, 0x70, 0x6F, 0x6E, 0x6D, 0x6C, 0x6B, 0x6A, 0x69, 0x68, 0x67, 0x66, 0x65, 0x64],
    [0x63, 0x62, 0x61, 0x60, 0x5F, 0x5E, 0x5D, 0x5D, 0x5C, 0x5B, 0x5A, 0x59, 0x58, 0x57, 0x56, 0x55],
    [0x54, 0x53, 0x53, 0x52, 0x51, 0x50, 0x4F, 0x4E, 0x4D, 0x4D, 0x4C, 0x4B, 0x4A, 0x49, 0x48, 0x48],
    [0x47, 0x46, 0x45, 0x44, 0x43, 0x43, 0x42, 0x41, 0x40, 0x3F, 0x3F, 0x3E, 0x3D, 0x3C, 0x3C, 0x3B],
    [0x3A, 0x39, 0x39, 0x38, 0x37, 0x36, 0x36, 0x35, 0x34, 0x33, 0x33, 0x32, 0x31, 0x31, 0x30, 0x2F],
    [0x2E, 0x2E, 0x2D, 0x2C, 0x2C, 0x2B, 0x2A, 0x2A, 0x29, 0x28, 0x28, 0x27, 0x26, 0x26, 0x25, 0x24],
    [0x24, 0x23, 0x22, 0x22, 0x21, 0x20, 0x20, 0x1F, 0x1E, 0x1E, 0x1D, 0x1D, 0x1C, 0x1B, 0x1B, 0x1A],
    [0x19, 0x19, 0x18, 0x18, 0x17, 0x16, 0x16, 0x15, 0x15, 0x14, 0x14, 0x13, 0x12, 0x12, 0x11, 0x11],
    [0x10, 0x0F, 0x0F, 0x0E, 0x0E, 0x0D, 0x0D, 0x0C, 0x0C, 0x0B, 0x0A, 0x0A, 0x09, 0x09, 0x08, 0x08],
    [0x07, 0x07, 0x06, 0x06, 0x05, 0x05, 0x04, 0x04, 0x03, 0x03, 0x02, 0x02, 0x01, 0x01, 0x00, 0x00],
    [0x00]]

  predicate InTable(i: int) {
    0 <= i <= 256
  }

  function Entry(row: int, c: int): int
    requires 0 <= row <= 16 && 0 <= c < |UNR_TABLE[row]|
  {
    UNR_TABLE[row][c]
  }

  function Unr(i: int): int
    requires InTable(i)
  {
    Entry(i / 16, i % 16)
  }

  /** The divisors 8000h..FFFFh that use table entry i form a window of 128. These
      are the first and the last that the general error estimate covers; it misses
      two divisors at one end of windows 234 and 251, six of 253, and the top 73. */
  function Low(i: int): int {
    if i == 0 then 0x8000 else if i == 234 then 62658 else 0x7FC0 + 0x80 * i
  }

  function High(i: int): int {
    if i == 251 then 64957 else if i == 253 then 65209 else if i == 255 then 65462
    else 0x7FC0 + 0x80 * i + 0x7F
  }

  /** Deviation of d * u from 2^24. */
  function Dev(d: int, u: int): int {
    d * u - 0x1000000
  }

  function Cost(d: int, u: int): int {
    32512 * d + 127 * (d * u) + Dev(d, u) * Dev(d, u)
  }

  const COST_LIMIT := 98304 * 0x10000

  predicate WindowBounds(lo: int, hi: int, u: int) {
    && 0x101 <= u <= 0x200
    && -0x10000 <= Dev(lo, u) && Dev(hi, u) <= 0x10000
    && Cost(lo, u) <= COST_LIMIT && Cost(hi, u) <= COST_LIMIT
  }

  predicate WindowOk(i: int, u: int) {
    WindowBounds(Low(i), High(i), u)
  }

  lemma WindowRow0(c: int)
    requires 0 <= c < 16
    ensures WindowOk(0 + c, Entry(0, c) + 0x101)
  {
  }

  lemma WindowRow1(c: int)
    requires 0 <= c < 16
    ensures WindowOk(16 + c, Entry(1, c) + 0x101)
  {
  }

  lemma WindowRow2(c: int)
    requires 0 <= c < 16
    ensures WindowOk(32 + c, Entry(2, c) + 0x101)
  {
  }

  lemma WindowRow3(c: int)
    requires 0 <= c < 16
    ensures WindowOk(48 + c, Entry(3, c) + 0x101)
  {
  }

  lemma WindowRow4(c: int)
    requires 0 <= c < 16
    ensures WindowOk(64 + c, Entry(4, c) + 0x101)
  {
  }

  lemma WindowRow5(c: int)
    requires 0 <= c < 16
    ensures WindowOk(80 + c, Entry(5, c) + 0x101)
  {
  }

  lemma WindowRow6(c: int)
    requires 0 <= c < 16
    ensures WindowOk(96 + c, Entry(6, c) + 0x101)
  {
  }

  lemma WindowRow7(c: int)
    requires 0 <= c < 16
    ensures WindowOk(112 + c, Entry(7, c) + 0x101)
  {
  }

  lemma WindowRow8(c: int)
    requires 0 <= c < 16
    ensures WindowOk(128 + c, Entry(8, c) + 0x101)
  {
  }

  lemma WindowRow9(c: int)
    requires 0 <= c < 16
    ensures WindowOk(144 + c, Entry(9, c) + 0x101)
  {
  }

  lemma WindowRow10(c: int)
    requires 0 <= c < 16
    ensures WindowOk(160 + c, Entry(10, c) + 0x101)
  {
  }

  lemma WindowRow11(c: int)
    requires 0 <= c < 16
    ensures WindowOk(176 + c, Entry(11, c) + 0x101)
  {
  }

  lemma WindowRow12(c: int)
    requires 0 <= c < 16
    ensures WindowOk(192 + c, Entry(12, c) + 0x101)
  {
  }

  lemma WindowRow13(c: int)
    requires 0 <= c < 16
    ensures WindowOk(208 + c, Entry(13, c) + 0x101)
  {
  }

  lemma WindowRow14(c: int)
    requires 0 <= c < 16
    ensures WindowOk(224 + c, Entry(14, c) + 0x101)
  {
  }

  lemma WindowRow15(c: int)
    requires 0 <= c < 16
    ensures WindowOk(240 + c, Entry(15, c) + 0x101)
  {
  }

  lemma Windows(i: int)
    requires 0 <= i < 256
    ensures WindowOk(i, Unr(i) + 0x101)
  {
    hide WindowOk, Entry;
    var row, c := i / 16, i % 16;
    if row == 0 { WindowRow0(c); }
    else if row == 1 { WindowRow1(c); }
    else if row == 2 { WindowRow2(c); }
    else if row == 3 { WindowRow3(c); }
    else if row == 4 { WindowRow4(c); }
    else if row == 5 { WindowRow5(c); }
    else if row == 6 { WindowRow6(c); }
    else if row == 7 { WindowRow7(c); }
    else if row == 8 { WindowRow8(c); }
    else if row == 9 { WindowRow9(c); }
    else if row == 10 { WindowRow10(c); }
    else if row == 11 { WindowRow11(c); }
    else if row == 12 { WindowRow12(c); }
    else if row == 13 { WindowRow13(c); }
    else if row == 14 { WindowRow14(c); }
    else { WindowRow15(c); }
  }

  // ---- the table is a formula ------------------------------------------------

  /** 40000h divided by 100h + i, rounded to the nearest, less 101h and not negative. */
  function RoundedSeed(i: int): int
    requires 0 <= i
  {
    var e := (0x40000 / (0x100 + i) + 1) / 2 - 0x101;
    if e < 0 then 0 else e
  }

  lemma TableRow0(c: int)
    requires 0 <= c < 16
    ensures Entry(0, c) == RoundedSeed(0 + c)
  {
  }

  lemma TableRow1(c: int)
    requires 0 <= c < 16
    ensures Entry(1, c) == RoundedSeed(16 + c)
  {
  }

  lemma TableRow2(c: int)
    requires 0 <= c < 16
    ensures Entry(2, c) == RoundedSeed(32 + c)
  {
  }

  lemma TableRow3(c: int)
    requires 0 <= c < 16
    ensures Entry(3, c) == RoundedSeed(48 + c)
  {
  }

  lemma TableRow4(c: int)
    requires 0 <= c < 16
    ensures Entry(4, c) == RoundedSeed(64 + c)
  {
  }

  lemma TableRow5(c: int)
    requires 0 <= c < 16
    ensures Entry(5, c) == RoundedSeed(80 + c)
  {
  }

  lemma TableRow6(c: int)
    requires 0 <= c < 16
    ensures Entry(6, c) == RoundedSeed(96 + c)
  {
  }

  lemma TableRow7(c: int)
    requires 0 <= c < 16
    ensures Entry(7, c) == RoundedSeed(112 + c)
  {
  }

  lemma TableRow8(c: int)
    requires 0 <= c < 16
    ensures Entry(8, c) == RoundedSeed(128 + c)
  {
  }

  lemma TableRow9(c: int)
    requires 0 <= c < 16
    ensures Entry(9, c) == RoundedSeed(144 + c)
  {
  }

  lemma TableRow10(c: int)
    requires 0 <= c < 16
    ensures Entry(10, c) == RoundedSeed(160 + c)
  {
  }

  lemma TableRow11(c: int)
    requires 0 <= c < 16
    ensures Entry(11, c) == RoundedSeed(176 + c)
  {
  }

  lemma TableRow12(c: int)
    requires 0 <= c < 16
    ensures Entry(12, c) == RoundedSeed(192 + c)
  {
  }

  lemma TableRow13(c: int)
    requires 0 <= c < 16
    ensures Entry(13, c) == RoundedSeed(208 + c)
  {
  }

  lemma TableRow14(c: int)
    requires 0 <= c < 16
    ensures Entry(14, c) == RoundedSeed(224 + c)
  {
  }

  lemma TableRow15(c: int)
    requires 0 <= c < 16
    ensures Entry(15, c) == RoundedSeed(240 + c)
  {
  }

  lemma TableRow16(c: int)
    requires 0 <= c < 1
    ensures Entry(16, c) == RoundedSeed(256 + c)
  {
  }

  /** Every entry of the table is its rounding formula. */
  lemma TableIsFormula(i: int)
    requires 0 <= i <= 256
    ensures Unr(i) == RoundedSeed(i)
  {
    hide Entry, RoundedSeed;
    var row, c := i / 16, i % 16;
    if row == 0 { TableRow0(c); }
    else if row == 1 { TableRow1(c); }
    else if row == 2 { TableRow2(c); }
    else if row == 3 { TableRow3(c); }
    else if row == 4 { TableRow4(c); }
    else if row == 5 { TableRow5(c); }
    else if row == 6 { TableRow6(c); }
    else if row == 7 { TableRow7(c); }
    else if row == 8 { TableRow8(c); }
    else if row == 9 { TableRow9(c); }
    else if row == 10 { TableRow10(c); }
    else if row == 11 { TableRow11(c); }
    else if row == 12 { TableRow12(c); }
    else if row == 13 { TableRow13(c); }
    else if row == 14 { TableRow14(c); }
    else if row == 15 { TableRow15(c); }
    else { TableRow16(c); }
  }

  // ---- one divisor ----------------------------------------------------------

  predicate Normalised(d: int) {
    0x8000 <= d < 0x10000
  }

  function Seed(d: int): int
    requires Normalised(d)
  {
    Unr((d - 0x7FC0) / 0x80) + 0x101
  }

  /** The two shifts of the Newton step. */
  function NewtonHalf(d: int, u: int): int {
    (0x2000080 - d * u) / 0x100
  }

  function Refine(d: int, u: int): int {
    (0x80 + NewtonHalf(d, u) * u) / 0x100
  }

  /** The refined reciprocal, about 2^32 / d. */
  function Reciprocal(d: int): int
    requires Normalised(d)
  {
    Refine(d, Seed(d))
  }

  /** How far d * r is from 2^32. */
  function Residual(d: int, r: int): int {
    d * r - 0x1_0000_0000
  }

  /** The Newton step squares the relative error; what remains is rounding. */
  lemma NewtonStep(d: int, u: int)
    requires Normalised(d) && 0x101 <= u <= 0x200 && -0x10000 <= Dev(d, u) <= 0x10000
    ensures 0x10000 * Residual(d, Refine(d, u)) <= 32768 * d + 128 * (d * u) - Dev(d, u) * Dev(d, u)
    ensures 0x10000 * Residual(d, Refine(d, u)) >= -Cost(d, u)
  {
    hide Dev, Residual, Cost, NewtonHalf, Refine;
    var e, t := d * u, Dev(d, u);
    var q1, q2 := NewtonRounding(d, u);
    NewtonIdentity(d, u, e, NewtonHalf(d, u), Refine(d, u), 128 - q1, 128 - q2);
    RoundingBounds(d, q2, 256);
    RoundingBounds(e, q1, 1);
    CostIs(d, u);
    DevIs(d, u);
    Collect(0x10000 * Residual(d, Refine(d, u)), d * q2, e * q1, t * t, d, e);
  }

  /** The rounding of the two shifts. */
  lemma NewtonRounding(d: int, u: int) returns (q1: int, q2: int)
    ensures -127 <= q1 <= 128 && -127 <= q2 <= 128
    ensures 256 * NewtonHalf(d, u) == 0x2000080 - d * u - (128 - q1)
    ensures 256 * Refine(d, u) == 0x80 + NewtonHalf(d, u) * u - (128 - q2)
  {
    var v, w := 0x2000080 - d * u, 0x80 + NewtonHalf(d, u) * u;
    Shift8(v);
    Shift8(w);
    q1, q2 := 128 - v % 0x100, 128 - w % 0x100;
  }

  lemma Shift8(v: int)
    ensures 256 * (v / 0x100) == v - v % 0x100 && 0 <= v % 0x100 < 256
  {
  }

  lemma Collect(res: int, a: int, b: int, t: int, d: int, e: int)
    requires res == 256 * a + b - t
    requires -127 * (256 * d) <= 256 * a <= 128 * (256 * d) && -127 * (1 * e) <= 1 * b <= 128 * (1 * e)
    ensures res <= 32768 * d + 128 * e - t && res >= -(32512 * d + 127 * e + t)
  {
  }

  lemma CostIs(d: int, u: int)
    ensures Cost(d, u) == 32512 * d + 127 * (d * u) + Dev(d, u) * Dev(d, u)
  {
  }

  lemma DevIs(d: int, u: int)
    ensures d * u == 0x1000000 + Dev(d, u)
  {
  }

  lemma NewtonIdentity(d: int, u: int, e: int, d1: int, r: int, r1: int, r2: int)
    requires e == d * u && 256 * d1 == 0x2000080 - e - r1 && 256 * r == 0x80 + d1 * u - r2
    ensures 0x10000 * Residual(d, r) == 256 * (d * (128 - r2)) + e * (128 - r1) - Dev(d, u) * Dev(d, u)
  {
    calc {
      0x10000 * (d * r);
      256 * (d * (256 * r));
      256 * (d * (0x80 + d1 * u - r2));
      256 * (d * (128 - r2)) + 256 * (d * (d1 * u));
      { assert d * (d1 * u) == e * d1; }
      256 * (d * (128 - r2)) + e * (256 * d1);
      256 * (d * (128 - r2)) + e * (128 - r1) + e * (0x2000000 - e);
    }
    var t := Dev(d, u);
    assert e * (0x2000000 - e) == (0x1000000 + t) * (0x1000000 - t) == 0x1_0000_0000_0000 - t * t;
  }

  lemma RoundingBounds(p: int, q: int, k: int)
    requires p >= 0 && -127 <= q <= 128 && k >= 0
    ensures -127 * (k * p) <= k * (p * q) <= 128 * (k * p)
  {
    assert p * (128 - q) >= 0 && p * (q + 127) >= 0;
    assert k * (p * (128 - q)) >= 0 && k * (p * (q + 127)) >= 0;
  }

  /** The slope of the chord of the cost between two divisors. */
  function Slope(lo: int, hi: int, u: int): int {
    32512 + 127 * u - 0x2000000 * u + u * u * (lo + hi)
  }

  /** Cost is convex in d: inside an interval it stays below its ends. */
  lemma CostBetween(lo: int, d: int, hi: int, u: int)
    requires 0 <= lo <= d <= hi && u >= 0
    requires Cost(lo, u) <= COST_LIMIT && Cost(hi, u) <= COST_LIMIT
    ensures Cost(d, u) <= COST_LIMIT
  {
    hide Cost, Slope;
    CostChord(lo, d, hi, u);
    var k := Slope(lo, hi, u);
    if k >= 0 {
      OppositeSigns(k, hi - d);
    } else {
      OppositeSigns(-k, d - lo);
    }
  }

  lemma OppositeSigns(k: int, x: int)
    requires k >= 0 && x >= 0
    ensures k * -x <= 0 && -k * x <= 0
  {
    assert k * x >= 0;
  }

  lemma CostChord(lo: int, d: int, hi: int, u: int)
    requires lo <= d <= hi
    ensures Cost(d, u) <= Cost(lo, u) + Slope(lo, hi, u) * (d - lo)
    ensures Cost(d, u) <= Cost(hi, u) + Slope(lo, hi, u) * -(hi - d)
  {
    hide Cost;
    CostDifference(d, lo, u);
    CostDifference(d, hi, u);
    SquareTerm(u, d - lo, hi - d);
    ChordGap(u * u, 32512 + 127 * u - 0x2000000 * u, lo, d, hi);
  }

  lemma ChordGap(s: int, b: int, lo: int, d: int, hi: int)
    requires s * ((hi - d) * (d - lo)) >= 0
    ensures (b + s * (d + lo)) * (d - lo) <= (b + s * (lo + hi)) * (d - lo)
    ensures (b + s * (d + hi)) * (d - hi) <= (b + s * (lo + hi)) * (d - hi)
  {
    GapLeft(s, b, d + lo, hi - d, d - lo);
    GapLeft(s, b, d + hi, lo - d, d - hi);
    assert (hi - d) * (d - lo) == (lo - d) * (d - hi);
  }

  lemma GapLeft(s: int, b: int, y: int, g: int, x: int)
    ensures (b + s * (y + g)) * x - (b + s * y) * x == s * (g * x)
  {
    var m := b + s * y;
    assert b + s * (y + g) == m + s * g;
    assert (m + s * g) * x == m * x + s * g * x;
    assert s * g * x == s * (g * x);
  }

  lemma SquareTerm(u: int, p: int, q: int)
    requires p >= 0 && q >= 0
    ensures u * u * (q * p) >= 0
  {
    assert u * u >= 0 && q * p >= 0;
  }

  lemma CostDifference(d: int, c: int, u: int)
    ensures Cost(d, u) - Cost(c, u) == (32512 + 127 * u - 0x2000000 * u + u * u * (d + c)) * (d - c)
  {
    var x, y := d - c, d + c;
    SquaresDiffer(d * u, c * u, 0x1000000);
    Factor(u, d, c);
    RegroupSquares(u, x, y, 0x2000000);
    CollectSlope(u, x, u * u * y);
  }

  lemma SquaresDiffer(p: int, q: int, m: int)
    ensures (p - m) * (p - m) - (q - m) * (q - m) == (p - q) * (p + q - 2 * m)
  {
  }

  lemma Factor(u: int, d: int, c: int)
    ensures d * u - c * u == u * (d - c) && d * u + c * u == u * (d + c)
  {
  }

  lemma RegroupSquares(u: int, x: int, y: int, m: int)
    ensures u * x * (u * y - m) == (u * u * y - m * u) * x
  {
    assert u * x * (u * y) == u * u * y * x;
    assert u * x * m == m * u * x;
  }

  lemma CollectSlope(u: int, x: int, s: int)
    ensures 32512 * x + 127 * (u * x) + (s - 0x2000000 * u) * x == (32512 + 127 * u - 0x2000000 * u + s) * x
  {
  }

  // ---- the residual of every reciprocal -------------------------------------

  /** The seed is near enough and the refined reciprocal's residual is bounded. */
  predicate Accurate(d: int, u: int) {
    && 0x101 <= u <= 0x200 && -0x10000 <= Dev(d, u) <= 0x10000
    && -98304 <= Residual(d, Refine(d, u)) <= 65536
  }

  lemma IntervalAccurate(lo: int, d: int, hi: int, u: int)
    requires Normalised(d) && 0 <= lo <= d <= hi && WindowBounds(lo, hi, u)
    ensures Accurate(d, u)
  {
    DevBetween(lo, d, hi, u);
    CostBetween(lo, d, hi, u);
    NewtonStep(d, u);
    ResidualFromCost(d, u, Residual(d, Refine(d, u)));
  }

  lemma DevBetween(lo: int, d: int, hi: int, u: int)
    requires lo <= d <= hi && u >= 0
    ensures Dev(lo, u) <= Dev(d, u) <= Dev(hi, u)
  {
    assert (d - lo) * u >= 0 && (hi - d) * u >= 0;
  }

  lemma ResidualFromCost(d: int, u: int, rho: int)
    requires d < 0x10000 && Cost(d, u) <= COST_LIMIT
    requires -Cost(d, u) <= 0x10000 * rho <= 32768 * d + 128 * (d * u) - Dev(d, u) * Dev(d, u)
    ensures -98304 <= rho <= 65536
  {
    SquareBelow(Dev(d, u));
  }

  lemma SquareBelow(t: int)
    ensures 128 * t - t * t <= 4096
  {
    assert (t - 64) * (t - 64) >= 0;
  }

  /** The divisors Low and High leave out, except the top ones. */
  predicate Isolated(d: int) {
    d in {62656, 62657, 64958, 64959} || 65210 <= d <= 65215
  }

  function IsolatedU(d: int): int {
    if d < 63000 then 267 else if d < 65000 then 259 else 258
  }

  lemma IsolatedSeed(d: int)
    requires Isolated(d)
    ensures Normalised(d) && Seed(d) == IsolatedU(d)
  {
    assert (d - 0x7FC0) / 0x80 == if d < 63000 then 234 else if d < 65000 then 251 else 253;
    assert UNR_TABLE[14][10] == 0x0A && UNR_TABLE[15][11] == 0x02 && UNR_TABLE[15][13] == 0x01;
  }

  lemma IsolatedAccurate(d: int)
    requires Isolated(d)
    ensures Accurate(d, IsolatedU(d))
  {
    if d == 62656 {
    } else if d == 62657 {
    } else if d == 64958 {
    } else if d == 64959 {
    } else {
      SixAccurate(d);
    }
  }

  lemma SixAccurate(d: int)
    requires 65210 <= d <= 65215
    ensures Accurate(d, 258)
  {
    assert NewtonHalf(d, 258) == 130563 - d;
    assert Refine(d, 258) == 131074 - d;
    AntidiagonalProduct(d, 131074 - d, 65210, 65215);
  }

  /** At the top of the range the seed is 101h and the reciprocal is 1FFFFh - d. */
  lemma TopAccurate(d: int)
    requires 65463 <= d < 0x10000
    ensures Seed(d) == 257 && Accurate(d, 257)
  {
    assert UNR_TABLE[15][15] == 0 && UNR_TABLE[16][0] == 0;
    assert NewtonHalf(d, 257) == 130816 - d;
    assert Refine(d, 257) == 131071 - d;
    AntidiagonalProduct(d, 131071 - d, 65463, 65535);
  }

  lemma AntidiagonalProduct(d: int, r: int, lo: int, hi: int)
    requires lo <= d <= hi
    ensures d * r >= lo * hi + d * (r + d - lo - hi)
    ensures d * r <= lo * hi + d * (r + d - lo - hi) + (hi - lo) * (hi - lo)
  {
    assert (hi - d) * (d - lo) >= 0;
    assert (hi - d) * (hi - lo) >= (hi - d) * (d - lo) by { assert (hi - d) * (hi - d) >= 0; }
    assert (hi - lo) * (hi - lo) >= (hi - d) * (hi - lo) by { assert (d - lo) * (hi - lo) >= 0; }
    assert d * r == (hi - d) * (d - lo) + lo * hi + d * (r + d - lo - hi);
  }

  lemma InsideWindow(d: int)
    requires Normalised(d) && d < 65463 && !Isolated(d)
    ensures var i := (d - 0x7FC0) / 0x80; 0 <= i < 256 && 0 <= Low(i) <= d <= High(i)
  {
  }

  lemma ReciprocalAccurate(d: int)
    requires Normalised(d)
    ensures Accurate(d, Seed(d))
  {
    if d >= 65463 {
      TopAccurate(d);
    } else if Isolated(d) {
      IsolatedSeed(d);
      IsolatedAccurate(d);
    } else {
      var i := (d - 0x7FC0) / 0x80;
      InsideWindow(d);
      Windows(i);
      IntervalAccurate(Low(i), d, High(i), Seed(d));
    }
  }

  // ---- the divider ----------------------------------------------------------

  function Pow2(z: nat): (p: int)
    ensures p > 0
  {
    if z == 0 then 1 else 2 * Pow2(z - 1)
  }

  /** The rounded quotient the divider stands for: ((H * 20000h / SZ3) + 1) / 2. */
  function Rounded(h: int, sz3: int): int
    requires sz3 > 0
  {
    (h * 0x20000 / sz3 + 1) / 2
  }

  lemma RoundedBracket(h: int, sz3: int)
    requires 0 <= h && 0 < sz3
    ensures var e := Rounded(h, sz3); 2 * (e * sz3) <= 0x20000 * h + sz3 < 2 * (e * sz3) + 2 * sz3
  {
    var y, e := h * 0x20000 / sz3, Rounded(h, sz3);
    assert y * sz3 + (h * 0x20000) % sz3 == h * 0x20000;
    if y + 1 == 2 * e {
      assert y * sz3 == (2 * e - 1) * sz3 == 2 * (e * sz3) - sz3;
    } else {
      assert y * sz3 == (2 * e) * sz3 == 2 * (e * sz3);
    }
  }

  lemma RoundedAtMost(h: int, sz3: int)
    requires 0 <= h < 2 * sz3
    ensures Rounded(h, sz3) <= 0x20000
  {
    var e := Rounded(h, sz3);
    RoundedBracket(h, sz3);
    assert (2 * e) * sz3 == 2 * (e * sz3);
    CancelFactor(sz3, 2 * e, 0x40001);
  }

  lemma ScaledBracket(h: int, sz3: int, e: int, p: int)
    requires p > 0
    requires 2 * (e * sz3) <= 0x20000 * h + sz3 < 2 * (e * sz3) + 2 * sz3
    ensures var n, d := h * p, sz3 * p; 2 * (e * d) <= 0x20000 * n + d < 2 * (e * d) + 2 * d
  {
    var n, d := h * p, sz3 * p;
    assert p * (0x20000 * h + sz3 - 2 * (e * sz3)) >= 0;
    assert p * (2 * (e * sz3) + 2 * sz3 - 0x20000 * h - sz3) > 0;
    assert p * (0x20000 * h + sz3) == 0x20000 * n + d;
    assert p * (2 * (e * sz3)) == 2 * (e * d);
    assert p * (2 * sz3) == 2 * d;
  }

  function Scale(n: int, r: int): int {
    (n * r + 0x8000) / 0x10000
  }

  /** d times the scaling equation, its remainder and its error term bounded. */
  lemma ScaleTimesDivisor(n: int, d: int, r: int, q: int)
    requires 0 <= n && 0 < d && q == Scale(n, r)
    requires -98304 <= Residual(d, r) <= 65536
    ensures 0x10000 * (q * d) <= 0x1_0000_0000 * n + 65536 * n + 0x8000 * d
    ensures 0x10000 * (q * d) + 0x10000 * d > 0x1_0000_0000 * n - 98304 * n + 0x8000 * d
  {
    var m, rho := (n * r + 0x8000) % 0x10000, Residual(d, r);
    assert n * r + 0x8000 == 0x10000 * q + m;
    MultiplyThrough(n, d, r, q, m, rho);
    Between(n, -98304, rho, 65536);
    Between(d, 0, m, 0xFFFF);
  }

  lemma Between(n: int, lo: int, v: int, hi: int)
    requires n >= 0 && lo <= v <= hi
    ensures n * lo <= n * v <= n * hi
    ensures n * v == v * n
  {
    assert n * (v - lo) >= 0 && n * (hi - v) >= 0;
  }

  lemma MultiplyThrough(n: int, d: int, r: int, q: int, m: int, rho: int)
    requires n * r + 0x8000 == 0x10000 * q + m && d * r == 0x1_0000_0000 + rho
    ensures 0x10000 * (q * d) + m * d == 0x1_0000_0000 * n + n * rho + 0x8000 * d
  {
    calc {
      0x10000 * (q * d) + m * d;
      (0x10000 * q + m) * d;
      (n * r + 0x8000) * d;
      n * (d * r) + 0x8000 * d;
      n * (0x1_0000_0000 + rho) + 0x8000 * d;
    }
  }

  /** A reciprocal with a bounded residual scales to within -3..2 of the quotient. */
  lemma ScaledError(n: int, d: int, r: int, e: int)
    requires 0 <= n < 2 * d
    requires -98304 <= Residual(d, r) <= 65536
    requires 2 * (e * d) <= 0x20000 * n + d < 2 * (e * d) + 2 * d
    ensures e - 3 <= Scale(n, r) <= e + 2
  {
    var q := Scale(n, r);
    ScaleTimesDivisor(n, d, r, q);
    assert (e + 3) * d == e * d + 3 * d && (e - 4) * d == e * d - 4 * d;
    CancelFactor(d, q, e + 3);
    CancelFactor(d, e - 4, q);
  }

  lemma NumeratorBelow(h: int, sz3: int, p: int)
    requires 0 <= h < 2 * sz3 && p > 0
    ensures 0 <= h * p < 2 * (sz3 * p)
  {
    assert (2 * sz3 - h) * p > 0;
  }

  /** For any power of two that normalises SZ3, the scaled reciprocal is close to
      the rounded quotient. */
  lemma QuotientError(h: int, sz3: int, p: int)
    requires 0 <= h < 2 * sz3 && p > 0 && Normalised(sz3 * p)
    ensures 0 <= h * p < 2 * (sz3 * p)
    ensures Rounded(h, sz3) - 3 <= Scale(h * p, Reciprocal(sz3 * p)) <= Rounded(h, sz3) + 2
    ensures Rounded(h, sz3) <= 0x20000
  {
    NumeratorBelow(h, sz3, p);
    ReciprocalAccurate(sz3 * p);
    RoundedBracket(h, sz3);
    ScaledBracket(h, sz3, Rounded(h, sz3), p);
    ScaledError(h * p, sz3 * p, Reciprocal(sz3 * p), Rounded(h, sz3));
    RoundedAtMost(h, sz3);
  }

  /** The subtraction cannot go below zero and every 32-bit product fits. */
  lemma WordRange(d: int, u: int)
    requires Normalised(d) && Accurate(d, u)
    ensures 0 <= d * u <= 0x2000080
    ensures 0 <= NewtonHalf(d, u) * u && NewtonHalf(d, u) * u + 0x80 < 0x1_0000_0000
    ensures 0 <= Refine(d, u)
  {
    var d1 := NewtonHalf(d, u);
    assert 0 <= d1 <= 0x10200;
    Between(u, 0, d1, 0x10200);
  }

  function Clamp(v: int): int {
    if v > 0x1FFFF then 0x1FFFF else v
  }

  /** The divider without its table: seed, Newton step, scaling and saturation. */
  function Hardware(n: int, d: int): int
    requires 0x8000 <= d < 0x10000
  {
    var u := RoundedSeed((d - 0x7FC0) / 0x80) + 0x101;
    var r := (0x80 + (0x2000080 - d * u) / 0x100 * u) / 0x100;
    var q := (n * r + 0x8000) / 0x10000;
    if q > 0x1FFFF then 0x1FFFF else q
  }

  lemma ExactQuotient(n: int, d: int)
    requires Normalised(d)
    ensures Clamp(Scale(n, Reciprocal(d))) == Hardware(n, d)
  {
    hide RoundedSeed, Unr;
    TableIsFormula((d - 0x7FC0) / 0x80);
  }

  class Gte {
    /** The FLAG register's working value, as the set of its one bits. */
    var flag: set<nat>

    /** One perspective division. Without overflow the result is within -3..2 of
        the rounded quotient and the flags are kept; otherwise it saturates and
        sets the divide-overflow flag and the error summary. */
    method Divide(h: Half, sz3: Half) returns (res: int)
      modifies this
      ensures 0 <= res <= 0x1FFFF
      ensures h < 2 * sz3 ==> flag == old(flag) && Rounded(h, sz3) - 3 <= res <= Rounded(h, sz3) + 2
      ensures h < 2 * sz3 ==> (exists z: nat ::
        (0x8000 <= sz3 * Pow2(z) < 0x10000 && res == Hardware(h * Pow2(z), sz3 * Pow2(z))))
      ensures h >= 2 * sz3 ==> res == 0x1FFFF && flag == old(flag) + {17, 31}
    {
      if h < sz3 * 2 && sz3 != 0 {
        var z := Normalise(sz3);
        var n := h * Pow2(z);
        var d := sz3 * Pow2(z);
        QuotientError(h, sz3, Pow2(z));
        res := Finish(n, d);
        ExactQuotient(n, d);
        return;
      }
      flag := flag + {17, 31};
      return 0x1FFFF;
    }

    /** Leading zeroes of a nonzero 16-bit value. */
    static method Normalise(sz3: Half) returns (z: nat)
      requires sz3 != 0
      ensures Normalised(sz3 * Pow2(z))
    {
      z := 0;
      while sz3 * Pow2(z) / 0x8000 % 2 == 0
        invariant 0 < sz3 * Pow2(z) < 0x10000
        decreases 0x10000 - sz3 * Pow2(z)
      {
        assert sz3 * Pow2(z + 1) == 2 * (sz3 * Pow2(z));
        z := z + 1;
      }
    }

    /** Table seed, Newton step, scaling and clamp. */
    static method Finish(n: int, d: int) returns (res: int)
      requires Normalised(d) && 0 <= n < 2 * d
      ensures res == Clamp(Scale(n, Reciprocal(d))) && res >= 0
    {
      var u := Unr((d - 0x7FC0) / 0x80) + 0x101;
      ReciprocalAccurate(d);
      WordRange(d, u);
      var d1: Word := (0x2000080 - d * u) / 0x100;
      var d2: Word := (0x80 + d1 * u) / 0x100;
      var prod := n * d2;
      Between(n, 0, d2, d2);
      res := (prod + 0x8000) / 0x10000;
      if res > 0x1FFFF {
        res := 0x1FFFF;
      }
    }
  }

  lemma SeedOf34432()
    ensures Seed(34432) == 487
  {
    assert UNR_TABLE[0][13] == 0xE6;
  }

  /** Both ends of the error range are reached: by H = 1991 over SZ3 = 1023 and by
      H = 413 over SZ3 = 269. */
  lemma ErrorRangeIsTight()
    ensures Normalised(1023 * 64) && Scale(1991 * 64, Reciprocal(1023 * 64)) == Rounded(1991, 1023) - 3
    ensures Normalised(269 * 128) && Scale(413 * 128, Reciprocal(269 * 128)) == Rounded(413, 269) + 2
  {
    TopAccurate(1023 * 64);
    SeedOf34432();
    assert Refine(1023 * 64, 257) == 65599 && Refine(269 * 128, 487) == 124739;
  }
}
