/** The NES picture unit's 15-bit scroll address and its vertical step. */
module NesScroll {
  import opened Words

  /** The parts of the address, lowest first; `top` is bit 15, which nothing uses. */
  datatype Scroll = Scroll(coarseX: int, coarseY: int, ntX: int, ntY: int, fineY: int, top: int)

  predicate Fits(s: Scroll) {
    0 <= s.coarseX < 32 && 0 <= s.coarseY < 32 && 0 <= s.ntX < 2 && 0 <= s.ntY < 2
    && 0 <= s.fineY < 8 && 0 <= s.top < 2
  }

  function Parts(v: Half): (s: Scroll) {
    Scroll(v % 32, v / 32 % 32, v / 1024 % 2, v / 2048 % 2, v / 4096 % 8, v / 32768)
  }

  function Address(s: Scroll): int {
    s.coarseX + 32 * (s.coarseY + 32 * (s.ntX + 2 * (s.ntY + 2 * (s.fineY + 8 * s.top))))
  }

  lemma Peel(r: int, q: int, w: int)
    requires 0 <= r < w && 0 <= q
    ensures (r + w * q) % w == r && (r + w * q) / w == q
  {
    DivModUnique(w, q, r);
  }

  /** The parts as the digits they are, each shift taken from the one before. */
  lemma PartsInTurn(v: Half)
    ensures var a := v / 32;
      var b := a / 32;
      var c := b / 2;
      var d := c / 2;
      Parts(v) == Scroll(v % 32, a % 32, b % 2, c % 2, d % 8, d / 8)
  {
    DivTwice(v, 32, 32);
    DivTwice(v, 1024, 2);
    DivTwice(v, 2048, 2);
    DivTwice(v, 4096, 8);
  }

  /** The digits of a number built from digits. */
  lemma PartsOfDigits(s: Scroll, v: int, c: int, d: int, e: int, f: int)
    requires Fits(s)
    requires v == s.coarseX + 32 * c && c == s.coarseY + 32 * d && d == s.ntX + 2 * e && e == s.ntY + 2 * f
    requires f == s.fineY + 8 * s.top
    ensures 0 <= f < 16 && 0 <= e < 32 && 0 <= d < 64 && 0 <= c < 2048 && 0 <= v < 0x10000
    ensures v / 32 == c && c / 32 == d && d / 2 == e && e / 2 == f && f / 8 == s.top
    ensures v % 32 == s.coarseX && c % 32 == s.coarseY && d % 2 == s.ntX && e % 2 == s.ntY && f % 8 == s.fineY
  {
    Peel(s.fineY, s.top, 8);
    Peel(s.ntY, f, 2);
    Peel(s.ntX, e, 2);
    Peel(s.coarseY, d, 32);
    Peel(s.coarseX, c, 32);
  }

  /** Splitting into parts and assembling are inverse. */
  lemma PartsOfAddress(s: Scroll)
    requires Fits(s)
    ensures 0 <= Address(s) < 0x10000 && Parts(Address(s)) == s
  {
    hide Parts;
    var f := s.fineY + 8 * s.top;
    var e := s.ntY + 2 * f;
    var d := s.ntX + 2 * e;
    var c := s.coarseY + 32 * d;
    PartsOfDigits(s, Address(s), c, d, e, f);
    hide Address, Fits;
    PartsInTurn(Address(s));
  }

  lemma AddressOfParts(v: Half)
    ensures Fits(Parts(v)) && Address(Parts(v)) == v
  {
    hide Parts;
    PartsInTurn(v);
  }

  /** Where the parts stand in the address: five bits of column, five of row, two of
      screen, three of fine row and the unused top bit. */
  lemma PlacesOfParts(v: Half)
    ensures var s := Parts(v);
      && v == s.coarseX + 0x20 * s.coarseY + 0x400 * s.ntX + 0x800 * s.ntY + 0x1000 * s.fineY + 0x8000 * s.top
      && 0 <= s.coarseX < 32 && 0 <= s.coarseY < 32 && 0 <= s.ntX < 2 && 0 <= s.ntY < 2
      && 0 <= s.fineY < 8 && 0 <= s.top < 2
  {
    hide Parts;
    AddressOfParts(v);
  }

  /** One scan line down, as the branches of the source take it. */
  function Down(s: Scroll): Scroll {
    if s.fineY != 7 then s.(fineY := s.fineY + 1)
    else if s.coarseY == 29 then s.(fineY := 0, coarseY := 0, ntY := 1 - s.ntY)
    else if s.coarseY == 31 then s.(fineY := 0, coarseY := 0)
    else s.(fineY := 0, coarseY := s.coarseY + 1)
  }

  /** The line of the two stacked 240-line screens. */
  function Line(s: Scroll): int {
    (s.ntY * 30 + s.coarseY) * 8 + s.fineY
  }

  /** The step is one line modulo 480 except on the last line of row 31, which wraps
      to row 0 of the same screen. Rows 30 and 31 never leave their screen. */
  lemma DownIff(s: Scroll)
    requires Fits(s)
    ensures Line(Down(s)) % 480 == (Line(s) + 1) % 480 <==> !(s.coarseY == 31 && s.fineY == 7)
    ensures s.coarseY < 30 ==> Down(s).coarseY < 30 && Line(Down(s)) == (Line(s) + 1) % 480
    ensures s.coarseY >= 30 ==> Down(s).ntY == s.ntY
    ensures s.coarseY == 31 && s.fineY == 7 ==> Down(s) == s.(coarseY := 0, fineY := 0)
    ensures Fits(Down(s)) && Down(s) == s.(coarseY := Down(s).coarseY, ntY := Down(s).ntY, fineY := Down(s).fineY)
  {
  }

  function DownBy(s: Scroll, n: nat): Scroll
    decreases n
  {
    if n == 0 then s else DownBy(Down(s), n - 1)
  }

  /** Any number of steps from a visible row. */
  lemma {:induction false} DownByLines(s: Scroll, n: nat)
    requires Fits(s) && s.coarseY < 30
    ensures var t := DownBy(s, n);
      Fits(t) && t.coarseY < 30 && Line(t) == (Line(s) + n) % 480
    decreases n
  {
    hide Line;
    LineBelow(s);
    if n > 0 {
      DownIff(s);
      DownByLines(Down(s), n - 1);
      ModShift(Line(s) + n, (Line(s) + 1) / 480, 480);
    } else {
      DivModUnique(480, 0, Line(s));
    }
  }

  lemma LineBelow(s: Scroll)
    requires Fits(s) && s.coarseY < 30
    ensures 0 <= Line(s) < 480
  {
  }

  /** 480 steps come back to the same address. */
  lemma DownPeriod(s: Scroll)
    requires Fits(s) && s.coarseY < 30
    ensures DownBy(s, 480) == s
  {
    hide DownBy;
    DownByLines(s, 480);
    DownByKeeps(s, 480);
    LineBelow(s);
    LineInjective(s, DownBy(s, 480));
  }

  lemma {:induction false} DownByKeeps(s: Scroll, n: nat)
    requires Fits(s)
    ensures var t := DownBy(s, n); t == s.(coarseY := t.coarseY, ntY := t.ntY, fineY := t.fineY)
    decreases n
  {
    if n > 0 {
      DownIff(s);
      DownByKeeps(Down(s), n - 1);
    }
  }

  lemma LineInjective(s: Scroll, t: Scroll)
    requires Fits(s) && Fits(t) && s.coarseY < 30 && t.coarseY < 30
    requires Line(t) == (Line(s) + 480) % 480
    ensures t.ntY == s.ntY && t.coarseY == s.coarseY && t.fineY == s.fineY
  {
    LineBelow(s);
    DivModUnique(480, 1, Line(s));
  }
}
