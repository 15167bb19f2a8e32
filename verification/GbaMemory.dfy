/** The Game Boy Advance bus as the CPU core uses it: the two work RAMs, mirrored
    through their regions, and everything else as a parameter. */
module GbaMemory {
  import opened Words

  const EWRAM_SIZE := 0x40000
  const IWRAM_SIZE := 0x8000

  /** `rest` stands for all state behind the other regions. */
  datatype Mem = Mem(ewram: seq<Byte>, iwram: seq<Byte>, rest: seq<Byte>)

  predicate ValidMem(m: Mem) {
    |m.ewram| == EWRAM_SIZE && |m.iwram| == IWRAM_SIZE
  }

  type Memory = m: Mem | ValidMem(m) witness Mem(seq(EWRAM_SIZE, _ => 0), seq(IWRAM_SIZE, _ => 0), [])

  /** Accesses outside work RAM: BIOS, I/O, video memory and cartridge. A write there
      may change anything, since an I/O write can start a DMA transfer. */
  datatype Bus = Bus(read16: (Memory, Word) -> Half,
                     write16: (Memory, Word, Half) -> Memory,
                     write32: (Memory, Word, Word) -> Memory)

  function Region(a: Word): int {
    a / 0x1000000 % 0x10
  }

  predicate InRam(a: Word) {
    Region(a) == 2 || Region(a) == 3
  }

  function Byte8(m: Memory, a: Word): Byte
    requires InRam(a)
  {
    if Region(a) == 2 then m.ewram[a % EWRAM_SIZE] else m.iwram[a % IWRAM_SIZE]
  }

  function Store8(m: Memory, a: Word, v: Byte): Memory
    requires InRam(a)
  {
    if Region(a) == 2 then m.(ewram := m.ewram[a % EWRAM_SIZE := v]) else m.(iwram := m.iwram[a % IWRAM_SIZE := v])
  }

  function Even(a: Word): (e: Word)
    ensures e % 2 == 0 && e <= a <= e + 1
  {
    a - a % 2
  }

  lemma SameRegion(e: Word)
    requires e % 2 == 0
    ensures e + 1 < 0x1_0000_0000 && InRam(e + 1) == InRam(e)
  {
  }

  function Read16(bus: Bus, m: Memory, a: Word): Half {
    var e := Even(a);
    SameRegion(e);
    if InRam(e) then Byte8(m, e) + Byte8(m, e + 1) * 0x100 else bus.read16(m, e)
  }

  function NextHalf(a: Word): Word {
    Wrap(a + 2)
  }

  function Read32(bus: Bus, m: Memory, a: Word): Word {
    Pack(Read16(bus, m, a), Read16(bus, m, NextHalf(a)))
  }

  function Write16(bus: Bus, m: Memory, a: Word, v: Half): Memory {
    var e := Even(a);
    SameRegion(e);
    if InRam(e) then Store8(Store8(m, e, v % 0x100), e + 1, v / 0x100) else bus.write16(m, e, v)
  }

  /** The aligned sound-FIFO words, which take a 32-bit store as one event. */
  predicate FifoWord(a: Word) {
    a % 4 == 0 && 0x040000A0 <= a < 0x040000B0
  }

  function Write32(bus: Bus, m: Memory, a: Word, v: Word): Memory {
    if FifoWord(a) then bus.write32(m, a, v)
    else Write16(bus, Write16(bus, m, a, Low16(v)), NextHalf(a), High16(v))
  }

  /** Four bytes as a number, low byte first. */
  function FourBytes(s: seq<Byte>, o: nat): (v: int)
    requires o + 4 <= |s|
  {
    var a: int, b: int, c: int, d: int := s[o], s[o + 1], s[o + 2], s[o + 3];
    a + 0x100 * b + 0x10000 * c + 0x1000000 * d
  }

  /** A word of work RAM in terms of the bytes: low byte first, in the 256 KiB block at
      02xxxxxxh or the 32 KiB one at 03xxxxxxh, each repeating through its region. */
  lemma RamBytes(bus: Bus, m: Memory, a: Word)
    requires a % 4 == 0
    ensures a % 0x40000 + 4 <= 0x40000 && a % 0x8000 + 4 <= 0x8000
    ensures a / 0x1000000 % 0x10 == 2 ==> Read32(bus, m, a) == FourBytes(m.ewram, a % 0x40000)
    ensures a / 0x1000000 % 0x10 == 3 ==> Read32(bus, m, a) == FourBytes(m.iwram, a % 0x8000)
  {
    RegionIs(a);
    hide Region, Read32;
    AlignedOffsets(a, 0x10000);
    AlignedOffsets(a, 0x2000);
    if Region(a) == 2 {
      BlockBytes(bus, m, a, m.ewram, 0x10000);
    }
    if Region(a) == 3 {
      BlockBytes(bus, m, a, m.iwram, 0x2000);
    }
  }

  lemma BlockBytes(bus: Bus, m: Memory, a: Word, s: seq<Byte>, n: int)
    requires (Region(a) == 2 && s == m.ewram) || (Region(a) == 3 && s == m.iwram)
    requires a % 4 == 0 && |s| == 4 * n
    ensures a % |s| + 4 <= |s| && Read32(bus, m, a) == FourBytes(s, a % |s|)
  {
    hide Region, Even, InRam, Read16, NextHalf;
    var o := a % |s|;
    AlignedOffsets(a, n);
    AlignedHalves(a, a / 4);
    HalfOfBytes(bus, m, a, s, o);
    HalfOfBytes(bus, m, a + 2, s, o + 2);
    FourOfTwos(Read16(bus, m, a), Read16(bus, m, a + 2), s, o);
  }

  lemma FourOfTwos(lo: Half, hi: Half, s: seq<Byte>, o: nat)
    requires o + 4 <= |s|
    requires lo == FourBytes([s[o], s[o + 1], 0, 0], 0) && hi == FourBytes([s[o + 2], s[o + 3], 0, 0], 0)
    ensures Pack(lo, hi) == FourBytes(s, o)
  {
  }

  lemma RegionIs(a: Word)
    ensures Region(a) == a / 0x1000000 % 0x10
  {
  }

  lemma HalfOfBytes(bus: Bus, m: Memory, e: Word, s: seq<Byte>, o: nat)
    requires (Region(e) == 2 && s == m.ewram) || (Region(e) == 3 && s == m.iwram)
    requires Even(e) == e && |s| > 0 && e % |s| == o && o + 1 < |s| && (e + 1) % |s| == o + 1
    ensures Read16(bus, m, e) == FourBytes([s[o], s[o + 1], 0, 0], 0)
  {
    SameRegion(e);
    hide Region;
  }

  lemma AlignedOffsets(a: Word, n: int)
    requires a % 4 == 0 && n > 0
    ensures var o := a % (4 * n);
      o + 3 < 4 * n && (a + 1) % (4 * n) == o + 1 && (a + 2) % (4 * n) == o + 2 && (a + 3) % (4 * n) == o + 3
  {
    var o := a % (4 * n);
    ModOfMod(a, 4, n);
    LastOfFour(o, n);
    NextOffset(a, 4 * n, 1);
    NextOffset(a, 4 * n, 2);
    NextOffset(a, 4 * n, 3);
  }

  lemma LastOfFour(o: int, n: int)
    requires o % 4 == 0 && 0 <= o < 4 * n
    ensures o + 3 < 4 * n
  {
  }

  lemma NextOffset(a: int, w: int, k: nat)
    requires w > 0 && a % w + k < w
    ensures (a + k) % w == a % w + k
  {
    DivModUnique(w, a / w, a % w + k);
  }

  lemma AlignedHalves(a: Word, q: int)
    requires a == 4 * q
    ensures a + 3 < 0x1_0000_0000 && Even(a) == a && NextHalf(a) == a + 2 && Even(a + 2) == a + 2
    ensures Region(a + 2) == Region(a)
  {
    hide Region, Wrap;
    WrapSmall(a + 2);
    DivModUnique(2, 2 * q, 0);
    DivModUnique(2, 2 * q + 1, 0);
    WithinRegion(a, q);
  }

  lemma WithinRegion(a: Word, q: int)
    requires a == 4 * q
    ensures a + 2 < 0x1_0000_0000 && Region(a + 2) == Region(a)
  {
    AlignedOffsets(a, 0x400000);
    DivModUnique(0x1000000, a / 0x1000000, a % 0x1000000 + 2);
  }

  // ---- work RAM behaves as memory -------------------------------------------

  /** Both halves of the word at `a` lie in work RAM. */
  predicate RamWord(a: Word) {
    InRam(Even(a)) && InRam(Even(NextHalf(a)))
  }

  lemma ByteFrame(m: Memory, a: Word, v: Byte, b: Word)
    requires InRam(a) && InRam(b) && a % IWRAM_SIZE != b % IWRAM_SIZE
    ensures Byte8(Store8(m, a, v), b) == Byte8(m, b)
  {
    hide Region;
    ModOfMod(a, IWRAM_SIZE, 8);
    ModOfMod(b, IWRAM_SIZE, 8);
  }

  lemma HalfRoundTrip(bus: Bus, m: Memory, a: Word, v: Half)
    requires InRam(Even(a))
    ensures Read16(bus, Write16(bus, m, a, v), a) == v
  {
    var e := Even(a);
    SameRegion(e);
    ByteFrame(Store8(m, e, v % 0x100), e + 1, v / 0x100, e);
  }

  lemma DistinctBytes(e: int, f: int)
    requires e % 2 == 0 && f % 2 == 0 && e % IWRAM_SIZE != f % IWRAM_SIZE
    ensures e % IWRAM_SIZE != (f + 1) % IWRAM_SIZE
    ensures (e + 1) % IWRAM_SIZE != f % IWRAM_SIZE
    ensures (e + 1) % IWRAM_SIZE != (f + 1) % IWRAM_SIZE
  {
    EvenResidue(e);
    EvenResidue(f);
  }

  lemma EvenResidue(e: int)
    requires e % 2 == 0
    ensures e % IWRAM_SIZE % 2 == 0 && (e + 1) % IWRAM_SIZE == e % IWRAM_SIZE + 1
  {
    ModOfMod(e, 2, 0x4000);
    DivModUnique(IWRAM_SIZE, e / IWRAM_SIZE, e % IWRAM_SIZE + 1);
  }

  /** Halves at different even offsets within 32 KiB do not disturb each other. */
  lemma HalfFrame(bus: Bus, m: Memory, a: Word, v: Half, b: Word)
    requires InRam(Even(a)) && InRam(Even(b)) && Even(a) % IWRAM_SIZE != Even(b) % IWRAM_SIZE
    ensures Read16(bus, Write16(bus, m, a, v), b) == Read16(bus, m, b)
  {
    var e, f := Even(a), Even(b);
    SameRegion(e);
    SameRegion(f);
    DistinctBytes(e, f);
    var m1 := Store8(m, e, v % 0x100);
    ByteFrame(m, e, v % 0x100, f);
    ByteFrame(m, e, v % 0x100, f + 1);
    ByteFrame(m1, e + 1, v / 0x100, f);
    ByteFrame(m1, e + 1, v / 0x100, f + 1);
  }

  /** Wrapping and rounding down to even commute with the 32 KiB offset. */
  lemma EvenWrapOffset(x: int)
    ensures Even(Wrap(x)) % IWRAM_SIZE == (x - x % 2) % IWRAM_SIZE
  {
    var q, w := x / 0x1_0000_0000, Wrap(x);
    assert x == q * 0x1_0000_0000 + w;
    ModOfMod(x, 2, 0x8000_0000);
    assert w % 2 == x % 2;
    ModShift(x - x % 2, q * 0x2_0000, IWRAM_SIZE);
    assert w - w % 2 == x - x % 2 - (q * 0x2_0000) * IWRAM_SIZE;
  }

  lemma EqualOffsets(x: int, y: int, m: int)
    requires m > 0 && x % m == y % m
    ensures (y - x) % m == 0
  {
    assert y - x == (y / m - x / m) * m;
    DivModUnique(m, y / m - x / m, 0);
  }

  lemma OffByOne(d: int, e: int)
    requires 2 <= d % IWRAM_SIZE <= IWRAM_SIZE - 2 && -1 <= e <= 1
    ensures (d + e) % IWRAM_SIZE != 0
  {
    DivModUnique(IWRAM_SIZE, d / IWRAM_SIZE, d % IWRAM_SIZE + e);
  }

  lemma EvenOffsets(a: int, d: int)
    requires 2 <= d % IWRAM_SIZE <= IWRAM_SIZE - 2
    ensures Even(Wrap(a)) % IWRAM_SIZE != Even(Wrap(a + d)) % IWRAM_SIZE
  {
    hide Even, Wrap;
    EvenWrapOffset(a);
    EvenWrapOffset(a + d);
    var x, y := a - a % 2, a + d - (a + d) % 2;
    OffByOne(d, a % 2 - (a + d) % 2);
    if x % IWRAM_SIZE == y % IWRAM_SIZE {
      EqualOffsets(x, y, IWRAM_SIZE);
      assert false;
    }
  }

  /** The word 4k bytes from address `a`, with 32-bit wrap-around. */
  function WordAddr(a: int, k: int): Word {
    Wrap(a + 4 * k)
  }

  lemma RamStore(bus: Bus, m: Memory, a: Word, v: Word)
    requires RamWord(a)
    ensures Write32(bus, m, a, v) == Write16(bus, Write16(bus, m, a, Low16(v)), NextHalf(a), High16(v))
  {
    hide Write16, RamWord, InRam, Even, NextHalf, FifoWord, Low16, High16;
    FifoNotRam(a);
  }

  lemma FifoNotRam(a: Word)
    ensures FifoWord(a) ==> !RamWord(a)
  {
    hide NextHalf;
    if FifoWord(a) {
      assert Even(a) == a && Region(a) == 4;
    }
  }

  lemma HalvesMakeWord(v: Word)
    ensures Pack(Low16(v), High16(v)) == v
  {
  }

  lemma NextHalfApart(a: Word)
    ensures Even(a) % IWRAM_SIZE != Even(NextHalf(a)) % IWRAM_SIZE
  {
    hide Even;
    EvenOffsets(a, 2);
    assert Wrap(a) == a;
  }

  lemma WordRoundTrip(bus: Bus, m: Memory, a: Word, v: Word)
    requires RamWord(a)
    ensures Read32(bus, Write32(bus, m, a, v), a) == v
  {
    hide Write16, Read16, Write32, InRam, Even, NextHalf, Low16, High16;
    var b := NextHalf(a);
    var m1 := Write16(bus, m, a, Low16(v));
    RamStore(bus, m, a, v);
    NextHalfApart(a);
    HalfRoundTrip(bus, m, a, Low16(v));
    HalfRoundTrip(bus, m1, b, High16(v));
    HalfFrame(bus, m1, b, High16(v), a);
    HalvesMakeWord(v);
  }

  /** All four half offsets of two words of one block differ. */
  lemma WordsApart(a: int, i: int, j: int)
    requires i != j && -0x1000 <= i - j <= 0x1000
    ensures var p, q := WordAddr(a, i), WordAddr(a, j);
      && Even(p) % IWRAM_SIZE != Even(q) % IWRAM_SIZE
      && Even(p) % IWRAM_SIZE != Even(NextHalf(q)) % IWRAM_SIZE
      && Even(NextHalf(p)) % IWRAM_SIZE != Even(q) % IWRAM_SIZE
      && Even(NextHalf(p)) % IWRAM_SIZE != Even(NextHalf(q)) % IWRAM_SIZE
  {
    hide Even, Wrap;
    var d := 4 * (j - i);
    BlockOffset(d);
    WrapAdd(a + 4 * i, 2);
    WrapAdd(a + 4 * j, 2);
    EvenOffsets(a + 4 * i, d);
    EvenOffsets(a + 4 * i, d + 2);
    EvenOffsets(a + 4 * i + 2, d - 2);
    EvenOffsets(a + 4 * i + 2, d);
    assert a + 4 * i + d == a + 4 * j && a + 4 * i + (d + 2) == a + 4 * j + 2;
    assert a + 4 * i + 2 + (d - 2) == a + 4 * j && a + 4 * i + 2 + d == a + 4 * j + 2;
  }

  lemma BlockOffset(d: int)
    requires d % 4 == 0 && d != 0 && -0x4000 <= d <= 0x4000
    ensures 2 <= d % IWRAM_SIZE <= IWRAM_SIZE - 2
    ensures 2 <= (d + 2) % IWRAM_SIZE <= IWRAM_SIZE - 2
    ensures 2 <= (d - 2) % IWRAM_SIZE <= IWRAM_SIZE - 2
  {
  }

  /** Words of one block of at most 16 KiB do not disturb each other. */
  lemma WordFrame(bus: Bus, m: Memory, a: int, i: int, j: int, v: Word)
    requires RamWord(WordAddr(a, i)) && RamWord(WordAddr(a, j))
    requires i != j && -0x1000 <= i - j <= 0x1000
    ensures Read32(bus, Write32(bus, m, WordAddr(a, i), v), WordAddr(a, j)) == Read32(bus, m, WordAddr(a, j))
  {
    hide Write16, Read16, Write32, InRam, Even, NextHalf, Low16, High16, WordAddr;
    var p, q := WordAddr(a, i), WordAddr(a, j);
    WordsApart(a, i, j);
    RamStore(bus, m, p, v);
    var m1 := Write16(bus, m, p, Low16(v));
    HalfFrame(bus, m, p, Low16(v), q);
    HalfFrame(bus, m, p, Low16(v), NextHalf(q));
    HalfFrame(bus, m1, NextHalf(p), High16(v), q);
    HalfFrame(bus, m1, NextHalf(p), High16(v), NextHalf(q));
  }
}
