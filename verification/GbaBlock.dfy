/** LDM and STM of the ARM core: up to sixteen registers to or from consecutive
    words, lowest register at the lowest address, in four addressing modes. */
module GbaBlock {
  import opened Words
  import opened GbaMemory

  /** Bit i of a register list. */
  type RegList = s: seq<bool> | |s| == 16 witness seq(16, _ => false)
  type Regs = s: seq<Word> | |s| == 16 witness seq(16, _ => 0)

  /** How many of the first n registers are listed. */
  function Count(list: RegList, n: nat): (c: nat)
    requires n <= 16
    ensures c <= n
  {
    if n == 0 then 0 else Count(list, n - 1) + if list[n - 1] then 1 else 0
  }

  lemma {:induction false} CountMonotone(list: RegList, i: nat, j: nat)
    requires i <= j <= 16
    ensures Count(list, i) <= Count(list, j)
    ensures i < j && list[i] ==> Count(list, i) < Count(list, j)
    decreases j
  {
    if i < j {
      CountMonotone(list, i, j - 1);
    }
  }

  /** The lowest address of the block. */
  function Start(base: int, count: int, up: bool, pre: bool): int {
    if up then (if pre then base + 4 else base)
    else base - 4 * count + (if pre then 0 else 4)
  }

  function WrittenBack(base: int, count: int, up: bool): Word {
    Wrap(if up then base + 4 * count else base - 4 * count)
  }

  function StoredValue(r: Regs, i: nat): Word
    requires i < 16
  {
    if i == 15 then Plus(r[15], 4) else r[i]
  }

  /** Memory after the first n registers have been considered by a store. */
  function StoreRegs(bus: Bus, m: Memory, start: int, r: Regs, list: RegList, n: nat): Memory
    requires n <= 16
    decreases n
  {
    if n == 0 then m
    else
      var m1 := StoreRegs(bus, m, start, r, list, n - 1);
      if list[n - 1] then Write32(bus, m1, WordAddr(start, Count(list, n - 1)), StoredValue(r, n - 1)) else m1
  }

  /** The CPU's word read drops the low two address bits. */
  function ReadAligned(bus: Bus, m: Memory, a: Word): Word {
    Read32(bus, m, AlignDown(a))
  }

  /** Registers after the first n have been considered by a load. */
  function LoadRegs(bus: Bus, m: Memory, start: int, r: Regs, list: RegList, n: nat): (r2: Regs)
    requires n <= 16
    decreases n
  {
    if n == 0 then r
    else
      var r1 := LoadRegs(bus, m, start, r, list, n - 1);
      if list[n - 1] then r1[n - 1 := ReadAligned(bus, m, WordAddr(start, Count(list, n - 1)))] else r1
  }

  function Stm(bus: Bus, m: Memory, r: Regs, rn: nat, list: RegList, up: bool, pre: bool, writeback: bool):
    (Memory, Regs)
    requires rn < 16
  {
    var base, count := r[rn], Count(list, 16);
    (StoreRegs(bus, m, Start(base, count, up, pre), r, list, 16),
     if writeback then r[rn := WrittenBack(base, count, up)] else r)
  }

  /** A load that includes the PC branches, without write-back; a loaded base wins
      over the write-back. */
  function Ldm(bus: Bus, m: Memory, r: Regs, rn: nat, list: RegList, up: bool, pre: bool, writeback: bool): Regs
    requires rn < 16
  {
    var base, count := r[rn], Count(list, 16);
    var loaded := LoadRegs(bus, m, Start(base, count, up, pre), r, list, 16);
    if list[15] then loaded[15 := AlignDown(loaded[15])]
    else if writeback && !list[rn] then loaded[rn := WrittenBack(base, count, up)]
    else loaded
  }

  // ---- load undoes store ----------------------------------------------------

  ghost predicate BlockInRam(start: int, count: nat) {
    forall k :: 0 <= k < count ==> RamWord(WordAddr(start, k))
  }

  /** Every listed register's value is at its own place after a store. */
  lemma {:induction false} StoreReadsBack(bus: Bus, m: Memory, start: int, r: Regs, list: RegList, n: nat, i: nat)
    requires i < n <= 16 && list[i] && BlockInRam(start, Count(list, n))
    ensures Read32(bus, StoreRegs(bus, m, start, r, list, n), WordAddr(start, Count(list, i))) == StoredValue(r, i)
    decreases n
  {
    hide Read32, Write32, WordAddr, RamWord, StoredValue;
    var k := Count(list, n - 1);
    var m1 := StoreRegs(bus, m, start, r, list, n - 1);
    CountMonotone(list, i, n);
    if i == n - 1 {
      assert RamWord(WordAddr(start, k));
      WordRoundTrip(bus, m1, WordAddr(start, k), StoredValue(r, i));
    } else {
      StoreReadsBack(bus, m, start, r, list, n - 1, i);
      CountMonotone(list, i, n - 1);
      if list[n - 1] {
        assert RamWord(WordAddr(start, k)) && RamWord(WordAddr(start, Count(list, i)));
        WordFrame(bus, m1, start, k, Count(list, i), StoredValue(r, n - 1));
      }
    }
  }

  lemma {:induction false} LoadGives(bus: Bus, m: Memory, start: int, r: Regs, list: RegList, n: nat, i: nat)
    requires i < 16 && n <= 16
    ensures LoadRegs(bus, m, start, r, list, n)[i]
         == if i < n && list[i] then ReadAligned(bus, m, WordAddr(start, Count(list, i))) else r[i]
    decreases n
  {
    hide ReadAligned, WordAddr;
    if n > 0 {
      LoadGives(bus, m, start, r, list, n - 1, i);
    }
  }

  /** The opposite direction starts at the same lowest word and ends at the old base. */
  lemma OppositeBlock(base: Word, count: nat, up: bool, pre: bool, k: int)
    requires count <= 16
    ensures var back := WrittenBack(base, count, up);
      && WordAddr(Start(back, count, !up, !pre), k) == WordAddr(Start(base, count, up, pre), k)
      && WrittenBack(back, count, !up) == base
  {
    hide Wrap;
    var d := if up then 4 * count else -4 * count;
    var e := Start(base, count, up, pre) - base - d;
    WrapAdd(base + d, -d);
    WrapAdd(base + d, e + 4 * k);
    WrapSmall(base);
    assert Start(WrittenBack(base, count, up), count, !up, !pre) == Wrap(base + d) + e;
  }

  lemma AlignedWord(base: Word, count: nat, up: bool, pre: bool, k: int)
    requires base % 4 == 0
    ensures WordAddr(Start(base, count, up, pre), k) % 4 == 0
  {
    var x := Start(base, count, up, pre) + 4 * k;
    assert x % 4 == 0;
    ModOfMod(x, 4, 0x4000_0000);
  }

  /** A store with write-back followed by the opposite load with write-back (DB/IA,
      IA/DB, DA/IB, IB/DA) restores every listed register and the base, whatever
      happened to the listed registers in between; other registers are kept. */
  lemma LoadUndoesStore(bus: Bus, m: Memory, r: Regs, rn: nat, list: RegList, up: bool, pre: bool,
                        later: Memory, now: Regs)
    requires rn < 16 && !list[rn] && !list[15] && r[rn] % 4 == 0
    requires BlockInRam(Start(r[rn], Count(list, 16), up, pre), Count(list, 16))
    requires now[rn] == Stm(bus, m, r, rn, list, up, pre, true).1[rn]
    requires forall k :: 0 <= k < Count(list, 16) ==>
      var a := WordAddr(Start(r[rn], Count(list, 16), up, pre), k);
      Read32(bus, later, a) == Read32(bus, Stm(bus, m, r, rn, list, up, pre, true).0, a)
    ensures var after := Ldm(bus, later, now, rn, list, !up, !pre, true);
      && after[rn] == r[rn]
      && (forall i :: 0 <= i < 16 && list[i] ==> after[i] == r[i])
      && (forall i :: 0 <= i < 16 && !list[i] && i != rn ==> after[i] == now[i])
  {
    hide Read32, Write32, WordAddr, RamWord, WrittenBack, Start;
    var base, count := r[rn], Count(list, 16);
    var start, back := Start(base, count, up, pre), Start(now[rn], count, !up, !pre);
    OppositeBlock(base, count, up, pre, 0);
    forall i: nat | i < 16
      ensures LoadRegs(bus, later, back, now, list, 16)[i] == if list[i] then r[i] else now[i]
    {
      LoadGives(bus, later, back, now, list, 16, i);
      if list[i] {
        var k := Count(list, i);
        CountMonotone(list, i, 16);
        OppositeBlock(base, count, up, pre, k);
        AlignedWord(base, count, up, pre, k);
        StoreReadsBack(bus, m, start, r, list, 16, i);
      }
    }
  }

  // ---- where the registers go -----------------------------------------------

  /** The listed registers below n. */
  ghost function Listed(list: RegList, n: nat): (s: set<int>)
    requires n <= 16
  {
    set i | 0 <= i < n && list[i]
  }

  lemma {:induction false} CountListed(list: RegList, n: nat)
    requires n <= 16
    ensures Count(list, n) == |Listed(list, n)|
    decreases n
  {
    if n == 0 {
      assert Listed(list, 0) == {};
    } else {
      CountListed(list, n - 1);
      assert Listed(list, n) == Listed(list, n - 1) + if list[n - 1] then {n - 1} else {};
    }
  }

  lemma BlockBounds(base: Word, n: nat, up: bool, pre: bool, low: int)
    requires low - base == (if up && !pre then 0 else if up then 4 else if pre then -4 * n else 4 - 4 * n)
    ensures Start(base, n, up, pre) == low
    ensures WrittenBack(base, n, up) == Plus(base, if up then 4 * n else -4 * n)
  {
  }

  /** A store's memory: with n registers listed, register i stands above the k listed
      ones below it, in a block that begins at the base (increment after), one word
      above it (increment before), n words below it (decrement before) or n - 1 words
      below it (decrement after). The PC is stored four ahead. The base moves by n
      words, up or down, if written back, and no other register changes. */
  lemma StorePlaces(bus: Bus, m: Memory, r: Regs, rn: nat, list: RegList, up: bool, pre: bool, writeback: bool,
                    low: int, i: nat)
    requires rn < 16 && i < 16 && list[i]
    requires var n := |Listed(list, 16)|;
      low - r[rn] == (if up && !pre then 0 else if up then 4 else if pre then -4 * n else 4 - 4 * n)
    requires BlockInRam(low, |Listed(list, 16)|)
    ensures var (m2, r2), n, k := Stm(bus, m, r, rn, list, up, pre, writeback), |Listed(list, 16)|, |Listed(list, i)|;
      && Read32(bus, m2, WordAddr(low, k)) == (if i == 15 then Plus(r[15], 4) else r[i])
      && (forall x :: 0 <= x < 16 && x != rn ==> r2[x] == r[x])
      && r2[rn] == if writeback then Plus(r[rn], if up then 4 * n else -4 * n) else r[rn]
  {
    hide Read32, Write32, WordAddr, RamWord, BlockInRam, Start, WrittenBack, Plus;
    CountListed(list, 16);
    BlockBounds(r[rn], Count(list, 16), up, pre, low);
    CountListed(list, i);
    StoreReadsBack(bus, m, low, r, list, 16, i);
  }

  /** A load's registers: each listed one from its place in the same block, addresses
      rounded down to a word and the PC's value too. The base moves as a store's does
      if written back, but not when it was itself loaded, nor when the PC was. */
  lemma LoadPlaces(bus: Bus, m: Memory, r: Regs, rn: nat, list: RegList, up: bool, pre: bool, writeback: bool,
                   low: int, i: nat)
    requires rn < 16 && i < 16
    requires var n := |Listed(list, 16)|;
      low - r[rn] == (if up && !pre then 0 else if up then 4 else if pre then -4 * n else 4 - 4 * n)
    ensures var r2, n := Ldm(bus, m, r, rn, list, up, pre, writeback), |Listed(list, 16)|;
      var v := Read32(bus, m, AlignDown(WordAddr(low, |Listed(list, i)|)));
      r2[i] ==
        if list[i] then (if i == 15 then AlignDown(v) else v)
        else if i == rn && writeback && !list[15] then Plus(r[rn], if up then 4 * n else -4 * n)
        else r[i]
  {
    hide Read32, WordAddr, AlignDown, Start, WrittenBack, Plus;
    CountListed(list, 16);
    BlockBounds(r[rn], Count(list, 16), up, pre, low);
    CountListed(list, i);
    LoadGives(bus, m, low, r, list, 16, i);
  }
}
