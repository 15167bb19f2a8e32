/** The save-state cursors: a writer that can also only count, and a reader that
    remembers running off the end. */
module StateIo {
  import opened Words

  datatype Option<T> = None | Some(value: T)

  /** A little-endian number of `width` bytes, or a block of memory. */
  datatype Item = Num(width: nat, value: nat) | Mem(bytes: seq<Byte>)

  /** The items that went through a cursor, latest outermost. */
  datatype Log = Start | After(prev: Log, item: Item) {
    function U8(v: nat): Log { After(this, Num(1, v)) }
    function U16(v: nat): Log { After(this, Num(2, v)) }
    function U32(v: nat): Log { After(this, Num(4, v)) }
    function U64(v: nat): Log { After(this, Num(8, v)) }
    function Block(b: seq<Byte>): Log { After(this, Mem(b)) }
  }

  function Le(v: nat, width: nat): (b: seq<Byte>)
    ensures |b| == width
    decreases width
  {
    if width == 0 then [] else [v % 0x100] + Le(v / 0x100, width - 1)
  }

  function Width(i: Item): nat {
    if i.Num? then i.width else |i.bytes|
  }

  function Bytes(i: Item): (b: seq<Byte>)
    ensures |b| == Width(i)
  {
    if i.Num? then Le(i.value, i.width) else i.bytes
  }

  /** The blob a log stands for. */
  function Encode(l: Log): seq<Byte> {
    if l.Start? then [] else Encode(l.prev) + Bytes(l.item)
  }

  function Size(l: Log): (n: nat)
    ensures n == |Encode(l)|
  {
    if l.Start? then 0 else Size(l.prev) + Width(l.item)
  }

  // ---- numbers and their bytes ----------------------------------------------

  function Power(k: nat): (p: nat)
    ensures p > 0
  {
    if k == 0 then 1 else 0x100 * Power(k - 1)
  }

  function FromLe(b: seq<Byte>): nat {
    if b == [] then 0 else b[0] + 0x100 * FromLe(b[1..])
  }

  lemma DivModStep(v: nat, p: nat)
    requires p > 0
    ensures v % (0x100 * p) == v % 0x100 + 0x100 * (v / 0x100 % p)
  {
    var q := v / 0x100;
    assert v == 0x100 * (q / p * p + q % p) + v % 0x100;
    assert 0 <= v % 0x100 + 0x100 * (q % p) < 0x100 * p;
    assert v == (q / p) * (0x100 * p) + (v % 0x100 + 0x100 * (q % p));
    DivModUnique(0x100 * p, q / p, v % 0x100 + 0x100 * (q % p));
  }

  /** Reading a written number gives it back modulo its width. */
  lemma {:induction false} FromLeOfLe(v: nat, width: nat)
    ensures FromLe(Le(v, width)) == v % Power(width)
    decreases width
  {
    if width > 0 {
      FromLeOfLe(v / 0x100, width - 1);
      DivModStep(v, Power(width - 1));
      assert Le(v, width)[1..] == Le(v / 0x100, width - 1);
    }
  }

  /** Byte i of a written number is its digit of weight 256^i. */
  lemma {:induction false} LePlaces(v: nat, width: nat, i: nat)
    requires i < width
    ensures Le(v, width)[i] == v / Power(i) % 0x100
    decreases width
  {
    if i > 0 {
      LePlaces(v / 0x100, width - 1, i - 1);
      DivTwice(v, 0x100, Power(i - 1));
    }
  }

  lemma {:induction false} LeOfFromLe(b: seq<Byte>)
    ensures Le(FromLe(b), |b|) == b && FromLe(b) < Power(|b|)
    decreases |b|
  {
    if b != [] {
      LeOfFromLe(b[1..]);
      DivModUnique(0x100, FromLe(b[1..]), b[0]);
    }
  }

  lemma {:induction false} LeJoin(lo: nat, hi: nat, k: nat, m: nat)
    requires lo < Power(k)
    ensures Le(lo + Power(k) * hi, k + m) == Le(lo, k) + Le(hi, m)
    decreases k
  {
    if k > 0 {
      var v := lo + Power(k) * hi;
      assert Power(k) * hi == 0x100 * (Power(k - 1) * hi);
      JoinStep(lo, Power(k - 1) * hi);
      assert lo / 0x100 < Power(k - 1);
      LeJoin(lo / 0x100, hi, k - 1, m);
    } else {
      assert Le(lo, 0) == [];
    }
  }

  lemma JoinStep(lo: nat, q: nat)
    ensures (lo + 0x100 * q) % 0x100 == lo % 0x100
    ensures (lo + 0x100 * q) / 0x100 == lo / 0x100 + q
  {
  }

  // ---- logs read back from bytes --------------------------------------------

  /** `n` bytes of `b` from `from`, with zeroes past the end. */
  function Window(b: seq<Byte>, from: nat, n: nat): (w: seq<Byte>)
    ensures |w| == n
  {
    seq(n, i requires 0 <= i < n => if from + i < |b| then b[from + i] else 0)
  }

  predicate ItemIs(i: Item, w: seq<Byte>) {
    match i
    case Num(width, value) => width == |w| && value == FromLe(w)
    case Mem(bytes) => bytes == w
  }

  /** `l` is what reading `b` from its start yields. */
  predicate Parsed(l: Log, b: seq<Byte>) {
    l.Start? || (Parsed(l.prev, b) && ItemIs(l.item, Window(b, Size(l.prev), Width(l.item))))
  }

  /** The kinds and widths of a log's items, without their values. */
  function Shape(l: Log): Log {
    if l.Start? then Start
    else After(Shape(l.prev), Num(Width(l.item), if l.item.Num? then 0 else 1))
  }

  /** What a number keeps of itself in its width. */
  function Kept(l: Log): Log {
    if l.Start? then Start
    else After(Kept(l.prev), if l.item.Num? then Num(l.item.width, l.item.value % Power(l.item.width)) else l.item)
  }

  lemma WindowBetween(a: seq<Byte>, b: seq<Byte>, tail: seq<Byte>)
    ensures Window(a + b + tail, |a|, |b|) == b && a + b + tail == a + (b + tail)
  {
  }

  lemma ItemFromBytes(i: Item, w: Item)
    requires i.Num? == w.Num? && Width(i) == Width(w) && ItemIs(w, Bytes(i))
    ensures w == if i.Num? then Num(i.width, i.value % Power(i.width)) else i
  {
    hide Le, FromLe, Power;
    if i.Num? {
      FromLeOfLe(i.value, i.width);
    }
  }

  /** Reading a written blob, whatever follows it, yields what was written. */
  lemma {:induction false} ReadsBack(l: Log, m: Log, tail: seq<Byte>)
    requires Shape(l) == Shape(m) && Parsed(m, Encode(l) + tail)
    ensures m == Kept(l) && Size(m) == Size(l)
    decreases l
  {
    hide Window, ItemIs, Bytes, Power;
    if l.After? {
      WindowBetween(Encode(l.prev), Bytes(l.item), tail);
      ReadsBack(l.prev, m.prev, Bytes(l.item) + tail);
      ItemFromBytes(l.item, m.item);
    }
  }

  lemma {:induction false} ParsedUnique(l: Log, m: Log, b: seq<Byte>)
    requires Shape(l) == Shape(m) && Parsed(l, b) && Parsed(m, b)
    ensures l == m
    decreases l
  {
    if l.After? {
      ParsedUnique(l.prev, m.prev, b);
    }
  }

  lemma WindowInside(b: seq<Byte>, from: nat, n: nat)
    requires from + n <= |b|
    ensures b[..from] + Window(b, from, n) == b[..from + n]
  {
  }

  lemma ItemOfWindow(i: Item, w: seq<Byte>)
    requires ItemIs(i, w)
    ensures Bytes(i) == w && (i.Num? ==> i.value % Power(i.width) == i.value)
  {
    hide Le, FromLe, Power;
    if i.Num? {
      LeOfFromLe(w);
      DivModUnique(Power(i.width), 0, i.value);
    }
  }

  /** What is read from a blob that is long enough is what the blob holds, and every
      number read fits its width. */
  lemma {:induction false} ParsedIsBlob(l: Log, b: seq<Byte>)
    requires Parsed(l, b)
    ensures Kept(l) == l
    ensures Size(l) <= |b| ==> Encode(l) == b[..Size(l)]
    decreases l
  {
    hide Window, ItemIs, Bytes, Power;
    if l.After? {
      ParsedIsBlob(l.prev, b);
      ItemOfWindow(l.item, Window(b, Size(l.prev), Width(l.item)));
      if Size(l) <= |b| {
        WindowInside(b, Size(l.prev), Width(l.item));
      }
    }
  }

  /** An appended item's value does not show in the shape. */
  lemma ShapesGrow()
    ensures forall l: Log, v: nat :: Shape(l.U8(v)) == After(Shape(l), Num(1, 0))
    ensures forall l: Log, v: nat :: Shape(l.U16(v)) == After(Shape(l), Num(2, 0))
    ensures forall l: Log, v: nat :: Shape(l.U32(v)) == After(Shape(l), Num(4, 0))
    ensures forall l: Log, v: nat :: Shape(l.U64(v)) == After(Shape(l), Num(8, 0))
    ensures forall l: Log, a: seq<Byte> :: Shape(l.Block(a)) == After(Shape(l), Num(|a|, 1))
  {
  }

  /** Numbers that fit their width are kept. */
  lemma KeptGrows()
    ensures forall l: Log, v: nat {:trigger Kept(l.U8(v))} :: v < 0x100 ==> Kept(l.U8(v)) == Kept(l).U8(v)
    ensures forall l: Log, v: nat {:trigger Kept(l.U16(v))} :: v < 0x10000 ==> Kept(l.U16(v)) == Kept(l).U16(v)
    ensures forall l: Log, v: nat {:trigger Kept(l.U32(v))} ::
      v < 0x1_0000_0000 ==> Kept(l.U32(v)) == Kept(l).U32(v)
    ensures forall l: Log, v: nat {:trigger Kept(l.U64(v))} ::
      v < 0x1_0000_0000_0000_0000 ==> Kept(l.U64(v)) == Kept(l).U64(v)
    ensures forall l: Log, a: seq<Byte> {:trigger Kept(l.Block(a))} :: Kept(l.Block(a)) == Kept(l).Block(a)
  {
    hide Power;
    Powers();
  }

  lemma SizesGrow()
    ensures forall l: Log, v: nat :: Size(l.U8(v)) == Size(l) + 1
    ensures forall l: Log, v: nat :: Size(l.U16(v)) == Size(l) + 2
    ensures forall l: Log, v: nat :: Size(l.U32(v)) == Size(l) + 4
    ensures forall l: Log, v: nat :: Size(l.U64(v)) == Size(l) + 8
    ensures forall l: Log, a: seq<Byte> :: Size(l.Block(a)) == Size(l) + |a|
  {
  }

  /** The bytes of `l` start with those of `base`. */
  predicate Starts(l: Log, base: Log) {
    Size(base) <= Size(l) && Encode(l)[..Size(base)] == Encode(base)
  }

  lemma StartsGrow(base: Log)
    ensures Starts(base, base)
    ensures forall l: Log, v: nat :: Starts(l, base) ==> Starts(l.U8(v), base)
    ensures forall l: Log, v: nat :: Starts(l, base) ==> Starts(l.U16(v), base)
    ensures forall l: Log, v: nat :: Starts(l, base) ==> Starts(l.U32(v), base)
    ensures forall l: Log, v: nat :: Starts(l, base) ==> Starts(l.U64(v), base)
    ensures forall l: Log, a: seq<Byte> :: Starts(l, base) ==> Starts(l.Block(a), base)
  {
    forall l: Log, i: Item | Starts(l, base)
      ensures Starts(After(l, i), base)
    {
      assert Encode(After(l, i)) == Encode(l) + Bytes(i);
    }
  }

  // ---- the writer -----------------------------------------------------------

  class Writer {
    /** No buffer: only count. */
    const buf: array?<Byte>
    const cap: nat
    var pos: nat
    var overflow: bool
    /** The buffer's contents when the writer was made. */
    ghost const first: seq<Byte>
    ghost var log: Log

    /** The bytes `done` went through: in the buffer if they all fit. */
    ghost predicate Holds(done: seq<Byte>)
      reads this`pos, this`overflow, buf
    {
      && pos == |done|
      && (buf == null ==> !overflow)
      && (buf != null ==> cap <= buf.Length == |first|)
      && (buf != null ==> overflow == (cap < pos))
      && (buf != null ==> buf[cap..] == first[cap..])
      && (buf != null && !overflow ==> buf[..] == done + first[pos..])
    }

    ghost predicate Valid()
      reads this, buf
    {
      Holds(Encode(log))
    }

    constructor (buf: array?<Byte>, cap: nat)
      requires buf != null ==> cap <= buf.Length
      ensures Valid() && log == Start && this.buf == buf && this.cap == cap
      ensures buf != null ==> first == buf[..]
    {
      this.buf := buf;
      this.cap := cap;
      pos, overflow := 0, false;
      first := if buf == null then [] else buf[..];
      log := Start;
    }

    method PutU8(v: Byte, ghost done: seq<Byte>)
      requires Holds(done)
      modifies this`pos, this`overflow, buf
      ensures Holds(done + [v])
    {
      if buf != null {
        if pos < cap {
          buf[pos] := v;
        } else {
          overflow := true;
        }
      }
      pos := pos + 1;
    }

    method PutU16(v: Half, ghost done: seq<Byte>)
      requires Holds(done)
      modifies this`pos, this`overflow, buf
      ensures Holds(done + Le(v, 2))
    {
      hide Holds, Le, Power;
      PutU8(v % 0x100, done);
      PutU8(v / 0x100 % 0x100, done + [v % 0x100]);
      Powers();
      Digits(v, 0x100);
      LeOfJoin(v % 0x100, v / 0x100 % 0x100, 1);
      LeOfByte(v % 0x100);
      LeOfByte(v / 0x100 % 0x100);
      assert done + [v % 0x100] + [v / 0x100 % 0x100] == done + Le(v, 2);
    }

    method PutU32(v: Word, ghost done: seq<Byte>)
      requires Holds(done)
      modifies this`pos, this`overflow, buf
      ensures Holds(done + Le(v, 4))
    {
      hide Holds, Le, Power;
      PutU16(v % 0x10000, done);
      PutU16(v / 0x10000 % 0x10000, done + Le(v % 0x10000, 2));
      Powers();
      Digits(v, 0x10000);
      LeOfJoin(v % 0x10000, v / 0x10000 % 0x10000, 2);
      assert done + Le(v % 0x10000, 2) + Le(v / 0x10000 % 0x10000, 2) == done + Le(v, 4);
    }

    method PutU64(v: Long, ghost done: seq<Byte>)
      requires Holds(done)
      modifies this`pos, this`overflow, buf
      ensures Holds(done + Le(v, 8))
    {
      hide Holds, Le, Power;
      PutU32(v % 0x1_0000_0000, done);
      PutU32(v / 0x1_0000_0000 % 0x1_0000_0000, done + Le(v % 0x1_0000_0000, 4));
      Powers();
      Digits(v, 0x1_0000_0000);
      LeOfJoin(v % 0x1_0000_0000, v / 0x1_0000_0000 % 0x1_0000_0000, 4);
      assert done + Le(v % 0x1_0000_0000, 4) + Le(v / 0x1_0000_0000 % 0x1_0000_0000, 4) == done + Le(v, 8);
    }

    method U8(v: Byte)
      requires Valid()
      modifies this`pos, this`overflow, this`log, buf
      ensures Valid() && log == old(log).U8(v)
    {
      hide Holds, Le, Power;
      PutU8(v, Encode(log));
      log := log.U8(v);
      LeOfByte(v);
    }

    method U16(v: Half)
      requires Valid()
      modifies this`pos, this`overflow, this`log, buf
      ensures Valid() && log == old(log).U16(v)
    {
      hide Holds, Le, Power;
      PutU16(v, Encode(log));
      log := log.U16(v);
    }

    method U32(v: Word)
      requires Valid()
      modifies this`pos, this`overflow, this`log, buf
      ensures Valid() && log == old(log).U32(v)
    {
      hide Holds, Le, Power;
      PutU32(v, Encode(log));
      log := log.U32(v);
    }

    method U64(v: Long)
      requires Valid()
      modifies this`pos, this`overflow, this`log, buf
      ensures Valid() && log == old(log).U64(v)
    {
      hide Holds, Le, Power;
      PutU64(v, Encode(log));
      log := log.U64(v);
    }

    /** A block of memory, all of it or nothing. */
    method Block(p: array<Byte>)
      requires Valid() && p != buf
      modifies this`pos, this`overflow, this`log, buf
      ensures Valid() && log == old(log).Block(p[..])
    {
      if buf != null {
        if pos <= cap && p.Length <= cap - pos {
          forall i | 0 <= i < p.Length {
            buf[pos + i] := p[i];
          }
          assert buf[..] == Encode(log) + p[..] + first[pos + p.Length..];
        } else {
          overflow := true;
        }
      }
      pos := pos + p.Length;
      log := log.Block(p[..]);
    }
  }

  lemma LeOfByte(v: Byte)
    ensures Le(v, 1) == [v]
  {
    assert Le(v / 0x100, 0) == [];
  }

  /** A number below p squared by its two digits in base p. */
  lemma Digits(v: nat, p: nat)
    requires p > 0 && v < p * p
    ensures v == Join(v % p, v / p % p, p)
  {
    QuotientBelow(v, p, p);
    DivModUnique(p, 0, v / p);
  }

  lemma LeOfJoin(lo: nat, hi: nat, k: nat)
    requires lo < Power(k)
    ensures Le(Join(lo, hi, Power(k)), k + k) == Le(lo, k) + Le(hi, k)
  {
    hide Le;
    LeJoin(lo, hi, k, k);
  }

  function Join(lo: int, hi: int, base: int): int {
    lo + base * hi
  }

  lemma WindowSplit(b: seq<Byte>, from: nat, m: nat, n: nat)
    ensures Window(b, from, m + n) == Window(b, from, m) + Window(b, from + m, n)
  {
  }

  lemma ValueOfLe(v: nat, width: nat)
    requires v < Power(width)
    ensures FromLe(Le(v, width)) == v
  {
    FromLeOfLe(v, width);
    DivModUnique(Power(width), 0, v);
  }

  lemma Powers()
    ensures Power(1) == 0x100 && Power(2) == 0x10000 && Power(4) == 0x1_0000_0000
    ensures Power(8) == 0x1_0000_0000_0000_0000
  {
    assert Power(3) == 0x1000000;
    assert Power(5) == 0x100 * Power(4) && Power(6) == 0x100 * Power(5) && Power(7) == 0x100 * Power(6);
  }

  // ---- the reader -----------------------------------------------------------

  class Reader {
    const buf: array<Byte>
    const size: nat
    var pos: nat
    var bad: bool
    ghost var log: Log

    /** `done` bytes were asked for; those past the end read as zero. */
    ghost predicate Took(done: nat)
      reads this`pos, this`bad
    {
      && pos == (if done < size then done else size)
      && bad == (size < done)
    }

    ghost predicate Valid()
      reads this, buf
    {
      size <= buf.Length && Took(Size(log)) && Parsed(log, buf[..size])
    }

    constructor (buf: array<Byte>, size: nat)
      requires size <= buf.Length
      ensures Valid() && log == Start && this.buf == buf && this.size == size
    {
      this.buf := buf;
      this.size := size;
      pos, bad := 0, false;
      log := Start;
    }

    method GetU8(ghost done: nat) returns (v: Byte)
      requires size <= buf.Length && Took(done)
      modifies this`pos, this`bad
      ensures Took(done + 1) && Window(buf[..size], done, 1) == [v]
    {
      if pos < size {
        v := buf[pos];
        pos := pos + 1;
      } else {
        bad := true;
        v := 0;
      }
    }

    method GetU16(ghost done: nat) returns (v: Half)
      requires size <= buf.Length && Took(done)
      modifies this`pos, this`bad
      ensures Took(done + 2) && Window(buf[..size], done, 2) == Le(v, 2)
    {
      hide Took, Le, FromLe, Power, Parsed;
      var lo := GetU8(done);
      var hi := GetU8(done + 1);
      v := Join(lo, hi, 0x100);
      Powers();
      LeOfByte(lo);
      LeOfByte(hi);
      LeOfJoin(lo, hi, 1);
      WindowSplit(buf[..size], done, 1, 1);
    }

    method GetU32(ghost done: nat) returns (v: Word)
      requires size <= buf.Length && Took(done)
      modifies this`pos, this`bad
      ensures Took(done + 4) && Window(buf[..size], done, 4) == Le(v, 4)
    {
      hide Took, Le, FromLe, Power, Parsed;
      var lo := GetU16(done);
      var hi := GetU16(done + 2);
      v := Join(lo, hi, 0x10000);
      Powers();
      LeOfJoin(lo, hi, 2);
      WindowSplit(buf[..size], done, 2, 2);
    }

    method GetU64(ghost done: nat) returns (v: Long)
      requires size <= buf.Length && Took(done)
      modifies this`pos, this`bad
      ensures Took(done + 8) && Window(buf[..size], done, 8) == Le(v, 8)
    {
      hide Took, Le, FromLe, Power, Parsed;
      var lo := GetU32(done);
      var hi := GetU32(done + 4);
      v := Join(lo, hi, 0x1_0000_0000);
      Powers();
      LeOfJoin(lo, hi, 4);
      WindowSplit(buf[..size], done, 4, 4);
    }

    method U8() returns (v: Byte)
      requires Valid()
      modifies this
      ensures Valid() && log == old(log).U8(v)
    {
      hide Took, Le, FromLe, Power;
      v := GetU8(Size(log));
      LeOfByte(v);
      Powers();
      ValueOfLe(v, 1);
      log := log.U8(v);
    }

    method U16() returns (v: Half)
      requires Valid()
      modifies this
      ensures Valid() && log == old(log).U16(v)
    {
      hide Took, Le, FromLe, Power;
      v := GetU16(Size(log));
      Powers();
      ValueOfLe(v, 2);
      log := log.U16(v);
    }

    method U32() returns (v: Word)
      requires Valid()
      modifies this
      ensures Valid() && log == old(log).U32(v)
    {
      hide Took, Le, FromLe, Power;
      v := GetU32(Size(log));
      Powers();
      ValueOfLe(v, 4);
      log := log.U32(v);
    }

    method U64() returns (v: Long)
      requires Valid()
      modifies this
      ensures Valid() && log == old(log).U64(v)
    {
      hide Took, Le, FromLe, Power;
      v := GetU64(Size(log));
      Powers();
      ValueOfLe(v, 8);
      log := log.U64(v);
    }

    /** A block of memory; what the blob no longer holds becomes zero. */
    method Block(p: array<Byte>)
      requires Valid() && p != buf
      modifies this, p
      ensures Valid() && log == old(log).Block(p[..])
    {
      hide Window;
      ghost var b, done := buf[..size], Size(log);
      assert Parsed(log, b);
      if pos > size || p.Length > size - pos {
        bad := true;
        Fill(p, size - pos, done);
        pos := size;
      } else {
        Fill(p, p.Length, done);
        pos := pos + p.Length;
      }
      assert buf[..size] == b;
      log := log.Block(p[..]);
    }

    /** The next `have` bytes, then zeroes. */
    method Fill(p: array<Byte>, have: nat, ghost done: nat)
      requires size <= buf.Length && pos + have <= size && have <= p.Length && p != buf
      requires if done <= size then pos == done && (have == p.Length || pos + have == size) else have == 0 && pos == size
      modifies p
      ensures p[..] == Window(buf[..size], done, p.Length)
    {
      forall i | 0 <= i < have {
        p[i] := buf[pos + i];
      }
      forall i | have <= i < p.Length {
        p[i] := 0;
      }
    }
  }
}
