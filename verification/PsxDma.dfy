/** Two DMA modes of the PlayStation: channel 6 builds an empty ordering table in
    RAM, and channel 2 walks a linked list of packets into GP0. */
module PsxDma {
  import opened Words
  import opened PsxGp0
  import opened PsxGp0Parser

  const RAM_WORDS := 0x80000
  const MAX_NODES: nat := 65536

  type Ram = s: seq<Word> | |s| == RAM_WORDS witness seq(RAM_WORDS, _ => 0)

  /** The word k words after address `addr`, RAM mirrored every 2 MiB. */
  function WordIndex(addr: int, k: int): (i: int)
    ensures 0 <= i < RAM_WORDS
  {
    (addr / 4 + k) % RAM_WORDS
  }

  function Link(ram: Ram, node: int): (link: int)
    ensures 0 <= link < 0x1000000
  {
    ram[WordIndex(node, 0)] % 0x1000000
  }

  /** Bit 23 of a 24-bit link ends the list; FFFFFFh has it set too. */
  predicate EndLink(link: int) {
    link >= 0x800000
  }

  function Payload(ram: Ram, node: int): seq<Word> {
    seq(ram[WordIndex(node, 0)] / 0x1000000, i => ram[WordIndex(node, 1 + i)])
  }

  // ---- walking --------------------------------------------------------------

  /** The words the walk sends, taking at most `guard` nodes. */
  function Walk(ram: Ram, next: int, guard: nat): seq<Word>
    decreases guard
  {
    if guard == 0 || EndLink(next) then []
    else Payload(ram, next) + Walk(ram, Link(ram, next), guard - 1)
  }

  /** `nodes` is the list that starts at nodes[0]: each links to the next, the last
      to an end mark. */
  ghost predicate IsList(ram: Ram, nodes: seq<int>) {
    && nodes != []
    && (forall i :: 0 <= i < |nodes| ==> 0 <= nodes[i] && !EndLink(nodes[i]))
    && (forall i :: 0 <= i < |nodes| - 1 ==> Link(ram, nodes[i]) == nodes[i + 1])
    && EndLink(Link(ram, nodes[|nodes| - 1]))
  }

  function Payloads(ram: Ram, nodes: seq<int>): seq<Word>
    decreases |nodes|
  {
    if nodes == [] then [] else Payload(ram, nodes[0]) + Payloads(ram, nodes[1..])
  }

  function Truncate(nodes: seq<int>, guard: nat): seq<int> {
    if |nodes| <= guard then nodes else nodes[..guard]
  }

  /** A walk sends the payloads of the list's nodes in list order, up to the guard;
      with at most `guard` nodes that is all of them. */
  lemma {:induction false} WalkSendsPayloads(ram: Ram, nodes: seq<int>, guard: nat)
    requires IsList(ram, nodes)
    ensures Walk(ram, nodes[0], guard) == Payloads(ram, Truncate(nodes, guard))
    decreases guard
  {
    if guard > 0 {
      var link := Link(ram, nodes[0]);
      PayloadsStep(ram, nodes, guard);
      WalkStep(ram, nodes[0], guard);
      if |nodes| == 1 {
        assert Walk(ram, link, guard - 1) == [];
        assert Truncate(nodes[1..], guard - 1) == [];
      } else {
        ListTail(ram, nodes);
        WalkSendsPayloads(ram, nodes[1..], guard - 1);
      }
    }
  }

  lemma PayloadsStep(ram: Ram, nodes: seq<int>, guard: nat)
    requires nodes != [] && guard > 0
    ensures Payloads(ram, Truncate(nodes, guard))
         == Payload(ram, nodes[0]) + Payloads(ram, Truncate(nodes[1..], guard - 1))
  {
    assert Truncate(nodes, guard)[1..] == Truncate(nodes[1..], guard - 1);
  }

  lemma WalkStep(ram: Ram, node: int, guard: nat)
    requires guard > 0 && !EndLink(node)
    ensures Walk(ram, node, guard) == Payload(ram, node) + Walk(ram, Link(ram, node), guard - 1)
  {
  }

  lemma ListTail(ram: Ram, nodes: seq<int>)
    requires IsList(ram, nodes) && |nodes| > 1
    ensures IsList(ram, nodes[1..]) && Link(ram, nodes[0]) == nodes[1..][0]
  {
    assert forall i :: 0 <= i < |nodes| - 1 ==> nodes[1..][i] == nodes[i + 1];
    assert Link(ram, nodes[0]) == nodes[0 + 1];
  }

  /** A list that ends cannot visit a node twice. */
  lemma {:induction false} ListHasNoCycle(ram: Ram, nodes: seq<int>, i: nat, j: nat)
    requires IsList(ram, nodes) && i < j < |nodes|
    ensures nodes[i] != nodes[j]
    decreases |nodes| - j
  {
    assert Link(ram, nodes[i]) == nodes[i + 1];
    if j < |nodes| - 1 {
      assert Link(ram, nodes[j]) == nodes[j + 1];
      ListHasNoCycle(ram, nodes, i + 1, j + 1);
    }
  }

  /** One packet, in terms of the memory alone: its header holds the word count above
      the 24-bit link, its words follow upwards, and they are sent in that order
      before the walk goes on at the link. RAM repeats every 2 MiB, so a packet may
      run over its end; an address off the word grid is rounded down. */
  lemma PacketSent(ram: Ram, a: int, guard: nat, ws: seq<Word>, link: int)
    requires 0 <= a < 0x800000 && guard > 0
    requires |ws| < 0x100 && 0 <= link < 0x1000000
    requires ram[a / 4 % RAM_WORDS] == |ws| * 0x1000000 + link
    requires forall i :: 0 <= i < |ws| ==> ram[(a / 4 + 1 + i) % RAM_WORDS] == ws[i]
    ensures Walk(ram, a, guard) == ws + Walk(ram, link, guard - 1)
  {
    DivModUnique(0x1000000, |ws|, link);
    assert WordIndex(a, 0) == a / 4 % RAM_WORDS;
    forall i | 0 <= i < |ws|
      ensures ws[i] == ram[WordIndex(a, 1 + i)]
    {
      assert ram[(a / 4 + 1 + i) % RAM_WORDS] == ws[i];
      assert a / 4 + (1 + i) == a / 4 + 1 + i;
    }
    assert Payload(ram, a) == ws;
    WalkStep(ram, a, guard);
  }

  /** Where the walk stops: at a link with bit 23 set, or when the node guard is
      used up. */
  lemma WalkStops(ram: Ram, next: int, guard: nat)
    requires guard == 0 || 0x800000 <= next < 0x1000000
    ensures Walk(ram, next, guard) == []
  {
    WalkEnds(ram, next, guard);
  }

  // ---- the ordering table ---------------------------------------------------

  /** The entry count: bcr's low half, with zero standing for 65536. */
  function TableLength(bcr: Word): (n: int)
    ensures 0 < n <= 0x10000 && n % 0x10000 == bcr % 0x10000
  {
    if bcr % 0x10000 == 0 then 0x10000 else bcr % 0x10000
  }

  /** Entry i of n, at base - 4i, links to the entry below; the last one ends. */
  function TableLink(base: int, n: int, i: int): Word {
    if i == n - 1 then 0xFFFFFF else (base - 4 * i - 4) % 0x1000000
  }

  /** The entry a RAM word holds, counted from the base downwards. */
  function Entry(base: int, w: int): (i: int)
    ensures 0 <= i < RAM_WORDS
  {
    (base / 4 - w) % RAM_WORDS
  }

  function WithTable(ram: Ram, base: int, n: int, built: int): Ram {
    seq(RAM_WORDS, w requires 0 <= w < RAM_WORDS =>
      if Entry(base, w) < built then TableLink(base, n, Entry(base, w)) else ram[w])
  }

  /** 256 to the k. */
  function Unit(k: int): (p: int)
    ensures p in {1, 0x100, 0x10000, 0x1000000}
  {
    if k <= 0 then 1 else if k == 1 then 0x100 else if k == 2 then 0x10000 else 0x1000000
  }

  /** The word `w` with its bytes from k up replaced by the low bytes of v. */
  function UpperPart(w: Word, v: Word, k: int): Word
    requires 0 < k < 4
  {
    w % Unit(k) + Unit(k) * (v % Unit(4 - k))
  }

  /** The word `w` with its k low bytes replaced by the high bytes of v. */
  function LowerPart(w: Word, v: Word, k: int): Word
    requires 0 < k < 4
  {
    LowerFits(w, v, k);
    w / Unit(k) * Unit(k) + v / Unit(4 - k)
  }

  lemma LowerFits(w: Word, v: Word, k: int)
    requires 0 < k < 4
    ensures 0 <= w / Unit(k) * Unit(k) + v / Unit(4 - k) < 0x1_0000_0000
    ensures (w / Unit(k) * Unit(k) + v / Unit(4 - k)) / Unit(k) == w / Unit(k)
  {
  }

  /** A 32-bit store at any byte of RAM; bytes past its end are lost. */
  function PutWord(ram: Ram, off: int, v: Word): Ram
    requires 0 <= off < 4 * RAM_WORDS
  {
    var w, k := off / 4, off % 4;
    if k == 0 then ram[w := v]
    else
      var low := ram[w := UpperPart(ram[w], v, k)];
      if w + 1 < RAM_WORDS then low[w + 1 := LowerPart(ram[w + 1], v, k)] else low
  }

  /** The first i stores of a table of n entries. */
  function Built(ram: Ram, base: int, n: nat, i: nat): Ram {
    if i == 0 then ram
    else PutWord(Built(ram, base, n, i - 1), (base - 4 * (i - 1)) % 0x200000, TableLink(base, n, i - 1))
  }

  lemma EntryWord(base: int, i: int)
    requires base % 4 == 0 && 0 <= i < RAM_WORDS
    ensures Entry(base, WordIndex(base - 4 * i, 0)) == i
  {
    assert (base - 4 * i) / 4 == base / 4 - i;
  }

  function TableNodes(base: int, n: nat): seq<int> {
    seq(n, i => base - 4 * i)
  }

  lemma TableEntry(ram: Ram, base: int, n: nat, i: int)
    requires base % 4 == 0 && 0 <= i < n <= MAX_NODES
    ensures var built, node := WithTable(ram, base, n, n), base - 4 * i;
      Link(built, node) == TableLink(base, n, i) && Payload(built, node) == []
  {
    EntryWord(base, i);
  }

  lemma TableLinkValue(base: int, n: nat, i: int)
    requires base < 0x800000 && 0 <= i < n && 4 * i <= base
    ensures !EndLink(base - 4 * i)
    ensures i < n - 1 && 4 * (i + 1) <= base ==> TableLink(base, n, i) == base - 4 * (i + 1)
    ensures i == n - 1 || base < 4 * (i + 1) ==> EndLink(TableLink(base, n, i))
  {
  }

  /** Memory that holds an n-entry table at `base`. */
  ghost predicate HasTable(ram: Ram, base: int, n: nat) {
    forall i :: 0 <= i < n ==> IsEntry(ram, base, n, i)
  }

  predicate IsEntry(ram: Ram, base: int, n: nat, i: int) {
    Link(ram, base - 4 * i) == TableLink(base, n, i) && Payload(ram, base - 4 * i) == []
  }

  lemma BuiltTable(ram: Ram, base: int, n: nat)
    requires base % 4 == 0 && n <= MAX_NODES
    ensures HasTable(Built(ram, base, n, n), base, n)
  {
    hide WithTable, Built;
    BuiltAligned(ram, base, n, n);
    forall i | 0 <= i < n
      ensures IsEntry(Built(ram, base, n, n), base, n, i)
    {
      TableEntry(ram, base, n, i);
    }
  }

  /** The first m of the n entries are a list when they end the table, or when the
      next one would lie below address zero. */
  lemma TableList(ram: Ram, base: int, n: nat, m: nat)
    requires HasTable(ram, base, n) && 0 < m <= n
    requires 4 * (m - 1) <= base < 0x800000
    requires m == n || base < 4 * m
    ensures IsList(ram, TableNodes(base, m))
    ensures forall i :: 0 <= i < m ==> Payload(ram, TableNodes(base, m)[i]) == []
  {
    var nodes := TableNodes(base, m);
    forall i | 0 <= i < m
      ensures 0 <= nodes[i] && !EndLink(nodes[i]) && Payload(ram, nodes[i]) == []
      ensures if i < m - 1 then Link(ram, nodes[i]) == nodes[i + 1] else EndLink(Link(ram, nodes[i]))
    {
      assert IsEntry(ram, base, n, i);
      TableLinkValue(base, n, i);
    }
    assert IsEntry(ram, base, n, m - 1);
    TableLinkValue(base, n, m - 1);
  }

  /** At an aligned base below 8 MiB the table of n entries is a list; it has all n
      nodes exactly if there is room for them above address zero. Otherwise the
      links run into the address wrap-around and the list ends early. From 8 MiB up
      the walk does not even start. Either way it sends nothing. */
  lemma TableIsList(ram: Ram, base: int, n: nat)
    requires HasTable(ram, base, n)
    requires base % 4 == 0 && 0 < n <= MAX_NODES && 0 <= base < 0x1000000
    ensures Walk(ram, base, MAX_NODES) == []
    ensures base < 0x800000 ==>
      var m := if 4 * (n - 1) <= base then n else base / 4 + 1;
      && (m == n <==> 4 * (n - 1) <= base)
      && IsList(ram, TableNodes(base, m))
  {
    if base < 0x800000 {
      var m := if 4 * (n - 1) <= base then n else base / 4 + 1;
      TableList(ram, base, n, m);
      WalkSendsPayloads(ram, TableNodes(base, m), MAX_NODES);
      EmptyPayloads(ram, TableNodes(base, m));
    } else {
      WalkEnds(ram, base, MAX_NODES);
    }
  }

  lemma {:induction false} EmptyPayloads(ram: Ram, nodes: seq<int>)
    requires forall i :: 0 <= i < |nodes| ==> Payload(ram, nodes[i]) == []
    ensures Payloads(ram, nodes) == []
    decreases |nodes|
  {
    if nodes != [] {
      assert forall i :: 0 <= i < |nodes| - 1 ==> nodes[1..][i] == nodes[i + 1];
      EmptyPayloads(ram, nodes[1..]);
    }
  }

  /** The list, through the port: the GPU ends where the commands of the
      concatenated payloads lead, however packets and commands straddle nodes. */
  lemma ListReachesGpu(env: Renderer, g: Gpu, ram: Ram, nodes: seq<int>)
    requires IsList(ram, nodes) && |nodes| <= MAX_NODES && g.framer.Idle?
    ensures var p := Parse(Payloads(ram, nodes));
      && (forall c :: c in p.commands ==> WellFormed(c))
      && Run(env, g, Walk(ram, nodes[0], MAX_NODES)) == Resume(ExecuteAll(env, g, p.commands), p.rest)
  {
    WalkSendsPayloads(ram, nodes, MAX_NODES);
    PortRefinesParser(env, g, Payloads(ram, nodes));
  }

  /** The RAM word that the build loop's address counter points at. */
  function Cursor(cur: int): (w: int)
    ensures 0 <= w < RAM_WORDS
  {
    cur % 0x200000 / 4
  }

  lemma CursorIsEntry(base: int, i: int, w: int)
    requires base % 4 == 0 && 0 <= i < RAM_WORDS && 0 <= w < RAM_WORDS
    ensures Entry(base, w) == i <==> w == Cursor(base - 4 * i)
  {
    var b := base / 4;
    assert Cursor(base - 4 * i) == (b - i) % RAM_WORDS;
  }

  lemma LowBits(base: int, i: int)
    ensures Wrap(base - 4 * i) % 0x200000 == (base - 4 * i) % 0x200000
    ensures Plus(Wrap(base - 4 * i), -4) % 0x1000000 == (base - 4 * i - 4) % 0x1000000
  {
    ModOfMod(base - 4 * i, 0x200000, 0x800);
    WrapAdd(base - 4 * i, -4);
    ModOfMod(base - 4 * i - 4, 0x1000000, 0x100);
  }

  /** One store of the build loop. */
  lemma TableGrows(ram: Ram, base: int, n: int, i: int)
    requires base % 4 == 0 && 0 <= i < n <= MAX_NODES
    ensures WithTable(ram, base, n, i)[Cursor(base - 4 * i) := TableLink(base, n, i)]
         == WithTable(ram, base, n, i + 1)
  {
    var a, b := WithTable(ram, base, n, i), WithTable(ram, base, n, i + 1);
    var c := a[Cursor(base - 4 * i) := TableLink(base, n, i)];
    forall w | 0 <= w < RAM_WORDS
      ensures b[w] == c[w]
    {
      CursorIsEntry(base, i, w);
    }
  }

  lemma {:induction false} BuiltAligned(ram: Ram, base: int, n: nat, i: nat)
    requires base % 4 == 0 && i <= n <= MAX_NODES
    ensures Built(ram, base, n, i) == WithTable(ram, base, n, i)
    decreases i
  {
    hide TableLink;
    if i == 0 {
      assert WithTable(ram, base, n, 0) == ram;
    } else {
      BuiltAligned(ram, base, n, i - 1);
      TableGrows(ram, base, n, i - 1);
      AlignedOffset(base, i - 1);
    }
  }

  lemma AlignedOffset(base: int, i: int)
    requires base % 4 == 0
    ensures (base - 4 * i) % 0x200000 % 4 == 0
  {
    ModOfMod(base - 4 * i, 4, 0x80000);
  }

  /** The built table, in terms of the memory alone: the word i places below the base
      links to the address 4(i + 1) below it, the last of the n words holds FFFFFFh,
      and every other word is as before. */
  lemma TableInMemory(ram: Ram, base: int, n: nat, w: int)
    requires base % 4 == 0 && 0 < n <= MAX_NODES && 0 <= w < RAM_WORDS
    ensures var i := (base / 4 - w) % RAM_WORDS;
      Built(ram, base, n, n)[w] ==
        if i < n - 1 then (base - 4 * (i + 1)) % 0x1000000
        else if i == n - 1 then 0xFFFFFF
        else ram[w]
  {
    hide Built;
    BuiltAligned(ram, base, n, n);
  }

  /** The byte at address `off`: four to a word, low byte first. */
  function ByteAt(ram: Ram, off: int): (b: int)
    requires 0 <= off < 4 * RAM_WORDS
    ensures 0 <= b < 0x100
  {
    ByteOf(ram[off / 4], off % 4)
  }

  function ByteOf(w: Word, k: int): (b: int)
    requires 0 <= k < 4
    ensures 0 <= b < 0x100
    ensures k == 0 ==> b == w % 0x100
    ensures k == 1 ==> b == w / 0x100 % 0x100
    ensures k == 2 ==> b == w / 0x10000 % 0x100
    ensures k == 3 ==> b == w / 0x1000000
  {
    w / Unit(k) % 0x100
  }

  /** A 32-bit store at any byte, byte by byte: v's bytes from `off` up, low first, as
      far as RAM goes, and no other byte changes. */
  lemma PutWordBytes(ram: Ram, off: int, v: Word, b: int)
    requires 0 <= off < 4 * RAM_WORDS && 0 <= b < 4 * RAM_WORDS
    ensures ByteAt(PutWord(ram, off, v), b)
         == if off <= b < off + 4 then ByteOf(v, b - off) else ByteAt(ram, b)
  {
    hide UpperPart, LowerPart, ByteOf;
    var k, w, j := off % 4, b / 4, b % 4;
    if k != 0 {
      PutWordAt(ram, off, v, w);
      if w == off / 4 {
        UpperBytes(ram[w], v, k, j);
      } else if w == off / 4 + 1 {
        LowerBytes(ram[w], v, k, j);
      }
    }
  }

  lemma UpperBytes(w: Word, v: Word, k: int, j: int)
    requires 0 < k < 4 && 0 <= j < 4
    ensures ByteOf(UpperPart(w, v, k), j) == if j < k then ByteOf(w, j) else ByteOf(v, j - k)
  {
    var a, b, c, d := SplitBytes(w);
    var p, q, r, s := SplitBytes(v);
    if k == 1 {
      JoinedBytes(UpperPart(w, v, k), a, p, q, r);
    } else if k == 2 {
      JoinedBytes(UpperPart(w, v, k), a, b, p, q);
    } else {
      JoinedBytes(UpperPart(w, v, k), a, b, c, p);
    }
  }

  lemma LowerBytes(w: Word, v: Word, k: int, j: int)
    requires 0 < k < 4 && 0 <= j < 4
    ensures ByteOf(LowerPart(w, v, k), j) == if j < k then ByteOf(v, 4 - k + j) else ByteOf(w, j)
  {
    var a, b, c, d := SplitBytes(w);
    var p, q, r, s := SplitBytes(v);
    if k == 1 {
      JoinedBytes(LowerPart(w, v, k), s, b, c, d);
    } else if k == 2 {
      JoinedBytes(LowerPart(w, v, k), r, s, c, d);
    } else {
      JoinedBytes(LowerPart(w, v, k), q, r, s, d);
    }
  }

  lemma JoinedBytes(w: int, a: Byte, b: Byte, c: Byte, d: Byte)
    requires w == a + 0x100 * b + 0x10000 * c + 0x1000000 * d
    ensures 0 <= w < 0x1_0000_0000
    ensures ByteOf(w, 0) == a && ByteOf(w, 1) == b && ByteOf(w, 2) == c && ByteOf(w, 3) == d
    ensures w % 0x100 == a && w % 0x10000 == a + 0x100 * b && w % 0x1000000 == a + 0x100 * b + 0x10000 * c
    ensures w / 0x100 == b + 0x100 * c + 0x10000 * d && w / 0x10000 == c + 0x100 * d && w / 0x1000000 == d
  {    hide Unit, ByteOf;
    DivModUnique(0x100, b + 0x100 * c + 0x10000 * d, a);
    DivModUnique(0x10000, c + 0x100 * d, a + 0x100 * b);
    DivModUnique(0x1000000, d, a + 0x100 * b + 0x10000 * c);
    DivModUnique(0x100, c + 0x100 * d, b);
    DivModUnique(0x100, d, c);
  }

  lemma SplitBytes(w: Word) returns (a: Byte, b: Byte, c: Byte, d: Byte)
    ensures w == a + 0x100 * b + 0x10000 * c + 0x1000000 * d
    ensures ByteOf(w, 0) == a && ByteOf(w, 1) == b && ByteOf(w, 2) == c && ByteOf(w, 3) == d
    ensures w % 0x100 == a && w % 0x10000 == a + 0x100 * b && w % 0x1000000 == a + 0x100 * b + 0x10000 * c
    ensures w / 0x100 == b + 0x100 * c + 0x10000 * d && w / 0x10000 == c + 0x100 * d && w / 0x1000000 == d
  {
    hide Unit, ByteOf;
    var x := w / 0x100;
    var y := x / 0x100;
    a, b, c, d := w % 0x100, x % 0x100, y % 0x100, y / 0x100;
    JoinedBytes(w, a, b, c, d);
  }

  // ---- tables off the word grid ---------------------------------------------

  /** The offset of entry i of a table at an unaligned base. */
  lemma EntryOffset(base: int, i: int)
    requires 0 <= i < RAM_WORDS
    ensures var off := (base - 4 * i) % 0x200000;
      off % 4 == base % 4 && off / 4 == (base / 4 - i) % RAM_WORDS
  {
    var k, b := base % 4, base / 4;
    assert base - 4 * i == 4 * (b - i) + k;
    var q, r := (b - i) / RAM_WORDS, (b - i) % RAM_WORDS;
    assert base - 4 * i == q * 0x200000 + (4 * r + k);
    DivModUnique(0x200000, q, 4 * r + k);
  }

  lemma Distance(b: int, i: int)
    requires 0 <= i < RAM_WORDS
    ensures (b - i) % RAM_WORDS == b % RAM_WORDS ==> i == 0
    ensures (b - i) % RAM_WORDS + 1 == b % RAM_WORDS ==> i == 1
  {
    var q, r := (b - i) / RAM_WORDS, (b - i) % RAM_WORDS;
    assert b == q * RAM_WORDS + (r + i);
    if r + i < RAM_WORDS {
      DivModUnique(RAM_WORDS, q, r + i);
    } else {
      DivModUnique(RAM_WORDS, q + 1, r + i - RAM_WORDS);
    }
  }

  lemma PutWordAt(ram: Ram, off: int, v: Word, w: int)
    requires 0 <= off < 4 * RAM_WORDS && off % 4 != 0 && 0 <= w < RAM_WORDS
    ensures PutWord(ram, off, v)[w] ==
      if w == off / 4 then UpperPart(ram[w], v, off % 4)
      else if w == off / 4 + 1 then LowerPart(ram[w], v, off % 4)
      else ram[w]
  {
    hide UpperPart, LowerPart;
  }

  lemma BuiltStep(ram: Ram, base: int, n: nat, i: nat)
    requires i > 0
    ensures Built(ram, base, n, 0) == ram
    ensures Built(ram, base, n, i)
         == PutWord(Built(ram, base, n, i - 1), (base - 4 * (i - 1)) % 0x200000, TableLink(base, n, i - 1))
  {
    hide PutWord;
  }

  /** The part of the first entry in its own word outlives the other stores. */
  lemma {:induction false} FirstPartStays(ram: Ram, base: int, n: nat, i: nat)
    requires base % 4 != 0 && 0 < i <= n <= MAX_NODES
    ensures var w, p := WordIndex(base, 0), Unit(base % 4);
      Built(ram, base, n, i)[w] / p == UpperPart(ram[w], TableLink(base, n, 0), base % 4) / p
    decreases i
  {
    hide TableLink, UpperPart, LowerPart, Unit, PutWord, Built;
    var w := WordIndex(base, 0);
    var before, off, v := Built(ram, base, n, i - 1), (base - 4 * (i - 1)) % 0x200000, TableLink(base, n, i - 1);
    BuiltStep(ram, base, n, i);
    EntryOffset(base, i - 1);
    PutWordAt(before, off, v, w);
    Distance(base / 4, i - 1);
    if i > 1 {
      FirstPartStays(ram, base, n, i - 1);
      LowerKeeps(before[w], v, base % 4);
    }
  }

  lemma LowerKeeps(w: Word, v: Word, k: int)
    requires 0 < k < 4
    ensures LowerPart(w, v, k) / Unit(k) == w / Unit(k)
  {
    LowerFits(w, v, k);
  }

  lemma Units(k: int)
    requires 0 < k < 4
    ensures Unit(4 - k) == 0x100 * Unit(3 - k) && Unit(k) * Unit(3 - k) == 0x1000000
  {
  }

  lemma TopByte(was: Word, v: Word, k: int, w: Word)
    requires 0 < k < 4 && w / Unit(k) == UpperPart(was, v, k) / Unit(k)
    ensures w / 0x1000000 == v / Unit(3 - k) % 0x100
  {
    hide Unit;
    Units(k);
    DivModUnique(Unit(k), v % Unit(4 - k), was % Unit(k));
    DivTwice(w, Unit(k), Unit(3 - k));
    DivOfMod(v, Unit(3 - k), 0x100);
  }

  /** Off the word grid the walk's first header straddles two entries: its word
      count is a byte of the first entry's link, and never zero for a single entry
      or at three bytes past a word. */
  lemma UnalignedTableSends(ram: Ram, base: int, n: nat)
    requires base % 4 != 0 && 0 < n <= MAX_NODES && 0 <= base < 0x800000
    ensures var built := Built(ram, base, n, n);
      var count := TableLink(base, n, 0) / Unit(3 - base % 4) % 0x100;
      && |Payload(built, base)| == count && |Walk(built, base, MAX_NODES)| >= count
      && (n == 1 || base % 4 == 3 ==> count > 0)
  {
    hide Unit, TableLink, Built, UpperPart, Walk;
    var k, w := base % 4, WordIndex(base, 0);
    var built := Built(ram, base, n, n);
    FirstPartStays(ram, base, n, n);
    TopByte(ram[w], TableLink(base, n, 0), k, built[w]);
    WalkStep(built, base, MAX_NODES);
    if n == 1 || k == 3 {
      LinkByte(base, n);
    }
  }

  lemma LinkByte(base: int, n: int)
    requires base % 4 != 0 && (n == 1 || base % 4 == 3)
    ensures TableLink(base, n, 0) / Unit(3 - base % 4) % 0x100 > 0
  {
    if n == 1 {
      EndByte(base % 4);
    } else {
      LowTwoBits(base - 4);
      ModShift(base, 1, 4);
      NonzeroByte((base - 4) % 0x1000000);
    }
  }

  lemma EndByte(k: int)
    requires 0 < k < 4
    ensures 0xFFFFFF / Unit(3 - k) % 0x100 == 0xFF
  {
  }

  lemma LowTwoBits(v: int)
    ensures v % 0x1000000 % 4 == v % 4
  {
    ModOfMod(v, 4, 0x400000);
  }

  lemma NonzeroByte(v: int)
    requires v % 4 == 3
    ensures v / Unit(0) % 0x100 > 0
  {
    ModOfMod(v, 4, 0x40);
  }

  // ---- the controller -------------------------------------------------------

  class Dma {
    const ram: array<Word>
    /** Every word written to GP0 so far. */
    var gp0: seq<Word>

    constructor ()
      ensures ram.Length == RAM_WORDS && fresh(ram) && gp0 == []
    {
      ram := new Word[RAM_WORDS](_ => 0);
      gp0 := [];
    }

    /** A 32-bit store at any byte. */
    method RamWrite32(off: int, v: Word)
      requires ram.Length == RAM_WORDS && 0 <= off < 4 * RAM_WORDS
      modifies ram
      ensures ram[..] == PutWord(old(ram[..]), off, v)
    {
      hide UpperPart, LowerPart;
      var w, k := off / 4, off % 4;
      if k == 0 {
        ram[w] := v;
        return;
      }
      ram[w] := UpperPart(ram[w], v, k);
      if w + 1 < RAM_WORDS {
        ram[w + 1] := LowerPart(ram[w + 1], v, k);
      }
    }

    /** Channel 6: entries downwards from the base address. */
    method BuildTable(madr: Word, bcr: Word)
      requires ram.Length == RAM_WORDS
      modifies ram
      ensures ram[..] == Built(old(ram[..]), madr % 0x1000000, TableLength(bcr), TableLength(bcr))
    {
      hide PutWord;
      ghost var before: Ram := ram[..];
      var addr := madr % 0x1000000;
      var n := TableLength(bcr);
      var cur: Word := addr;
      var i := 0;
      while i < n
        invariant 0 <= i <= n && cur == Wrap(addr - 4 * i)
        invariant ram[..] == Built(before, addr, n, i)
      {
        LowBits(addr, i);
        RamWrite32(cur % 0x200000, if i == n - 1 then 0xFFFFFF else Plus(cur, -4) % 0x1000000);
        WrapAdd(addr - 4 * i, -4);
        cur := Plus(cur, -4);
        i := i + 1;
      }
    }

    method Fetch(next: int, i: int) returns (v: Word)
      requires ram.Length == RAM_WORDS && 0 <= next && 0 <= i < |Payload(ram[..], next)|
      ensures v == Payload(ram[..], next)[i]
    {
      hide WordIndex;
      var p0 := (next + 4) / 4 * 4;
      FetchIndex(next, i);
      v := ram[(p0 + 4 * i) % 0x200000 / 4];
    }

    method Header(next: int) returns (hdr: Word)
      requires ram.Length == RAM_WORDS && 0 <= next
      ensures hdr / 0x1000000 == |Payload(ram[..], next)|
      ensures hdr % 0x1000000 == Link(ram[..], next)
    {
      hide WordIndex;
      HeaderIndex(next);
      hdr := ram[next % 0x200000 / 4];
    }

    /** One node: its words to GP0, and the link it holds. */
    method SendNode(next: int) returns (link: int)
      requires ram.Length == RAM_WORDS && 0 <= next
      modifies this`gp0
      ensures gp0 == old(gp0) + Payload(ram[..], next) && link == Link(ram[..], next)
    {
      ghost var words := Payload(ram[..], next);
      var hdr := Header(next);
      var count := hdr / 0x1000000;
      var i := 0;
      while i < count
        invariant 0 <= i <= count
        invariant gp0 == old(gp0) + words[..i]
      {
        var v := Fetch(next, i);
        gp0 := gp0 + [v];
        i := i + 1;
      }
      assert words[..i] == words;
      link := hdr % 0x1000000;
    }

    /** Channel 2, linked-list mode: 65536 nodes at most. */
    method WalkList(madr: Word)
      requires ram.Length == RAM_WORDS
      modifies this`gp0
      ensures gp0 == old(gp0) + Walk(ram[..], madr % 0x1000000, 65536)
    {
      WalkFrom(madr % 0x1000000);
    }

    method WalkFrom(start: int)
      requires ram.Length == RAM_WORDS && 0 <= start
      modifies this`gp0
      ensures gp0 == old(gp0) + Walk(ram[..], start, MAX_NODES)
    {
      hide Walk, Payload, Link;
      ghost var mem: Ram, sent: seq<Word> := ram[..], [];
      var next, guard := start, 0;
      while guard < 65536
        invariant 0 <= guard <= 65536 && 0 <= next
        invariant gp0 == old(gp0) + sent
        invariant sent + Walk(mem, next, 65536 - guard) == Walk(mem, start, MAX_NODES)
      {
        if next >= 0x800000 {
          break;
        }
        WalkStep(mem, next, 65536 - guard);
        ghost var words, rest := Payload(mem, next), Walk(mem, Link(mem, next), 65536 - guard - 1);
        next := SendNode(next);
        guard := guard + 1;
        assert sent + (words + rest) == (sent + words) + rest;
        sent := sent + words;
        if next == 0xFFFFFF {
          break;
        }
      }
      WalkEnds(mem, next, 65536 - guard);
    }
  }

  lemma FetchIndex(next: int, i: int)
    requires 0 <= next && 0 <= i
    ensures ((next + 4) / 4 * 4 + 4 * i) % 0x200000 / 4 == WordIndex(next, 1 + i)
  {
    var a := next / 4 + 1 + i;
    assert (next + 4) / 4 == next / 4 + 1;
    WordOffset(a);
  }

  lemma HeaderIndex(next: int)
    requires 0 <= next
    ensures next % 0x200000 / 4 == WordIndex(next, 0)
  {
    DivOfMod(next, 4, RAM_WORDS);
  }

  lemma WordOffset(a: int)
    requires 0 <= a
    ensures 4 * a % 0x200000 / 4 == a % RAM_WORDS
  {
    DivOfMod(4 * a, 4, RAM_WORDS);
    DivModUnique(4, a, 0);
  }

  lemma WalkEnds(ram: Ram, next: int, guard: nat)
    requires guard == 0 || EndLink(next)
    ensures Walk(ram, next, guard) == []
  {
  }
}
