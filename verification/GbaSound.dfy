/** The two direct-sound FIFOs of the Game Boy Advance and the DMA channels that
    refill them: bytes are queued by the CPU or by a refill, and popped one per
    overflow of the selected timer. */
module GbaSound {
  import opened Words

  const DEPTH: nat := 32
  const LEVEL: nat := 16

  /** `cur` and `has` are the sample being played, or silence. */
  datatype Fifo = Fifo(queue: seq<Byte>, cur: Byte, has: bool)

  datatype Channel = Channel(enabled: bool, ctrl: Half, sad: Word)

  datatype Sound = Sound(fifo: seq<Fifo>, dma: seq<Channel>)

  /** What a word-aligned bus read of the source memory returns. */
  type Source = Word -> Word

  predicate Valid(s: Sound) {
    |s.fifo| == 2 && |s.dma| == 4 && |s.fifo[0].queue| <= DEPTH && |s.fifo[1].queue| <= DEPTH
  }

  // ---- one FIFO -------------------------------------------------------------

  function Bytes(v: Word): (b: seq<Byte>)
    ensures |b| == 4
  {
    [v % 0x100, v / 0x100 % 0x100, v / 0x10000 % 0x100, v / 0x1000000]
  }

  lemma BytesInOrder(v: Word)
    ensures Bytes(v) == [v % 0x100, v / 0x100 % 0x100, v / 0x10000 % 0x100, v / 0x1000000]
  {
  }

  /** Bytes that no longer fit are dropped. */
  function Append(q: seq<Byte>, bytes: seq<Byte>): (r: seq<Byte>)
    requires |q| <= DEPTH
    ensures |r| <= DEPTH
  {
    q + if |q| + |bytes| <= DEPTH then bytes else bytes[..DEPTH - |q|]
  }

  // ---- DMA ------------------------------------------------------------------

  /** Enabled with start timing 3. */
  predicate Live(c: Channel) {
    c.enabled && c.ctrl / 0x1000 % 4 == 3
  }

  predicate FixedSource(c: Channel) {
    c.ctrl / 0x80 % 4 == 2
  }

  /** Channels 1 and 2 serve FIFO 0, channels 2 and 3 FIFO 1, lower number first. */
  function Server(s: Sound, f: int): (ch: int)
    requires Valid(s) && 0 <= f < 2
    ensures ch == -1 || (1 + f <= ch <= 2 + f && Live(s.dma[ch]))
  {
    if Live(s.dma[1 + f]) then 1 + f else if Live(s.dma[2 + f]) then 2 + f else -1
  }

  function Step4(fixed: bool): int {
    if fixed then 0 else 4
  }

  /** n words from the source into a queue. */
  function Refill(q: seq<Byte>, src: Source, sad: Word, fixed: bool, n: nat): (r: (seq<Byte>, Word))
    requires |q| <= DEPTH
    ensures |r.0| <= DEPTH
    decreases n
  {
    if n == 0 then (q, sad)
    else Refill(Append(q, Bytes(src(AlignDown(sad)))), src, Plus(sad, Step4(fixed)), fixed, n - 1)
  }

  /** A refill request: four words by the serving channel, if there is one. */
  function Request(s: Sound, src: Source, f: int): (s2: Sound)
    requires Valid(s) && 0 <= f < 2
    ensures Valid(s2)
  {
    var ch := Server(s, f);
    if ch == -1 then s
    else
      var (q, sad) := Refill(s.fifo[f].queue, src, s.dma[ch].sad, FixedSource(s.dma[ch]), 4);
      Sound(s.fifo[f := s.fifo[f].(queue := q)], s.dma[ch := s.dma[ch].(sad := sad)])
  }

  function RequestIfLow(s: Sound, src: Source, f: int): (s2: Sound)
    requires Valid(s) && 0 <= f < 2
    ensures Valid(s2)
  {
    if |s.fifo[f].queue| <= LEVEL then Request(s, src, f) else s
  }

  // ---- events ---------------------------------------------------------------

  /** A byte, halfword or word store to the FIFO's address. */
  function CpuWrite(s: Sound, src: Source, f: int, bytes: seq<Byte>): (s2: Sound)
    requires Valid(s) && 0 <= f < 2
    ensures Valid(s2)
  {
    RequestIfLow(s.(fifo := s.fifo[f := s.fifo[f].(queue := Append(s.fifo[f].queue, bytes))]), src, f)
  }

  /** An overflow of the selected timer. An empty FIFO plays silence and does not
      ask for a refill. */
  function Pop(s: Sound, src: Source, f: int): (s2: Sound)
    requires Valid(s) && 0 <= f < 2
    ensures Valid(s2)
  {
    var q := s.fifo[f].queue;
    if q == [] then s.(fifo := s.fifo[f := Fifo([], 0, false)])
    else RequestIfLow(s.(fifo := s.fifo[f := Fifo(q[1..], q[0], true)]), src, f)
  }

  // ---- refills never drop ---------------------------------------------------

  /** Byte i of what a channel at `sad` will deliver. */
  function SourceByte(src: Source, sad: Word, fixed: bool, i: nat): Byte {
    Bytes(src(AlignDown(Plus(sad, Step4(fixed) * (i / 4)))))[i % 4]
  }

  function SourceBytes(src: Source, sad: Word, fixed: bool, n: nat): (b: seq<Byte>)
    ensures |b| == n
  {
    seq(n, i requires 0 <= i < n => SourceByte(src, sad, fixed, i))
  }

  lemma PlusPlus(v: Word, a: int, b: int)
    ensures Plus(Plus(v, a), b) == Plus(v, a + b)
  {
    WrapAdd(v + a, b);
  }

  /** The source from one word further on. */
  lemma SourceShift(src: Source, sad: Word, fixed: bool, i: nat)
    ensures SourceByte(src, Plus(sad, Step4(fixed)), fixed, i) == SourceByte(src, sad, fixed, i + 4)
  {
    hide Bytes, AlignDown, Plus;
    PlusPlus(sad, Step4(fixed), Step4(fixed) * (i / 4));
    assert (i + 4) / 4 == i / 4 + 1 && (i + 4) % 4 == i % 4;
    assert Step4(fixed) * (i / 4 + 1) == Step4(fixed) + Step4(fixed) * (i / 4);
  }

  /** With room for them, n words arrive whole and in order, and the channel moves
      on by as many. */
  lemma {:induction false} RefillInOrder(q: seq<Byte>, src: Source, sad: Word, fixed: bool, n: nat)
    requires |q| + 4 * n <= DEPTH
    ensures Refill(q, src, sad, fixed, n) == (q + SourceBytes(src, sad, fixed, 4 * n), Plus(sad, Step4(fixed) * n))
    decreases n
  {
    hide AlignDown, Plus, Bytes;
    if n == 0 {
      assert q + SourceBytes(src, sad, fixed, 0) == q;
      PlusZero(sad);
    } else {
      var first, next := Bytes(src(AlignDown(sad))), Plus(sad, Step4(fixed));
      RefillInOrder(q + first, src, next, fixed, n - 1);
      PlusPlus(sad, Step4(fixed), Step4(fixed) * (n - 1));
      assert Step4(fixed) + Step4(fixed) * (n - 1) == Step4(fixed) * n;
      FirstWord(src, sad, fixed, n);
      assert q + first + SourceBytes(src, next, fixed, 4 * n - 4)
          == q + (first + SourceBytes(src, next, fixed, 4 * n - 4));
    }
  }

  lemma PlusZero(v: Word)
    ensures Plus(v, 0) == v
  {
  }

  lemma FirstWord(src: Source, sad: Word, fixed: bool, n: nat)
    requires n > 0
    ensures SourceBytes(src, sad, fixed, 4 * n)
         == Bytes(src(AlignDown(sad))) + SourceBytes(src, Plus(sad, Step4(fixed)), fixed, 4 * n - 4)
  {
    hide AlignDown, Plus, Bytes;
    var all, rest := SourceBytes(src, sad, fixed, 4 * n), SourceBytes(src, Plus(sad, Step4(fixed)), fixed, 4 * n - 4);
    forall i | 0 <= i < 4 * n
      ensures all[i] == if i < 4 then Bytes(src(AlignDown(sad)))[i] else rest[i - 4]
    {
      if i < 4 {
        assert Step4(fixed) * (i / 4) == 0;
        PlusZero(sad);
      } else {
        SourceShift(src, sad, fixed, i - 4);
      }
    }
  }

  /** A request made at or below the level appends exactly sixteen source bytes:
      nothing is dropped, and only the serving channel and this queue change. */
  lemma RequestInOrder(s: Sound, src: Source, f: int)
    requires Valid(s) && 0 <= f < 2 && |s.fifo[f].queue| <= LEVEL && Server(s, f) != -1
    ensures var ch, t := Server(s, f), Request(s, src, f);
      && t.fifo[f] == s.fifo[f].(queue := s.fifo[f].queue
                                   + SourceBytes(src, s.dma[ch].sad, FixedSource(s.dma[ch]), 16))
      && t.fifo[1 - f] == s.fifo[1 - f]
      && t.dma == s.dma[ch := s.dma[ch].(sad := Plus(s.dma[ch].sad, Step4(FixedSource(s.dma[ch])) * 4))]
      && Server(t, 0) == Server(s, 0) && Server(t, 1) == Server(s, 1)
  {
    hide Refill, SourceBytes, Plus, Live, FixedSource;
    var ch := Server(s, f);
    RefillInOrder(s.fifo[f].queue, src, s.dma[ch].sad, FixedSource(s.dma[ch]), 4);
    LiveIgnoresSource(s.dma[ch], Plus(s.dma[ch].sad, Step4(FixedSource(s.dma[ch])) * 4));
  }

  lemma LiveIgnoresSource(c: Channel, sad: Word)
    ensures Live(c.(sad := sad)) == Live(c) && FixedSource(c.(sad := sad)) == FixedSource(c)
  {
  }

  // ---- conservation ---------------------------------------------------------

  /** An event, with the source memory as it is at that moment. */
  datatype Event =
    | Write(f: int, bytes: seq<Byte>, src: Source)
    | Tick(f: int, src: Source)

  predicate ValidEvent(e: Event) {
    0 <= e.f < 2
  }

  function Apply(s: Sound, e: Event): (s2: Sound)
    requires Valid(s) && ValidEvent(e)
    ensures Valid(s2)
  {
    match e
    case Write(f, bytes, src) => CpuWrite(s, src, f, bytes)
    case Tick(f, src) => Pop(s, src, f)
  }

  /** The sixteen bytes a refill of FIFO f would bring, or none. */
  function RefillBytes(s: Sound, src: Source, f: int, level: int): seq<Byte>
    requires Valid(s) && 0 <= f < 2
  {
    var ch := Server(s, f);
    if level > LEVEL || ch == -1 then []
    else SourceBytes(src, s.dma[ch].sad, FixedSource(s.dma[ch]), 16)
  }

  /** The bytes FIFO f takes in during an event: of a store what still fits, then
      the refill that the new level asks for. */
  function Accepted(s: Sound, e: Event, f: int): seq<Byte>
    requires Valid(s) && ValidEvent(e) && 0 <= f < 2
  {
    var q := s.fifo[f].queue;
    if e.f != f then []
    else
      match e
      case Write(_, bytes, src) =>
        var room := DEPTH - |q|;
        var taken := if |bytes| <= room then bytes else bytes[..room];
        taken + RefillBytes(s, src, f, |q| + |taken|)
      case Tick(_, src) =>
        if q == [] then [] else RefillBytes(s, src, f, |q| - 1)
  }

  function Played(s: Sound, e: Event, f: int): seq<Byte>
    requires Valid(s) && ValidEvent(e) && 0 <= f < 2
  {
    if e.Tick? && e.f == f && s.fifo[f].queue != [] then [s.fifo[f].queue[0]] else []
  }

  /** What a request does to both queues. */
  lemma RequestAdds(m: Sound, src: Source, f: int)
    requires Valid(m) && 0 <= f < 2
    ensures var t := RequestIfLow(m, src, f);
      && t.fifo[f] == m.fifo[f].(queue := m.fifo[f].queue + RefillBytes(m, src, f, |m.fifo[f].queue|))
      && t.fifo[1 - f] == m.fifo[1 - f]
  {
    hide Request, SourceBytes, FixedSource, Live;
    if |m.fifo[f].queue| <= LEVEL {
      if Server(m, f) != -1 {
        RequestInOrder(m, src, f);
      } else {
        NoServer(m, src, f);
      }
    }
  }

  lemma NoServer(s: Sound, src: Source, f: int)
    requires Valid(s) && 0 <= f < 2 && Server(s, f) == -1
    ensures Request(s, src, f) == s
  {
  }

  lemma WriteConserves(s: Sound, e: Event)
    requires Valid(s) && ValidEvent(e) && e.Write?
    ensures Apply(s, e).fifo[e.f].queue == s.fifo[e.f].queue + Accepted(s, e, e.f)
    ensures Apply(s, e).fifo[1 - e.f] == s.fifo[1 - e.f]
  {
    hide RequestIfLow, RefillBytes;
    var q := s.fifo[e.f].queue;
    var m := s.(fifo := s.fifo[e.f := s.fifo[e.f].(queue := Append(q, e.bytes))]);
    RequestAdds(m, e.src, e.f);
    SameRefill(m, s, e.src, e.f, |m.fifo[e.f].queue|);
  }

  lemma TickConserves(s: Sound, e: Event)
    requires Valid(s) && ValidEvent(e) && e.Tick?
    ensures var q, t := s.fifo[e.f].queue, Apply(s, e).fifo[e.f];
      if q == [] then t == Fifo([], 0, false)
      else t == Fifo(q[1..] + Accepted(s, e, e.f), q[0], true)
    ensures Apply(s, e).fifo[1 - e.f] == s.fifo[1 - e.f]
  {
    hide RequestIfLow, RefillBytes;
    var q := s.fifo[e.f].queue;
    if q != [] {
      var m := s.(fifo := s.fifo[e.f := Fifo(q[1..], q[0], true)]);
      RequestAdds(m, e.src, e.f);
      SameRefill(m, s, e.src, e.f, |q| - 1);
    }
  }

  lemma SameRefill(m: Sound, s: Sound, src: Source, f: int, level: int)
    requires Valid(m) && Valid(s) && 0 <= f < 2 && m.dma == s.dma
    ensures RefillBytes(m, src, f, level) == RefillBytes(s, src, f, level) && Server(m, f) == Server(s, f)
  {
  }

  lemma EventConserves(s: Sound, e: Event, f: int)
    requires Valid(s) && ValidEvent(e) && 0 <= f < 2
    ensures s.fifo[f].queue + Accepted(s, e, f) == Played(s, e, f) + Apply(s, e).fifo[f].queue
  {
    hide Apply, RefillBytes;
    if e.Write? {
      WriteConserves(s, e);
    } else {
      TickConserves(s, e);
    }
  }

  function RunAll(s: Sound, es: seq<Event>): (s2: Sound)
    requires Valid(s) && forall e :: e in es ==> ValidEvent(e)
    ensures Valid(s2)
    decreases |es|
  {
    if es == [] then s else RunAll(Apply(s, es[0]), es[1..])
  }

  function AcceptedAll(s: Sound, es: seq<Event>, f: int): seq<Byte>
    requires Valid(s) && 0 <= f < 2 && forall e :: e in es ==> ValidEvent(e)
    decreases |es|
  {
    if es == [] then [] else Accepted(s, es[0], f) + AcceptedAll(Apply(s, es[0]), es[1..], f)
  }

  function PlayedAll(s: Sound, es: seq<Event>, f: int): seq<Byte>
    requires Valid(s) && 0 <= f < 2 && forall e :: e in es ==> ValidEvent(e)
    decreases |es|
  {
    if es == [] then [] else Played(s, es[0], f) + PlayedAll(Apply(s, es[0]), es[1..], f)
  }

  /** Over every run of stores and timer overflows, whatever the DMA channels do,
      the bytes played followed by the bytes still queued are the bytes queued at
      the start followed by the bytes accepted, in order. */
  lemma {:induction false} StreamConserved(s: Sound, es: seq<Event>, f: int)
    requires Valid(s) && 0 <= f < 2 && forall e :: e in es ==> ValidEvent(e)
    ensures s.fifo[f].queue + AcceptedAll(s, es, f) == PlayedAll(s, es, f) + RunAll(s, es).fifo[f].queue
    decreases |es|
  {
    hide Apply, Accepted, Played;
    if es == [] {
      assert s.fifo[f].queue + [] == [] + s.fifo[f].queue;
    } else {
      var q, a, p, t := s.fifo[f].queue, Accepted(s, es[0], f), Played(s, es[0], f), Apply(s, es[0]);
      EventConserves(s, es[0], f);
      StreamConserved(t, es[1..], f);
      var a2, p2, q2 := AcceptedAll(t, es[1..], f), PlayedAll(t, es[1..], f), RunAll(t, es[1..]).fifo[f].queue;
      calc {
        q + (a + a2);
        (q + a) + a2;
        (p + t.fifo[f].queue) + a2;
        p + (t.fifo[f].queue + a2);
        p + (p2 + q2);
        (p + p2) + q2;
      }
    }
  }

  // ---- the bytes themselves -------------------------------------------------

  /** Byte i of a source: byte i % 4, low byte first, of word i / 4, the words taken at
      rising addresses rounded down to a word, or all at one address if that is fixed. */
  lemma SourceByteIs(src: Source, sad: Word, fixed: bool, i: nat, w: Word)
    requires w == src(AlignDown(Plus(sad, if fixed then 0 else 4 * (i / 4))))
    ensures i % 4 == 0 ==> SourceByte(src, sad, fixed, i) == w % 0x100
    ensures i % 4 == 1 ==> SourceByte(src, sad, fixed, i) == w / 0x100 % 0x100
    ensures i % 4 == 2 ==> SourceByte(src, sad, fixed, i) == w / 0x10000 % 0x100
    ensures i % 4 == 3 ==> SourceByte(src, sad, fixed, i) == w / 0x1000000
  {
    hide AlignDown, Plus;
    assert Step4(fixed) * (i / 4) == if fixed then 0 else 4 * (i / 4);
  }

  /** The DMA channel that serves FIFO 0 or 1: the first of channels 1 and 2, or of 2
      and 3, that is enabled with 3 in bits 12 and 13 of its control word. */
  ghost predicate Serves(s: Sound, f: int, ch: int)
    requires Valid(s) && 0 <= f < 2
  {
    && (ch == 1 + f || ch == 2 + f)
    && s.dma[ch].enabled && s.dma[ch].ctrl / 0x1000 % 4 == 3
    && (ch == 2 + f ==> !(s.dma[1 + f].enabled && s.dma[1 + f].ctrl / 0x1000 % 4 == 3))
  }

  lemma ServerIs(s: Sound, f: int, ch: int)
    requires Valid(s) && 0 <= f < 2
    ensures Serves(s, f, ch) <==> ch == Server(s, f) && ch != -1
  {
  }

  /** The queue after a request at level `n`: sixteen bytes more if that is at most half
      full and a channel serves it, the source fixed if bits 7 and 8 hold 2. */
  ghost predicate Refilled(s: Sound, src: Source, f: int, q: seq<Byte>, q2: seq<Byte>)
    requires Valid(s) && 0 <= f < 2
  {
    if |q| > 16 || !(exists ch :: Serves(s, f, ch)) then q2 == q
    else
      exists ch :: Serves(s, f, ch)
        && q2 == q + SourceBytes(src, s.dma[ch].sad, s.dma[ch].ctrl / 0x80 % 4 == 2, 16)
  }

  /** A timer overflow on the queue alone: the oldest byte is played and the rest moves
      up; an empty queue plays silence and is not refilled. */
  lemma PopOnQueue(s: Sound, src: Source, f: int)
    requires Valid(s) && 0 <= f < 2
    ensures var q, t := s.fifo[f].queue, Pop(s, src, f).fifo[f];
      if q == [] then t == Fifo([], 0, false)
      else t.cur == q[0] && t.has && Refilled(s, src, f, q[1..], t.queue)
  {
    TickConserves(s, Tick(f, src));
    var q := s.fifo[f].queue;
    if q != [] {
      RefilledBy(s, src, f, q[1..]);
    }
  }

  /** A store on the queue alone: bytes are taken in order while there are fewer than
      32, and a queue that is then at most half full is refilled. */
  lemma StoreOnQueue(s: Sound, src: Source, f: int, bytes: seq<Byte>)
    requires Valid(s) && 0 <= f < 2
    ensures var all, t := s.fifo[f].queue + bytes, CpuWrite(s, src, f, bytes).fifo[f];
      && t.cur == s.fifo[f].cur && t.has == s.fifo[f].has
      && Refilled(s, src, f, if |all| > 32 then all[..32] else all, t.queue)
  {
    var q := Append(s.fifo[f].queue, bytes);
    var m := s.(fifo := s.fifo[f := s.fifo[f].(queue := q)]);
    hide RefillBytes, RequestIfLow;
    RequestAdds(m, src, f);
    SameRefill(m, s, src, f, |q|);
    RefilledBy(s, src, f, q);
    AppendIs(s.fifo[f].queue, bytes);
  }

  lemma AppendIs(q: seq<Byte>, bytes: seq<Byte>)
    requires |q| <= 32
    ensures Append(q, bytes) == var all := q + bytes; if |all| > 32 then all[..32] else all
  {
  }

  lemma RefilledBy(s: Sound, src: Source, f: int, q: seq<Byte>)
    requires Valid(s) && 0 <= f < 2
    ensures Refilled(s, src, f, q, q + RefillBytes(s, src, f, |q|))
  {
    hide SourceBytes, Serves;
    ServerIs(s, f, 1 + f);
    ServerIs(s, f, 2 + f);
    ServerIs(s, f, Server(s, f));
    forall ch | Serves(s, f, ch)
      ensures ch == Server(s, f) && ch != -1
    {
      ServerIs(s, f, ch);
    }
    assert q + [] == q;
  }

  // ---- playback -------------------------------------------------------------

  /** FIFO f has a live channel that the other FIFO does not use. */
  predicate Dedicated(s: Sound, f: int)
    requires Valid(s) && 0 <= f < 2
  {
    Server(s, f) != -1 && Server(s, 1 - f) != Server(s, f)
  }

  /** Byte i of what FIFO f has still to play: its queue, then its source. */
  function StreamByte(s: Sound, src: Source, f: int, i: nat): Byte
    requires Valid(s) && 0 <= f < 2 && Server(s, f) != -1
  {
    var q, c := s.fifo[f].queue, s.dma[Server(s, f)];
    if i < |q| then q[i] else SourceByte(src, c.sad, FixedSource(c), i - |q|)
  }

  /** Moving bytes from the source into the queue does not change the stream. */
  lemma RefillKeepsStream(s: Sound, src: Source, f: int, i: nat)
    requires Valid(s) && 0 <= f < 2 && |s.fifo[f].queue| <= LEVEL && Server(s, f) != -1
    ensures var t := Request(s, src, f);
      Server(t, f) != -1 && StreamByte(t, src, f, i) == StreamByte(s, src, f, i)
  {
    hide Request, SourceByte, Plus, FixedSource, Live;
    RequestInOrder(s, src, f);
    var c, n := s.dma[Server(s, f)], |s.fifo[f].queue|;
    LiveIgnoresSource(c, Plus(c.sad, Step4(FixedSource(c)) * 4));
    if i >= n + 16 {
      SourceAfterRefill(src, c.sad, FixedSource(c), i - n - 16);
    }
  }

  lemma SourceAfterRefill(src: Source, sad: Word, fixed: bool, i: nat)
    ensures SourceByte(src, Plus(sad, Step4(fixed) * 4), fixed, i) == SourceByte(src, sad, fixed, i + 16)
  {
    hide SourceByte, Plus;
    var d := Step4(fixed);
    PlusPlus(sad, d, d);
    PlusPlus(sad, d + d, d);
    PlusPlus(sad, d + d + d, d);
    SourceShift(src, sad, fixed, i + 12);
    SourceShift(src, Plus(sad, d), fixed, i + 8);
    SourceShift(src, Plus(sad, d + d), fixed, i + 4);
    SourceShift(src, Plus(sad, d + d + d), fixed, i);
  }

  /** A pop from a nonempty, dedicated FIFO plays the next byte of its stream,
      leaves at least sixteen bytes queued and the rest of the stream as it was. */
  lemma PopPlaysStream(s: Sound, src: Source, f: int, i: nat)
    requires Valid(s) && 0 <= f < 2 && Dedicated(s, f) && s.fifo[f].queue != []
    ensures var t := Pop(s, src, f);
      && t.fifo[f].has && t.fifo[f].cur == StreamByte(s, src, f, 0)
      && |t.fifo[f].queue| >= LEVEL && Dedicated(t, f)
      && StreamByte(t, src, f, i) == StreamByte(s, src, f, i + 1)
  {
    hide Request, SourceByte, FixedSource, Live;
    var q := s.fifo[f].queue;
    var m := s.(fifo := s.fifo[f := Fifo(q[1..], q[0], true)]);
    assert Server(m, f) == Server(s, f) && Server(m, 1 - f) == Server(s, 1 - f);
    assert StreamByte(m, src, f, i) == StreamByte(s, src, f, i + 1);
    if |q| - 1 <= LEVEL {
      RequestInOrder(m, src, f);
      RefillKeepsStream(m, src, f, i);
    }
  }

  /** The other FIFO's pops leave a dedicated FIFO's stream alone. */
  lemma OtherPopKeepsStream(s: Sound, src: Source, f: int, i: nat)
    requires Valid(s) && 0 <= f < 2 && Dedicated(s, f)
    ensures var t := Pop(s, src, 1 - f);
      && t.fifo[f] == s.fifo[f] && Dedicated(t, f)
      && StreamByte(t, src, f, i) == StreamByte(s, src, f, i)
  {
    hide Request, SourceByte, FixedSource, Live;
    var q := s.fifo[1 - f].queue;
    if q != [] {
      var m := s.(fifo := s.fifo[1 - f := Fifo(q[1..], q[0], true)]);
      assert Server(m, f) == Server(s, f) && Server(m, 1 - f) == Server(s, 1 - f);
      if |q| - 1 <= LEVEL {
        if Server(m, 1 - f) == -1 {
          NoServer(m, src, 1 - f);
        } else {
          RequestInOrder(m, src, 1 - f);
        }
      }
    }
  }

  /** The samples FIFO f plays over a sequence of timer overflows, each naming the
      FIFO it clocks; None is silence. */
  datatype Sample = Silence | Sample(b: Byte)

  function Samples(s: Sound, src: Source, ticks: seq<bool>, f: int): seq<Sample>
    requires Valid(s) && 0 <= f < 2
    decreases |ticks|
  {
    if ticks == [] then []
    else
      var g := if ticks[0] then 1 else 0;
      var t := Pop(s, src, g);
      (if g != f then [] else if t.fifo[f].has then [Sample(t.fifo[f].cur)] else [Silence])
      + Samples(t, src, ticks[1..], f)
  }

  /** Gapless playback: with a dedicated live channel and unchanging source memory, a
      FIFO that is not empty plays exactly its queue followed by the source words
      from its channel's address on, for any number of overflows of either timer:
      no byte is lost, doubled or reordered and no silence is inserted. */
  lemma {:induction false} PlaybackInOrder(s: Sound, src: Source, ticks: seq<bool>, f: int, k: nat)
    requires Valid(s) && 0 <= f < 2 && Dedicated(s, f) && s.fifo[f].queue != []
    requires k < |Samples(s, src, ticks, f)|
    ensures Samples(s, src, ticks, f)[k] == Sample(StreamByte(s, src, f, k))
    decreases |ticks|
  {
    hide Pop, StreamByte, Server;
    var g := if ticks[0] then 1 else 0;
    var t := Pop(s, src, g);
    if g == f {
      PopPlaysStream(s, src, f, if k > 0 then k - 1 else 0);
      if k > 0 {
        PlaybackInOrder(t, src, ticks[1..], f, k - 1);
      }
    } else {
      OtherPopKeepsStream(s, src, f, k);
      PlaybackInOrder(t, src, ticks[1..], f, k);
    }
  }

  /** An empty FIFO stays silent whatever its channel: popping it asks for nothing. */
  lemma {:induction false} EmptyStaysSilent(s: Sound, src: Source, ticks: seq<bool>, f: int, k: nat)
    requires Valid(s) && 0 <= f < 2 && s.fifo[f].queue == []
    requires k < |Samples(s, src, ticks, f)|
    ensures Samples(s, src, ticks, f)[k] == Silence
    decreases |ticks|
  {
    hide RequestIfLow, RefillBytes;
    var g := if ticks[0] then 1 else 0;
    TickConserves(s, Tick(g, src));
    if g == f {
      if k > 0 {
        EmptyStaysSilent(Pop(s, src, g), src, ticks[1..], f, k - 1);
      }
    } else {
      EmptyStaysSilent(Pop(s, src, g), src, ticks[1..], f, k);
    }
  }
}
