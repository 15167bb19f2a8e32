/** The sound FIFOs in place: a byte buffer with a fill count, moved down on every
    pop, and the DMA registers that refill it. */
module GbaSoundUnit {
  import opened Words
  import S = GbaSound

  /** One FIFO's buffer, count and current sample. */
  class FifoBuffer {
    const data: array<Byte>
    var count: nat
    var cur: Byte
    var has: bool

    ghost predicate Valid()
      reads this
    {
      data.Length == 32 && count <= 32
    }

    ghost function Value(): (v: S.Fifo)
      reads this, data
      requires Valid()
      ensures |v.queue| == count
    {
      S.Fifo(data[..count], cur, has)
    }

    constructor ()
      ensures Valid() && fresh(data) && Value() == S.Fifo([], 0, false)
    {
      data := new Byte[32](_ => 0);
      count, cur, has := 0, 0, false;
    }

    /** Appends bytes until the buffer is full. */
    method Append(bytes: seq<Byte>)
      requires Valid()
      modifies this`count, data
      ensures Valid() && Value() == old(Value()).(queue := S.Append(old(Value().queue), bytes))
    {
      ghost var q := data[..count];
      var i := 0;
      while i < |bytes|
        invariant 0 <= i <= |bytes| && Valid()
        invariant data[..count] == q + bytes[..i]
      {
        if count >= 32 {
          break;
        }
        data[count] := bytes[i];
        count := count + 1;
        i := i + 1;
      }
      if i == |bytes| {
        assert bytes[..i] == bytes;
      }
    }

    method Write32(v: Word)
      requires Valid()
      modifies this`count, data
      ensures Valid()
      ensures Value() == old(Value()).(queue := S.Append(old(Value().queue),
        [v % 0x100, v / 0x100 % 0x100, v / 0x10000 % 0x100, v / 0x1000000]))
    {
      Append([v % 0x100, v / 0x100 % 0x100, v / 0x10000 % 0x100, v / 0x1000000]);
    }

    /** Four source words, the address moving on unless it is fixed. */
    method FillFrom(src: S.Source, sad: Word, fixed: bool) returns (a: Word)
      requires Valid()
      modifies this`count, data
      ensures Valid()
      ensures var (q, end) := S.Refill(old(Value().queue), src, sad, fixed, 4);
        Value() == old(Value()).(queue := q) && a == end
    {
      hide S.Bytes, S.Append, Plus, AlignDown;
      ghost var v0, all := Value(), S.Refill(Value().queue, src, sad, fixed, 4);
      a := sad;
      var i := 0;
      while i < 4
        invariant 0 <= i <= 4 && Valid()
        invariant Value() == v0.(queue := Value().queue)
        invariant S.Refill(Value().queue, src, a, fixed, 4 - i) == all
      {
        var w := src(AlignDown(a));
        S.BytesInOrder(w);
        Write32(w);
        S.PlusZero(a);
        if !fixed {
          a := Plus(a, 4);
        }
        i := i + 1;
      }
    }

    /** Takes the head byte and moves the rest down. */
    method TakeHead()
      requires Valid() && count > 0
      modifies this, data
      ensures Valid()
      ensures Value() == S.Fifo(old(Value().queue)[1..], old(Value().queue)[0], true)
    {
      ghost var q := data[..count];
      cur := data[0];
      has := true;
      count := count - 1;
      var i := 0;
      while i < count
        invariant 0 <= i <= count < 32 && data.Length == 32 && |q| == count + 1
        invariant cur == q[0] && has
        invariant forall k :: 0 <= k < i ==> data[k] == q[k + 1]
        invariant forall k :: i < k <= count ==> data[k] == q[k]
      {
        data[i] := data[i + 1];
        i := i + 1;
      }
      assert data[..count] == q[1..];
    }

    method Clear()
      requires Valid()
      modifies this
      ensures Valid() && Value() == S.Fifo([], 0, false)
    {
      count, cur, has := 0, 0, false;
    }
  }

  class SoundUnit {
    const fifoA: FifoBuffer
    const fifoB: FifoBuffer
    /** The DMA channels' registers. */
    var dma: seq<S.Channel>

    ghost predicate Valid()
      reads this, fifoA, fifoB
    {
      && |dma| == 4 && fifoA != fifoB && fifoA.data != fifoB.data
      && fifoA.Valid() && fifoB.Valid()
    }

    ghost function State(): (s: S.Sound)
      reads this, fifoA, fifoB, fifoA.data, fifoB.data
      requires Valid()
      ensures S.Valid(s)
    {
      S.Sound([fifoA.Value(), fifoB.Value()], dma)
    }

    function Buffer(f: int): FifoBuffer {
      if f == 0 then fifoA else fifoB
    }

    constructor (dma: seq<S.Channel>)
      requires |dma| == 4
      ensures Valid() && fresh(fifoA) && fresh(fifoB) && fresh(fifoA.data) && fresh(fifoB.data)
      ensures State() == S.Sound([S.Fifo([], 0, false), S.Fifo([], 0, false)], dma)
    {
      fifoA := new FifoBuffer();
      fifoB := new FifoBuffer();
      this.dma := dma;
    }

    /** Four words by channel `ch`. */
    method Serve(src: S.Source, f: int, ch: int)
      requires Valid() && 0 <= f < 2 && 0 <= ch < 4
      modifies this`dma, Buffer(f), Buffer(f).data
      ensures Valid()
      ensures var (q, sad) := S.Refill(old(Buffer(f).Value().queue), src, old(dma[ch].sad),
                                       S.FixedSource(old(dma[ch])), 4);
        && Buffer(f).Value() == old(Buffer(f).Value()).(queue := q)
        && dma == old(dma)[ch := old(dma[ch]).(sad := sad)]
    {
      var fixed := dma[ch].ctrl / 0x80 % 4 == 2;
      var a := Buffer(f).FillFrom(src, dma[ch].sad, fixed);
      dma := dma[ch := dma[ch].(sad := a)];
    }

    /** A refill request for FIFO f: the first live channel of its two serves it. */
    method Request(src: S.Source, f: int)
      requires Valid() && 0 <= f < 2
      modifies this`dma, Buffer(f), Buffer(f).data
      ensures Valid() && State() == S.Request(old(State()), src, f)
    {
      hide S.Refill, S.FixedSource;
      var ci := 0;
      while ci < 2
        invariant 0 <= ci <= 2 && Valid() && State() == old(State())
        invariant forall c :: 1 + f <= c < 1 + f + ci ==> !S.Live(dma[c])
      {
        var ch := 1 + f + ci;
        if dma[ch].enabled && dma[ch].ctrl / 0x1000 % 4 == 3 {
          Serve(src, f, ch);
          return;
        }
        ci := ci + 1;
      }
    }

    method RequestIfLow(src: S.Source, f: int)
      requires Valid() && 0 <= f < 2
      modifies this`dma, Buffer(f), Buffer(f).data
      ensures Valid() && State() == S.RequestIfLow(old(State()), src, f)
    {
      hide S.Request;
      if Buffer(f).count <= 16 {
        Request(src, f);
      }
    }

    /** A CPU store of one, two or four bytes. */
    method CpuWrite(src: S.Source, f: int, bytes: seq<Byte>)
      requires Valid() && 0 <= f < 2
      modifies this`dma, Buffer(f), Buffer(f).data
      ensures Valid() && State() == S.CpuWrite(old(State()), src, f, bytes)
    {
      hide S.RequestIfLow;
      ghost var s := State();
      Buffer(f).Append(bytes);
      assert State().fifo == s.fifo[f := s.fifo[f].(queue := S.Append(s.fifo[f].queue, bytes))];
      RequestIfLow(src, f);
    }

    /** One byte for FIFO f, on an overflow of its timer. */
    method FifoPop(src: S.Source, f: int)
      requires Valid() && 0 <= f < 2
      modifies this`dma, Buffer(f), Buffer(f).data
      ensures Valid() && State() == S.Pop(old(State()), src, f)
    {
      hide S.RequestIfLow;
      ghost var s := State();
      var buf := Buffer(f);
      if buf.count == 0 {
        buf.Clear();
        assert State().fifo == s.fifo[f := S.Fifo([], 0, false)];
        return;
      }
      buf.TakeHead();
      assert State().fifo == s.fifo[f := S.Fifo(s.fifo[f].queue[1..], s.fifo[f].queue[0], true)];
      RequestIfLow(src, f);
    }
  }
}
