/** The timer blocks of the two machines, updated in place. */
module TimerUnits {
  import opened Words
  import opened Timers

  lemma IrqsOfHead(ts: seq<Timer>, idx: nat, ovf: set<nat>)
    requires ts != [] && forall i :: i in ovf ==> idx < i < idx + |ts|
    ensures Irqs(ts, idx, {idx} + ovf) == (if IrqOn(ts[0]) then {idx} else {}) + Irqs(ts[1..], idx + 1, ovf)
  {
    forall i | i in ovf
      ensures ts[i - idx] == ts[1..][i - (idx + 1)]
    {
    }
  }

  lemma IrqsOfNone(ts: seq<Timer>, idx: nat)
    ensures Irqs(ts, idx, {}) == {}
  {
  }

  /** The four timers of one DS processor. */
  class DsTimers {
    const tm: array<Timer>
    /** Timers whose interrupt has been raised. */
    var irq: set<nat>

    constructor ()
      ensures fresh(tm) && tm.Length == 4 && irq == {}
      ensures forall i :: 0 <= i < 4 ==> tm[i] == Timer(0, 0, 0, 0)
    {
      tm := new Timer[4](_ => Timer(0, 0, 0, 0));
      irq := {};
    }

    /** Feeds a timer and everything below it in the chain. */
    method TimerFeed(idx: nat, counts: nat)
      requires tm.Length == 4 && idx < 4
      modifies this`irq, tm
      ensures tm[..] == old(tm[..idx]) + Feed(old(tm[idx..]), idx, counts).0
      ensures irq == old(irq) + Irqs(old(tm[idx..]), idx, Feed(old(tm[idx..]), idx, counts).1)
      decreases 4 - idx, 1
    {
      hide Enabled, CascadeBit, IrqOn, Prescale, Above, Irqs, Span, Rewound, Feed;
      var t := tm[idx];
      ghost var ts := tm[idx..];
      assert ts[0] == t && ts[1..] == tm[idx + 1..];
      IrqsOfNone(ts, idx);
      if !Enabled(t) {
        FeedIdle(ts, idx, counts);
        return;
      }
      FeedHead(ts, idx, counts);
      var n, u := counts, t;
      if !(idx > 0 && CascadeBit(t)) {
        var total := t.acc + counts;
        n := total / Prescale(t);
        u := t.(acc := total % Prescale(t));
        if n == 0 {
          tm[idx] := u;
          return;
        }
      }
      var all := Above(t) + n;
      DivModRange(all, Span(t));
      Carry(idx, u.(counter := Rewound(t, all)), all / Span(t));
    }

    /** The common tail: store the timer, raise its interrupt, feed its overflows on. */
    method Carry(idx: nat, u: Timer, over: nat)
      requires tm.Length == 4 && idx < 4 && tm[idx].ctrl == u.ctrl
      modifies this`irq, tm
      ensures over == 0 ==> tm[..] == old(tm[..idx]) + ([u] + old(tm[idx + 1..])) && irq == old(irq)
      ensures over > 0 ==>
        var (rest, ovf) := Feed(old(tm[idx + 1..]), idx + 1, over);
        tm[..] == old(tm[..idx]) + ([u] + rest) && irq == old(irq) + Irqs(old(tm[idx..]), idx, {idx} + ovf)
      decreases 4 - idx, 0
    {
      hide Enabled, CascadeBit, IrqOn, Irqs, Feed;
      ghost var ts := tm[idx..];
      SameEnable(tm[idx], u);
      tm[idx] := u;
      if over > 0 {
        FeedKeepsSettings(ts[1..], idx + 1, over);
        IrqsOfHead(ts, idx, Feed(ts[1..], idx + 1, over).1);
        if IrqOn(u) {
          irq := irq + {idx};
        }
        if idx < 3 {
          TimerFeed(idx + 1, over);
        } else {
          FeedIdle(ts[1..], idx + 1, over);
          IrqsOfNone(ts[1..], idx + 1);
        }
      }
    }

    /** All four timers take `cycles` cycles: divided by the prescaler, then fed. */
    method TickTimers(cycles: nat)
      requires tm.Length == 4
      modifies this`irq, tm
      ensures tm[..] == Shares(old(tm[..]), 0, cycles).0
      ensures irq == old(irq) + Irqs(old(tm[..]), 0, Shares(old(tm[..]), 0, cycles).1)
    {
      hide Share, Irqs, IrqOn;
      ghost var first: seq<Timer> := tm[..];
      ghost var target := Shares(first, 0, cycles);
      ghost var emitted: set<nat> := {};
      IrqsOfNone(first, 0);
      for i := 0 to 4
        invariant target.0 == Shares(tm[..], i, cycles).0
        invariant target.1 == emitted + Shares(tm[..], i, cycles).1
        invariant irq == old(irq) + Irqs(first, 0, emitted)
        invariant forall k :: 0 <= k < 4 ==> tm[k].ctrl == first[k].ctrl
      {
        ghost var more := Share(tm[..], i, cycles).1;
        ShareKeepsControls(tm[..], i, cycles);
        RequestsGrow(first, emitted, more);
        RequestsBySetup(first, tm[..], more);
        TakeShare(i, cycles);
        emitted := emitted + more;
      }
    }

    method TakeShare(i: nat, cycles: nat)
      requires tm.Length == 4 && i < 4
      modifies this`irq, tm
      ensures tm[..] == Share(old(tm[..]), i, cycles).0
      ensures irq == old(irq) + Irqs(old(tm[..]), 0, Share(old(tm[..]), i, cycles).1)
    {
      hide Enabled, CascadeBit, FirstDivision, Feed, Irqs, IrqOn;
      ghost var ts: seq<Timer> := tm[..];
      IrqsOfNone(ts, 0);
      var t := tm[i];
      if !Enabled(t) || (i > 0 && CascadeBit(t)) {
        return;
      }
      var (n, acc) := FirstDivision(t, cycles);
      tm[i] := t.(acc := acc);
      if n > 0 {
        ghost var us: seq<Timer> := tm[..];
        assert us[i..] == tm[i..] && us[..i] == tm[..i];
        FeedKeepsSettings(us[i..], i, n);
        IrqsOfSuffix(ts, us, i, Feed(us[i..], i, n).1);
        TimerFeed(i, n);
      }
    }
  }

  lemma ShareKeepsControls(ts: seq<Timer>, i: nat, cycles: nat)
    requires i < |ts|
    ensures var us := Share(ts, i, cycles).0;
      forall k :: 0 <= k < |ts| ==> us[k].ctrl == ts[k].ctrl
  {
    hide Feed, Enabled, FirstDivision, Cascades;
    var (n, acc) := FirstDivision(ts[i], cycles);
    var us := ts[i := ts[i].(acc := acc)];
    FeedKeepsSettings(us[i..], i, n);
  }

  lemma IrqsOfSuffix(ts: seq<Timer>, us: seq<Timer>, i: nat, ovf: set<nat>)
    requires i < |ts| == |us| && forall k :: 0 <= k < |ts| ==> us[k].ctrl == ts[k].ctrl
    requires forall k :: k in ovf ==> i <= k < i + |us[i..]|
    ensures Irqs(us[i..], i, ovf) == Irqs(ts, 0, ovf)
  {
    forall k | k in ovf
      ensures us[i..][k - i].ctrl == ts[k].ctrl
    {
    }
  }

  // ---- the per-tick model ---------------------------------------------------

  lemma RequestOne(ts: seq<Timer>, i: nat)
    requires i < |ts|
    ensures Irqs(ts, 0, {i}) == if IrqOn(ts[i]) then {i} else {}
  {
    hide IrqOn;
  }

  lemma RequestsGrow(ts: seq<Timer>, a: set<nat>, b: set<nat>)
    ensures Irqs(ts, 0, a + b) == Irqs(ts, 0, a) + Irqs(ts, 0, b)
  {
  }

  lemma RequestsBySetup(ts: seq<Timer>, us: seq<Timer>, ovf: set<nat>)
    requires |ts| == |us| && forall i :: 0 <= i < |ts| ==> us[i].ctrl == ts[i].ctrl
    ensures Irqs(ts, 0, ovf) == Irqs(us, 0, ovf)
  {
  }

  lemma CountedBelow(ts: seq<Timer>, ch: nat)
    requires ch < |ts| && ts[ch].counter < 0xFFFF
    ensures Counted(ts, ch) == ts[ch := ts[ch].(counter := ts[ch].counter + 1)]
    ensures Count(Chain(ts, ch), ch).1 == {}
  {
    hide CascadeBit, Enabled, IrqOn;
  }

  lemma OverflowCases(ts: seq<Timer>, ch: nat)
    requires ch < |ts| && ts[ch].counter == 0xFFFF
    ensures var us := ts[ch := ts[ch].(counter := ts[ch].reload)];
      var (c, ovf) := Count(Chain(ts, ch), ch);
      if ch + 1 < |ts| && CascadeBit(ts[ch + 1]) then
        var d := ts[ch + 1];
        if d.counter < 0xFFFF then Put(ts, ch, c) == us[ch + 1 := d.(counter := d.counter + 1)] && ovf == {ch}
        else Put(ts, ch, c) == us[ch + 1 := d.(counter := d.reload)] && ovf == {ch, ch + 1}
      else Put(ts, ch, c) == us && ovf == {ch}
  {
    hide Enabled, CascadeBit, IrqOn;
  }

  /** The four timers of the GBA. */
  class GbaTimers {
    const timers: array<Timer>
    /** Overflow notifications for the sound unit. */
    var overflows: set<nat>
    /** Timers whose interrupt has been requested. */
    var requests: set<nat>

    ghost predicate Valid()
      reads this, timers
    {
      timers.Length == 4 && Ordered(timers[..])
    }

    constructor ()
      ensures Valid() && fresh(timers) && overflows == {} && requests == {}
      ensures forall i :: 0 <= i < 4 ==> timers[i] == Timer(0, 0, 0, 0)
    {
      timers := new Timer[4](_ => Timer(0, 0, 0, 0));
      overflows, requests := {}, {};
    }

    /** A timer passes 0xFFFF: it reloads, notifies, and steps a cascading neighbour. */
    method TimerOverflow(ch: nat)
      requires Valid() && ch < 4 && timers[ch].counter == 0xFFFF
      modifies this, timers
      ensures Valid()
      ensures timers[..] == Put(old(timers[..]), ch, Count(Chain(old(timers[..]), ch), ch).0)
      ensures overflows == old(overflows) + Count(Chain(old(timers[..]), ch), ch).1
      ensures requests == old(requests) + Irqs(old(timers[..]), 0, Count(Chain(old(timers[..]), ch), ch).1)
    {
      hide Enabled, CascadeBit, IrqOn, Irqs, Put, Count, Chain;
      ghost var ts := timers[..];
      OverflowCases(ts, ch);
      RequestOne(ts, ch);
      if ch < 3 {
        RequestOne(ts, ch + 1);
        RequestsGrow(ts, {ch}, {ch + 1});
        SameEnable(ts[ch + 1], ts[ch + 1].(counter := ts[ch + 1].reload));
        assert {ch} + {ch + 1} == {ch, ch + 1};
      }
      SameEnable(ts[ch], ts[ch].(counter := ts[ch].reload));
      timers[ch] := timers[ch].(counter := timers[ch].reload);
      overflows := overflows + {ch};
      if ch < 3 && CascadeBit(timers[ch + 1]) {
        var v := timers[ch + 1].counter + 1;
        if v > 0xFFFF {
          timers[ch + 1] := timers[ch + 1].(counter := timers[ch + 1].reload);
          overflows := overflows + {ch + 1};
          if IrqOn(timers[ch + 1]) {
            requests := requests + {ch + 1};
          }
        } else {
          timers[ch + 1] := timers[ch + 1].(counter := v);
        }
      }
      if IrqOn(timers[ch]) {
        requests := requests + {ch};
      }
    }

    /** Channel `ch` takes `cycles` cycles, one prescaler period at a time. */
    method StepChannelBy(ch: nat, cycles: Word)
      requires Valid() && ch < 4
      modifies this, timers
      ensures Valid()
      ensures timers[..] == StepChannel(old(timers[..]), ch, cycles).0
      ensures overflows == old(overflows) + StepChannel(old(timers[..]), ch, cycles).1
      ensures requests == old(requests) + Irqs(old(timers[..]), 0, StepChannel(old(timers[..]), ch, cycles).1)
      ensures forall i :: 0 <= i < 4 ==> timers[i].ctrl == old(timers[i].ctrl)
    {
      hide Enabled, Cascades, Prescale, Pending, Irqs, Count, Chain, Put, Counted, Wrap, IrqOn;
      ghost var first := timers[..];
      IrqsOfNone(first, 0);
      if !Enabled(timers[ch]) || Cascades(timers[ch], ch) {
        return;
      }
      var div := Prescale(timers[ch]);
      SetupKept(timers[ch], Wrap(timers[ch].acc + cycles), ch);
      timers[ch] := timers[ch].(acc := Wrap(timers[ch].acc + cycles));
      ghost var target := Pending(timers[..], ch);
      assert timers[..] == Accumulated(first, ch, cycles);
      ghost var emitted: set<nat> := {};
      while timers[ch].acc >= div
        invariant Valid()
        invariant Enabled(timers[ch]) && !Cascades(timers[ch], ch) && div == Prescale(timers[ch])
        invariant target.0 == Pending(timers[..], ch).0
        invariant target.1 == emitted + Pending(timers[..], ch).1
        invariant overflows == old(overflows) + emitted && requests == old(requests) + Irqs(first, 0, emitted)
        invariant forall i :: 0 <= i < 4 ==> timers[i].ctrl == first[i].ctrl
        decreases timers[ch].acc
      {
        ghost var ts := timers[..];
        PendingStep(ts, ch);
        SetupKept(timers[ch], timers[ch].acc - div, ch);
        timers[ch] := timers[ch].(acc := timers[ch].acc - div);
        ghost var less := timers[..];
        assert less == ts[ch := ts[ch].(acc := ts[ch].acc - div)];
        CountedKeeps(less, ch);
        RequestsGrow(first, emitted, Count(Chain(less, ch), ch).1);
        RequestsBySetup(first, less, Count(Chain(less, ch), ch).1);
        emitted := emitted + Count(Chain(less, ch), ch).1;
        CountOnce(ch);
        SameControl(less[ch], timers[ch], ch);
        SameEnable(less[ch], timers[ch]);
      }
      NothingPending(timers[..], ch);
    }

    /** One counter increment. */
    method CountOnce(ch: nat)
      requires Valid() && ch < 4
      modifies this, timers
      ensures Valid()
      ensures timers[..] == Counted(old(timers[..]), ch)
      ensures overflows == old(overflows) + Count(Chain(old(timers[..]), ch), ch).1
      ensures requests == old(requests) + Irqs(old(timers[..]), 0, Count(Chain(old(timers[..]), ch), ch).1)
    {
      hide CascadeBit, Irqs, Count, Chain, Put;
      if timers[ch].counter < 0xFFFF {
        CountedBelow(timers[..], ch);
      }
      IrqsOfNone(timers[..], 0);
      var v := timers[ch].counter + 1;
      if v > 0xFFFF {
        TimerOverflow(ch);
      } else {
        timers[ch] := timers[ch].(counter := v);
      }
    }

    /** All four channels take `cycles` cycles. */
    method Step(cycles: Word)
      requires Valid()
      modifies this, timers
      ensures Valid()
      ensures timers[..] == StepFrom(old(timers[..]), 0, cycles).0
      ensures overflows == old(overflows) + StepFrom(old(timers[..]), 0, cycles).1
      ensures requests == old(requests) + Irqs(old(timers[..]), 0, StepFrom(old(timers[..]), 0, cycles).1)
    {
      hide StepChannel, Irqs;
      ghost var first := timers[..];
      ghost var target := StepFrom(first, 0, cycles);
      ghost var emitted: set<nat> := {};
      IrqsOfNone(first, 0);
      for ch := 0 to 4
        invariant Valid()
        invariant target.0 == StepFrom(timers[..], ch, cycles).0
        invariant target.1 == emitted + StepFrom(timers[..], ch, cycles).1
        invariant overflows == old(overflows) + emitted && requests == old(requests) + Irqs(first, 0, emitted)
        invariant forall i :: 0 <= i < 4 ==> timers[i].ctrl == first[i].ctrl
      {
        ghost var more := StepChannel(timers[..], ch, cycles).1;
        RequestsGrow(first, emitted, more);
        RequestsBySetup(first, timers[..], more);
        StepChannelBy(ch, cycles);
        emitted := emitted + more;
      }
    }

    /** A reload write also loads the counter; a control write reloads and clears the
        prescaler only on the enabling edge. */
    method Write(ch: nat, control: bool, v: Half)
      requires Valid() && ch < 4
      modifies timers
      ensures Valid()
      ensures forall i :: 0 <= i < 4 && i != ch ==> timers[i] == old(timers[i])
      ensures var t := old(timers[ch]);
        timers[ch] ==
          if !control then t.(reload := v, counter := v)
          else if t.ctrl / 0x80 % 2 == 0 && v / 0x80 % 2 == 1 then t.(ctrl := v, counter := t.reload, acc := 0)
          else t.(ctrl := v)
    {
      var t := timers[ch];
      if control {
        timers[ch] := timers[ch].(ctrl := v);
        if !Enabled(t) && Enabled(timers[ch]) {
          timers[ch] := timers[ch].(counter := t.reload, acc := 0);
        }
        return;
      }
      timers[ch] := t.(reload := v, counter := v);
    }
  }

  lemma SetupKept(t: Timer, acc: nat, ch: nat)
    ensures var u := t.(acc := acc);
      Enabled(u) == Enabled(t) && Cascades(u, ch) == Cascades(t, ch) && Prescale(u) == Prescale(t)
  {
  }
}
