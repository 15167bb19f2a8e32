/** Hardware timers that count prescaled cycles, reload on overflow and feed the next
    timer of a chain: a closed-form batch against tick-at-a-time counting. */
module Timers {
  import opened Words

  /** `counter` is the visible 16-bit value, `acc` the cycles below the prescaler. */
  datatype Timer = Timer(reload: Half, ctrl: Half, counter: Half, acc: nat)

  predicate Enabled(t: Timer) {
    t.ctrl / 0x80 % 2 == 1
  }

  predicate IrqOn(t: Timer) {
    t.ctrl / 0x40 % 2 == 1
  }

  predicate CascadeBit(t: Timer) {
    t.ctrl / 4 % 2 == 1
  }

  function Prescale(t: Timer): (p: nat)
    ensures p > 0
  {
    var k := t.ctrl % 4;
    if k == 0 then 1 else if k == 1 then 64 else if k == 2 then 256 else 1024
  }

  /** The first timer of the four never cascades. */
  predicate Cascades(t: Timer, idx: nat) {
    idx > 0 && CascadeBit(t)
  }

  predicate Level(t: Timer) {
    t.reload <= t.counter
  }

  /** A timer that counts cycles holds less than a period of them. */
  predicate Settled(t: Timer, idx: nat) {
    Cascades(t, idx) || t.acc < Prescale(t)
  }

  predicate InStep(t: Timer, idx: nat) {
    Level(t) && Settled(t, idx)
  }

  /** The enabled timers at the head of a chain, up to the first disabled one, are
      in step; nothing reaches the rest. */
  predicate LeadInStep(ts: seq<Timer>, idx: nat)
    decreases |ts|
  {
    ts == [] || !Enabled(ts[0]) || (InStep(ts[0], idx) && LeadInStep(ts[1..], idx + 1))
  }

  // ---- the batch ------------------------------------------------------------

  /** Counts that reach the counter, and the accumulator they leave. */
  function Advance(t: Timer, idx: nat, counts: nat): (r: (nat, nat)) {
    hide Cascades, Prescale;
    DivModRange(t.acc + counts, Prescale(t));
    if Cascades(t, idx) then (counts, t.acc)
    else ((t.acc + counts) / Prescale(t), (t.acc + counts) % Prescale(t))
  }

  /** The counter's distance above reload as the 32-bit subtraction computes it. */
  function Above(t: Timer): Word {
    Wrap(t.counter - t.reload)
  }

  function Span(t: Timer): (w: nat)
    ensures w > 0
  {
    0x10000 - t.reload
  }

  /** The counter `all` counts above a reload. */
  function Rewound(t: Timer, all: nat): (c: Half)
    ensures t.reload <= c
  {
    DivModRange(all, Span(t));
    t.reload + all % Span(t)
  }

  /** The head timer's own share of a batch, and the overflows it passes on. */
  function Head(t: Timer, idx: nat, counts: nat): (r: (Timer, nat))
    ensures r.0.ctrl == t.ctrl && r.0.reload == t.reload
  {
    hide Cascades, Above, Span, Rewound, Advance;
    var (n, acc) := Advance(t, idx, counts);
    var all := Above(t) + n;
    DivModRange(all, Span(t));
    if n == 0 && !Cascades(t, idx) then (t.(acc := acc), 0)
    else (t.(acc := acc, counter := Rewound(t, all)), all / Span(t))
  }

  /** `counts` for timer `idx` at the head of a chain: the chain afterwards and the
      set of timers that overflowed. */
  function Feed(ts: seq<Timer>, idx: nat, counts: nat): (r: (seq<Timer>, set<nat>))
    ensures |r.0| == |ts|
    decreases |ts|
  {
    if ts == [] || !Enabled(ts[0]) then (ts, {})
    else
      var (u, over) := Head(ts[0], idx, counts);
      if over == 0 then ([u] + ts[1..], {})
      else
        var (rest, ovf) := Feed(ts[1..], idx + 1, over);
        ([u] + rest, {idx} + ovf)
  }

  /** The interrupts that go with a set of overflows of a chain starting at `idx`. */
  function Irqs(ts: seq<Timer>, idx: nat, ovf: set<nat>): set<nat> {
    set i | i in ovf && idx <= i < idx + |ts| && IrqOn(ts[i - idx])
  }

  // ---- tick at a time -------------------------------------------------------

  /** A single count. */
  function Tick(ts: seq<Timer>, idx: nat): (r: (seq<Timer>, set<nat>))
    ensures |r.0| == |ts|
    decreases |ts|
  {
    if ts == [] || !Enabled(ts[0]) then (ts, {})
    else
      var t := ts[0];
      if !Cascades(t, idx) && t.acc + 1 < Prescale(t) then ([t.(acc := t.acc + 1)] + ts[1..], {})
      else
        var u := if Cascades(t, idx) then t else t.(acc := 0);
        if t.counter < 0xFFFF then ([u.(counter := t.counter + 1)] + ts[1..], {})
        else
          var (rest, ovf) := Tick(ts[1..], idx + 1);
          ([u.(counter := t.reload)] + rest, {idx} + ovf)
  }

  function Ticks(ts: seq<Timer>, idx: nat, n: nat): (r: (seq<Timer>, set<nat>))
    ensures |r.0| == |ts|
    decreases n
  {
    if n == 0 then (ts, {})
    else
      var (a, ovf) := Ticks(ts, idx, n - 1);
      var (b, more) := Tick(a, idx);
      (b, ovf + more)
  }

  // ---- splitting a batch ----------------------------------------------------

  lemma SplitDivision(x: nat, a: nat, b: nat, m: nat)
    requires m > 0
    ensures (x + a) / m + ((x + a) % m + b) / m == (x + a + b) / m
    ensures ((x + a) % m + b) % m == (x + a + b) % m
  {
    var q, r := (x + a) / m, (x + a) % m;
    var q2, r2 := (r + b) / m, (r + b) % m;
    assert x + a == q * m + r && r + b == q2 * m + r2;
    assert x + a + b == (q + q2) * m + r2;
    DivModUnique(m, q + q2, r2);
  }

  lemma SmallDivision(x: nat, m: nat)
    requires x < m
    ensures x / m == 0 && x % m == x
  {
    DivModUnique(m, 0, x);
  }

  lemma DivModRange(x: nat, m: nat)
    requires m > 0
    ensures 0 <= x / m && 0 <= x % m < m
  {
  }

  lemma AboveLevel(t: Timer)
    requires Level(t)
    ensures Above(t) == t.counter - t.reload < Span(t)
  {
  }

  lemma FeedIdle(ts: seq<Timer>, idx: nat, n: nat)
    requires ts == [] || !Enabled(ts[0])
    ensures Feed(ts, idx, n) == (ts, {})
  {
  }

  lemma FeedHead(ts: seq<Timer>, idx: nat, n: nat)
    requires ts != [] && Enabled(ts[0])
    ensures var (u, over) := Head(ts[0], idx, n);
      Feed(ts, idx, n) == if over == 0 then ([u] + ts[1..], {})
        else ([u] + Feed(ts[1..], idx + 1, over).0, {idx} + Feed(ts[1..], idx + 1, over).1)
  {
  }

  lemma SameControl(t: Timer, u: Timer, idx: nat)
    requires t.ctrl == u.ctrl
    ensures Cascades(u, idx) == Cascades(t, idx) && Prescale(u) == Prescale(t)
  {
  }

  lemma SameEnable(t: Timer, u: Timer)
    requires t.ctrl == u.ctrl
    ensures Enabled(u) == Enabled(t) && CascadeBit(u) == CascadeBit(t) && IrqOn(u) == IrqOn(t)
  {
  }

  lemma AdvanceSplit(t: Timer, u: Timer, idx: nat, a: nat, b: nat)
    requires u.ctrl == t.ctrl && u.acc == Advance(t, idx, a).1
    ensures Advance(t, idx, a + b) == (Advance(t, idx, a).0 + Advance(u, idx, b).0, Advance(u, idx, b).1)
  {
    hide Cascades, Prescale;
    SameControl(t, u, idx);
    if !Cascades(t, idx) {
      SplitDivision(t.acc, a, b, Prescale(t));
    }
  }

  /** What a counter is worth after `all` counts above its reload. */
  lemma AboveRewound(t: Timer, u: Timer, all: nat)
    requires u.reload == t.reload && u.counter == Rewound(t, all)
    ensures Above(u) == all % Span(t) && Span(u) == Span(t)
  {
    hide Above;
    DivModRange(all, Span(t));
    AboveLevel(u);
  }

  /** Splitting a batch for the head alone, in any state. */
  lemma HeadSplit(t: Timer, idx: nat, a: nat, b: nat)
    ensures var (u, first) := Head(t, idx, a);
      var (w, second) := Head(u, idx, b);
      Head(t, idx, a + b) == (w, first + second)
  {
    hide Advance, Above, Span, Cascades;
    var u := Head(t, idx, a).0;
    var n, m := Advance(t, idx, a).0, Advance(u, idx, b).0;
    AdvanceSplit(t, u, idx, a, b);
    SameControl(t, u, idx);
    if n == 0 && !Cascades(t, idx) {
      SameAbove(t, u);
    } else {
      AboveRewound(t, u, Above(t) + n);
      SplitDivision(Above(t), n, m, Span(t));
    }
  }

  lemma SameAbove(t: Timer, u: Timer)
    requires u.reload == t.reload && u.counter == t.counter
    ensures Above(u) == Above(t) && Span(u) == Span(t) && forall all: nat :: Rewound(u, all) == Rewound(t, all)
  {
  }

  /** Feeding a batch in two parts gives the same timers and the same overflows,
      through any chain and in any state. */
  lemma {:induction false} FeedSplit(ts: seq<Timer>, idx: nat, a: nat, b: nat)
    ensures var (mid, first) := Feed(ts, idx, a);
      var (end, second) := Feed(mid, idx, b);
      Feed(ts, idx, a + b) == (end, first + second)
    decreases |ts|
  {
    hide Head, Enabled, Feed;
    var (mid, first) := Feed(ts, idx, a);
    if ts != [] && Enabled(ts[0]) {
      var (u, o1) := Head(ts[0], idx, a);
      var (w, o2) := Head(u, idx, b);
      FeedHead(ts, idx, a);
      FeedHead(ts, idx, a + b);
      HeadSplit(ts[0], idx, a, b);
      SameEnable(ts[0], u);
      var rest := if o1 == 0 then ts[1..] else Feed(ts[1..], idx + 1, o1).0;
      assert mid == [u] + rest && mid[1..] == rest;
      FeedHead(mid, idx, b);
      if o1 > 0 && o2 > 0 {
        FeedSplit(ts[1..], idx + 1, o1, o2);
        JoinSets(idx, Feed(ts[1..], idx + 1, o1).1, Feed(rest, idx + 1, o2).1);
      } else {
        JoinEmpty(first, Feed(mid, idx, b).1);
      }
    } else {
      FeedIdle(ts, idx, a);
      FeedIdle(ts, idx, b);
      FeedIdle(ts, idx, a + b);
      JoinEmpty(first, {});
    }
  }

  lemma JoinSets(i: nat, a: set<nat>, b: set<nat>)
    ensures ({i} + a) + ({i} + b) == {i} + (a + b)
  {
  }

  lemma JoinEmpty(a: set<nat>, b: set<nat>)
    ensures a == {} ==> a + b == b
    ensures b == {} ==> a + b == a
  {
  }

  /** Feeding touches neither settings nor timers outside the chain. */
  lemma {:induction false} FeedKeepsSettings(ts: seq<Timer>, idx: nat, counts: nat)
    ensures forall i :: i in Feed(ts, idx, counts).1 ==> idx <= i < idx + |ts|
    ensures var us := Feed(ts, idx, counts).0;
      forall i :: 0 <= i < |ts| ==> us[i].ctrl == ts[i].ctrl && us[i].reload == ts[i].reload
    decreases |ts|
  {
    hide Head, Enabled;
    if ts != [] && Enabled(ts[0]) {
      var over := Head(ts[0], idx, counts).1;
      FeedKeepsSettings(ts[1..], idx + 1, over);
      assert forall i :: 1 <= i < |ts| ==> ts[i] == ts[1..][i - 1];
    }
  }

  lemma HeadKeepsStep(t: Timer, idx: nat, counts: nat)
    requires InStep(t, idx)
    ensures InStep(Head(t, idx, counts).0, idx)
  {
    hide Above, Span, Rewound;
    var u := Head(t, idx, counts).0;
    SameControl(t, u, idx);
    AdvanceSettles(t, idx, counts);
  }

  lemma AdvanceSettles(t: Timer, idx: nat, counts: nat)
    ensures !Cascades(t, idx) ==> Advance(t, idx, counts).1 < Prescale(t)
  {
    hide Cascades, Prescale;
    DivModRange(t.acc + counts, Prescale(t));
  }

  /** Feeding keeps a chain in step. */
  lemma {:induction false} FeedKeepsStep(ts: seq<Timer>, idx: nat, counts: nat)
    requires LeadInStep(ts, idx)
    ensures LeadInStep(Feed(ts, idx, counts).0, idx)
    decreases |ts|
  {
    hide Head, Enabled, InStep;
    if ts != [] && Enabled(ts[0]) {
      var (u, over) := Head(ts[0], idx, counts);
      HeadKeepsStep(ts[0], idx, counts);
      SameEnable(ts[0], u);
      FeedKeepsStep(ts[1..], idx + 1, over);
      var us := Feed(ts, idx, counts).0;
      assert us[0] == u && us[1..] == if over == 0 then ts[1..] else Feed(ts[1..], idx + 1, over).0;
    }
  }

  // ---- a batch against as many ticks ----------------------------------------

  lemma HeadOne(t: Timer, idx: nat)
    requires InStep(t, idx)
    ensures Head(t, idx, 1) ==
      if !Cascades(t, idx) && t.acc + 1 < Prescale(t) then (t.(acc := t.acc + 1), 0)
      else
        var u := if Cascades(t, idx) then t else t.(acc := 0);
        if t.counter < 0xFFFF then (u.(counter := t.counter + 1), 0)
        else (u.(counter := t.reload), 1)
  {
    hide Cascades, Prescale, Above;
    AboveLevel(t);
    if !Cascades(t, idx) {
      OneMore(t.acc, Prescale(t));
    }
    OneMore(t.counter - t.reload, Span(t));
  }

  lemma OneMore(x: nat, m: nat)
    requires x < m
    ensures (x + 1) / m == (if x + 1 < m then 0 else 1) && (x + 1) % m == if x + 1 < m then x + 1 else 0
  {
    if x + 1 < m {
      DivModUnique(m, 0, x + 1);
    } else {
      DivModUnique(m, 1, 0);
    }
  }

  /** A batch of one is a tick. */
  lemma {:induction false} FeedOne(ts: seq<Timer>, idx: nat)
    requires LeadInStep(ts, idx)
    ensures Feed(ts, idx, 1) == Tick(ts, idx)
    decreases |ts|
  {
    hide Head, InStep, Prescale, Cascades, Enabled;
    if ts != [] && Enabled(ts[0]) {
      HeadOne(ts[0], idx);
      FeedOne(ts[1..], idx + 1);
    }
  }

  lemma {:induction false} FeedNothing(ts: seq<Timer>, idx: nat)
    requires LeadInStep(ts, idx)
    ensures Feed(ts, idx, 0) == (ts, {})
    decreases |ts|
  {
    hide Prescale, Cascades, Enabled, Above;
    if ts != [] && Enabled(ts[0]) {
      var t := ts[0];
      AboveLevel(t);
      if !Cascades(t, idx) {
        SmallDivision(t.acc, Prescale(t));
      }
      SmallDivision(t.counter - t.reload, Span(t));
      assert [t] + ts[1..] == ts;
    }
  }

  /** In step, a batch is that many ticks, for a chain of any length. */
  lemma {:induction false} BatchIsTicks(ts: seq<Timer>, idx: nat, n: nat)
    requires LeadInStep(ts, idx)
    ensures Feed(ts, idx, n) == Ticks(ts, idx, n)
    decreases n
  {
    hide Feed, Tick, LeadInStep;
    if n == 0 {
      FeedNothing(ts, idx);
    } else {
      BatchIsTicks(ts, idx, n - 1);
      FeedKeepsStep(ts, idx, n - 1);
      FeedSplit(ts, idx, n - 1, 1);
      FeedOne(Feed(ts, idx, n - 1).0, idx);
    }
  }

  // ---- exactly when they agree ----------------------------------------------

  predicate LeadLevel(ts: seq<Timer>) {
    ts == [] || !Enabled(ts[0]) || (Level(ts[0]) && LeadLevel(ts[1..]))
  }

  predicate LeadSettled(ts: seq<Timer>, idx: nat)
    decreases |ts|
  {
    ts == [] || !Enabled(ts[0]) || (Settled(ts[0], idx) && LeadSettled(ts[1..], idx + 1))
  }

  lemma {:induction false} LeadParts(ts: seq<Timer>, idx: nat)
    ensures LeadInStep(ts, idx) <==> LeadLevel(ts) && LeadSettled(ts, idx)
    decreases |ts|
  {
    hide Enabled, Level, Settled;
    if ts != [] {
      LeadParts(ts[1..], idx + 1);
    }
  }

  /** Ticks of a chain with its head in step are the head's share of them, and as
      many ticks of the rest as the head overflows. */
  lemma {:induction false} TicksHead(ts: seq<Timer>, idx: nat, n: nat)
    requires ts != [] && Enabled(ts[0]) && InStep(ts[0], idx)
    ensures var (u, over) := Head(ts[0], idx, n);
      var (rest, ovf) := Ticks(ts[1..], idx + 1, over);
      Ticks(ts, idx, n) == ([u] + rest, if over == 0 then {} else {idx} + ovf)
    decreases n
  {
    hide Head, InStep, Prescale, Cascades, Enabled, Tick, Ticks;
    var t, tail := ts[0], ts[1..];
    if n == 0 {
      HeadNone(t, idx);
      TicksNone(ts, idx);
      TicksNone(tail, idx + 1);
      assert [t] + tail == ts;
    } else {
      TicksHead(ts, idx, n - 1);
      var (u, over) := Head(t, idx, n - 1);
      HeadKeepsStep(t, idx, n - 1);
      SameEnable(t, u);
      HeadSplit(t, idx, n - 1, 1);
      var (rest, ovf) := Ticks(tail, idx + 1, over);
      TickOfHead([u] + rest, u, rest, idx);
      TicksSnoc(ts, idx, n - 1);
      TicksNone(tail, idx + 1);
      TicksSnoc(tail, idx + 1, over);
      OverflowSets(idx, over, ovf, Tick(rest, idx + 1).1);
    }
  }

  lemma OverflowSets(idx: nat, over: nat, ovf: set<nat>, more: set<nat>)
    requires over == 0 ==> ovf == {}
    ensures (if over == 0 then {} else {idx} + ovf) + ({idx} + more) == {idx} + (ovf + more)
    ensures (if over == 0 then {} else {idx} + ovf) + {} == if over == 0 then {} else {idx} + ovf
  {
  }

  lemma TicksNone(ts: seq<Timer>, idx: nat)
    ensures Ticks(ts, idx, 0) == (ts, {})
  {
  }

  lemma TicksSnoc(ts: seq<Timer>, idx: nat, n: nat)
    ensures var (a, ovf) := Ticks(ts, idx, n);
      Ticks(ts, idx, n + 1) == (Tick(a, idx).0, ovf + Tick(a, idx).1)
  {
  }

  /** A tick of a chain whose head is in step. */
  lemma TickOfHead(ts: seq<Timer>, u: Timer, rest: seq<Timer>, idx: nat)
    requires ts == [u] + rest && Enabled(u) && InStep(u, idx)
    ensures var (w, over) := Head(u, idx, 1);
      over <= 1 && Tick(ts, idx) ==
        if over == 0 then ([w] + rest, {}) else ([w] + Tick(rest, idx + 1).0, {idx} + Tick(rest, idx + 1).1)
  {
    hide Head, InStep, Prescale, Cascades, Enabled;
    HeadOne(u, idx);
    assert ts[0] == u && ts[1..] == rest;
  }

  lemma HeadNone(t: Timer, idx: nat)
    requires InStep(t, idx)
    ensures Head(t, idx, 0) == (t, 0)
  {
    hide Cascades, Prescale, Above;
    AboveLevel(t);
    if !Cascades(t, idx) {
      SmallDivision(t.acc, Prescale(t));
    }
    SmallDivision(t.counter - t.reload, Span(t));
  }

  lemma {:induction false} TicksRange(ts: seq<Timer>, idx: nat, n: nat)
    ensures forall i :: i in Ticks(ts, idx, n).1 ==> idx <= i
    decreases n
  {
    hide Tick;
    if n > 0 {
      TicksRange(ts, idx, n - 1);
      TickRange(Ticks(ts, idx, n - 1).0, idx);
    }
  }

  lemma {:induction false} TickRange(ts: seq<Timer>, idx: nat)
    ensures forall i :: i in Tick(ts, idx).1 ==> idx <= i
    decreases |ts|
  {
    hide Enabled, Cascades, Prescale;
    if ts != [] {
      TickRange(ts[1..], idx + 1);
    }
  }

  /** Cycles short of a period only accumulate. */
  lemma {:induction false} TicksAccumulate(ts: seq<Timer>, idx: nat, n: nat)
    requires ts != [] && Enabled(ts[0]) && !Cascades(ts[0], idx) && ts[0].acc + n < Prescale(ts[0])
    ensures Ticks(ts, idx, n) == ([ts[0].(acc := ts[0].acc + n)] + ts[1..], {})
    decreases n
  {
    hide Enabled, Cascades, Prescale;
    var t := ts[0];
    if n == 0 {
      assert [t] + ts[1..] == ts;
    } else {
      TicksAccumulate(ts, idx, n - 1);
      var u := t.(acc := t.acc + (n - 1));
      SameEnable(t, u);
      SameControl(t, u, idx);
      TicksSnoc(ts, idx, n - 1);
      var before := [u] + ts[1..];
      assert before[0] == u && before[1..] == ts[1..];
      JoinEmpty({}, {});
    }
  }

  /** Cycles until a settled timer's counter next moves. */
  function NextCount(t: Timer, idx: nat): (n: nat)
    requires Settled(t, idx)
    ensures n > 0
  {
    if Cascades(t, idx) then 1 else Prescale(t) - t.acc
  }

  lemma AdvanceToCount(t: Timer, idx: nat, counts: nat)
    requires Settled(t, idx) && counts > 0
    ensures var n := if Cascades(t, idx) then counts else counts * Prescale(t) - t.acc;
      n > 0 && Advance(t, idx, n).0 == counts
  {
    hide Cascades, Prescale;
    if !Cascades(t, idx) {
      AtLeastOnce(counts, Prescale(t));
      DivModUnique(Prescale(t), counts, 0);
    }
  }

  lemma AtLeastOnce(k: nat, m: nat)
    requires k > 0
    ensures k * m >= m
  {
    assert (k - 1) * m >= 0;
  }

  /** Below its reload the head does not overflow on its next count, but the batch
      says it does: the 32-bit difference wraps to at least 2^32 - 65535. */
  lemma HeadDiverges(ts: seq<Timer>, idx: nat)
    requires ts != [] && Enabled(ts[0]) && Settled(ts[0], idx) && !Level(ts[0])
    ensures var n := NextCount(ts[0], idx);
      idx in Feed(ts, idx, n).1 && Ticks(ts, idx, n).1 == {}
  {
    hide Enabled, Cascades, Prescale, Above, Span, Rewound, Advance;
    var t := ts[0];
    var n := NextCount(t, idx);
    AdvanceToCount(t, idx, 1);
    WrappedOverflows(t);
    FeedHead(ts, idx, n);
    if Cascades(t, idx) {
      assert Ticks(ts, idx, 0) == (ts, {});
    } else {
      TicksAccumulate(ts, idx, n - 1);
      var u := t.(acc := t.acc + (n - 1));
      SameEnable(t, u);
      SameControl(t, u, idx);
      var before := Ticks(ts, idx, n - 1).0;
      assert before[0] == u && before[1..] == ts[1..];
    }
  }

  lemma WrappedOverflows(t: Timer)
    requires !Level(t)
    ensures (Above(t) + 1) / Span(t) > 0
  {
    DivModUnique(0x1_0000_0000, -1, t.counter - t.reload + 0x1_0000_0000);
    var w := Span(t);
    var x := Above(t) + 1;
    assert x >= w;
    assert x == x / w * w + x % w;
  }

  /** A timer in step can be made to overflow any number of times exactly. */
  lemma OverflowsReachable(t: Timer, idx: nat, m: nat) returns (n: nat)
    requires InStep(t, idx) && m > 0
    ensures n > 0 && Head(t, idx, n).1 == m
  {
    hide Cascades, Prescale, Advance, Above;
    var counts := m * Span(t) - (t.counter - t.reload);
    AtLeastOnce(m, Span(t));
    AboveLevel(t);
    AdvanceToCount(t, idx, counts);
    n := if Cascades(t, idx) then counts else counts * Prescale(t) - t.acc;
    DivModUnique(Span(t), m, 0);
  }

  /** A batch on which a settled chain differs from ticks, unless all are level. */
  lemma {:induction false} Diverges(ts: seq<Timer>, idx: nat) returns (n: nat)
    requires LeadSettled(ts, idx) && !LeadLevel(ts)
    ensures n > 0 && Feed(ts, idx, n) != Ticks(ts, idx, n)
    decreases |ts|
  {
    hide Head, Enabled, Level, Settled, Feed, Ticks;
    if !Level(ts[0]) {
      n := NextCount(ts[0], idx);
      HeadDiverges(ts, idx);
    } else {
      var tail := ts[1..];
      var m := Diverges(tail, idx + 1);
      n := OverflowsReachable(ts[0], idx, m);
      var u := Head(ts[0], idx, n).0;
      FeedHead(ts, idx, n);
      TicksHead(ts, idx, n);
      FeedKeepsSettings(tail, idx + 1, m);
      TicksRange(tail, idx + 1, m);
      var (a, s) := Feed(tail, idx + 1, m);
      var (b, t) := Ticks(tail, idx + 1, m);
      Unjoin(u, a, b, idx, s, t);
    }
  }

  lemma Unjoin(u: Timer, a: seq<Timer>, b: seq<Timer>, idx: nat, s: set<nat>, t: set<nat>)
    requires a != b || s != t
    requires idx !in s && idx !in t
    ensures [u] + a != [u] + b || {idx} + s != {idx} + t
  {
    if a != b {
      assert ([u] + a)[1..] == a && ([u] + b)[1..] == b;
    } else {
      assert ({idx} + s) - {idx} == s && ({idx} + t) - {idx} == t;
    }
  }

  /** Batches agree with ticks if and only if no timer of the leading run is below
      its reload. */
  lemma BatchIsTicksIff(ts: seq<Timer>, idx: nat)
    requires LeadSettled(ts, idx)
    ensures (forall n: nat :: n > 0 ==> Feed(ts, idx, n) == Ticks(ts, idx, n)) <==> LeadLevel(ts)
  {
    hide LeadLevel, LeadSettled, LeadInStep, Feed, Ticks;
    LeadParts(ts, idx);
    if LeadLevel(ts) {
      forall n: nat | n > 0
        ensures Feed(ts, idx, n) == Ticks(ts, idx, n)
      {
        BatchIsTicks(ts, idx, n);
      }
    } else {
      var n := Diverges(ts, idx);
    }
  }

  /** The same for a timer alone. */
  lemma OneTimerIff(t: Timer, idx: nat)
    requires Enabled(t) && Settled(t, idx)
    ensures (forall n: nat :: n > 0 ==> Feed([t], idx, n) == Ticks([t], idx, n)) <==> t.reload <= t.counter
  {
    hide Enabled, Feed, Ticks, Settled;
    assert [t][1..] == [];
    assert LeadSettled([t][1..], idx + 1) && LeadLevel([t][1..]);
    BatchIsTicksIff([t], idx);
  }

  // ---- register writes and the order of counter and reload ------------------

  /** Writing the reload halfword of the DS timers leaves the counter alone. */
  function WriteReload(t: Timer, v: Half): Timer {
    t.(reload := v)
  }

  /** Writing the control halfword keeps its low byte, and restarts if bit 7 is set. */
  function WriteControl(t: Timer, v: Half): Timer {
    var u := t.(ctrl := v % 0x100);
    if v / 0x80 % 2 == 1 then u.(counter := t.reload, acc := 0) else u
  }

  /** Control writes always leave an enabled timer in step; reload writes keep it in
      step exactly when the new reload is not above the counter. */
  lemma WritesKeepStep(t: Timer, idx: nat, v: Half)
    ensures Enabled(WriteControl(t, v)) ==> InStep(WriteControl(t, v), idx)
    ensures InStep(t, idx) ==> (InStep(WriteReload(t, v), idx) <==> v <= t.counter)
  {
    hide Cascades, Prescale;
    SameControl(t, WriteReload(t, v), idx);
    ModOfMod(v, 0x80, 2);
    LowByteBit(v);
  }

  lemma LowByteBit(v: Half)
    ensures v % 0x100 / 0x80 % 2 == v / 0x80 % 2
  {
    var q, r := v / 0x100, v % 0x100;
    var b, l := r / 0x80, r % 0x80;
    assert v == (2 * q + b) * 0x80 + l;
    DivModUnique(0x80, 2 * q + b, l);
    ModShift(2 * q + b, q, 2);
  }

  /** The smallest case: reload 2 written under a running counter of 1. */
  lemma LateReloadOverflows(t: Timer)
    requires t == WriteReload(WriteControl(Timer(1, 0, 0, 0), 0x80), 2)
    ensures t.counter == 1 && t.reload == 2
    ensures Ticks([t], 0, 1).1 == {} && 0 in Feed([t], 0, 1).1
  {
    assert Enabled(t) && Prescale(t) == 1 && NextCount(t, 0) == 1;
    HeadDiverges([t], 0);
  }

  // ---- the batch in numbers -------------------------------------------------

  /** Cycles that move a counter by one, by bits 0 and 1 of the control word. */
  lemma CyclesPerCount(t: Timer)
    ensures t.ctrl % 4 == 0 ==> Prescale(t) == 1
    ensures t.ctrl % 4 == 1 ==> Prescale(t) == 64
    ensures t.ctrl % 4 == 2 ==> Prescale(t) == 256
    ensures t.ctrl % 4 == 3 ==> Prescale(t) == 1024
  {
  }

  /** A batch on the head's registers alone. With bit 7 of the control word clear
      nothing moves. Otherwise the counter takes k counts, one for every 1, 64, 256 or
      1024 cycles by bits 0 and 1 (for every count of its own if it is not the first
      timer and bit 2 is set), `rest` cycles being left; it ends at c, having passed
      FFFFh and started again from reload `passes` times, and each pass goes to the
      next timer as a count. */
  lemma FeedInNumbers(ts: seq<Timer>, idx: nat, n: nat, p: nat, k: nat, rest: nat, passes: nat, c: Half)
    requires ts != [] && ts[0].reload <= ts[0].counter
    requires ts[0].ctrl % 4 == 0 ==> p == 1
    requires ts[0].ctrl % 4 == 1 ==> p == 64
    requires ts[0].ctrl % 4 == 2 ==> p == 256
    requires ts[0].ctrl % 4 == 3 ==> p == 1024
    requires idx > 0 && ts[0].ctrl / 4 % 2 == 1 ==> k == n && rest == ts[0].acc
    requires idx == 0 || ts[0].ctrl / 4 % 2 == 0 ==> ts[0].acc + n == k * p + rest && rest < p
    requires ts[0].counter + k == c + passes * (0x10000 - ts[0].reload) && ts[0].reload <= c
    ensures passes > 0 <==> ts[0].counter + k > 0xFFFF
    ensures var u := ts[0].(acc := rest, counter := c);
      Feed(ts, idx, n) ==
        if ts[0].ctrl / 0x80 % 2 == 0 then (ts, {})
        else if passes == 0 then ([u] + ts[1..], {})
        else ([u] + Feed(ts[1..], idx + 1, passes).0, {idx} + Feed(ts[1..], idx + 1, passes).1)
  {
    var t := ts[0];
    hide Head, Advance, Prescale, Feed;
    CyclesPerCount(t);
    CountsInNumbers(t, idx, n, k, rest);
    HeadInNumbers(t, idx, n, k, rest, passes, c);
    if Enabled(t) {
      FeedHead(ts, idx, n);
    } else {
      FeedIdle(ts, idx, n);
    }
  }

  lemma CountsInNumbers(t: Timer, idx: nat, n: nat, k: nat, rest: nat)
    requires Cascades(t, idx) ==> k == n && rest == t.acc
    requires !Cascades(t, idx) ==> t.acc + n == k * Prescale(t) + rest && rest < Prescale(t)
    ensures Advance(t, idx, n) == (k, rest)
  {
    hide Prescale, Cascades;
    if !Cascades(t, idx) {
      DivModUnique(Prescale(t), k, rest);
    }
  }

  lemma HeadInNumbers(t: Timer, idx: nat, n: nat, k: nat, rest: nat, passes: nat, c: Half)
    requires Level(t) && Advance(t, idx, n) == (k, rest)
    requires t.counter + k == c + passes * (0x10000 - t.reload) && t.reload <= c
    ensures passes > 0 <==> t.counter + k > 0xFFFF
    ensures Head(t, idx, n) == (t.(acc := rest, counter := c), passes)
  {
    hide Advance, Cascades;
    AboveLevel(t);
    var w := Span(t);
    DivModUnique(w, passes, c - t.reload);
    if passes > 0 {
      AtLeastOnce(passes, w);
    }
    hide Above;
  }

  /** The interrupts of a set of overflows: those whose timers have bit 6 set. */
  lemma IrqsInNumbers(ts: seq<Timer>, idx: nat, ovf: set<nat>, i: nat)
    requires forall j :: j in ovf ==> idx <= j < idx + |ts|
    ensures i in Irqs(ts, idx, ovf) <==> i in ovf && ts[i - idx].ctrl / 0x40 % 2 == 1
  {
  }

  // ---- cycles through the DS timers' front end ------------------------------

  /** Whole periods in a number of cycles, and the accumulator with the remainder. */
  function FirstDivision(t: Timer, cycles: nat): (r: (nat, nat)) {
    (cycles / Prescale(t), (t.acc + cycles % Prescale(t)) % Prescale(t))
  }

  /** What timer i does with a number of cycles: the remainder of a first division by
      the prescaler joins the accumulator, and the quotient is fed to the chain. */
  function Share(ts: seq<Timer>, i: nat, cycles: nat): (r: (seq<Timer>, set<nat>))
    requires i < |ts|
    ensures |r.0| == |ts|
  {
    var t := ts[i];
    if !Enabled(t) || Cascades(t, i) then (ts, {})
    else
      var (n, acc) := FirstDivision(t, cycles);
      var us := ts[i := t.(acc := acc)];
      if n == 0 then (us, {})
      else
        var (rest, ovf) := Feed(us[i..], i, n);
        (us[..i] + rest, ovf)
  }

  /** Timers i and up, in turn. */
  function Shares(ts: seq<Timer>, i: nat, cycles: nat): (r: (seq<Timer>, set<nat>))
    requires i <= |ts|
    ensures |r.0| == |ts|
    decreases |ts| - i
  {
    if i == |ts| then (ts, {})
    else
      var (a, ovf) := Share(ts, i, cycles);
      var (b, more) := Shares(a, i + 1, cycles);
      (b, ovf + more)
  }

  /** Timer i and the chain below it after a batch of as many cycles. */
  function Batched(ts: seq<Timer>, i: nat, cycles: nat): (seq<Timer>, set<nat>)
    requires i < |ts|
  {
    (ts[..i] + Feed(ts[i..], i, cycles).0, Feed(ts[i..], i, cycles).1)
  }

  /** The prescaler divides twice, before the batch and in it: cycles are counted as the
      batch counts them, whatever their number, exactly at prescaler 1. */
  lemma SharesAsBatchIff(ts: seq<Timer>, i: nat)
    requires i < |ts| && Enabled(ts[i]) && !Cascades(ts[i], i) && InStep(ts[i], i)
    ensures (forall cycles: Word :: Share(ts, i, cycles) == Batched(ts, i, cycles)) <==> ts[i].ctrl % 4 == 0
  {
    hide Share, Batched;
    CyclesPerCount(ts[i]);
    if ts[i].ctrl % 4 == 0 {
      forall cycles: Word
        ensures Share(ts, i, cycles) == Batched(ts, i, cycles)
      {
        ShareAtOne(ts, i, cycles);
      }
    } else {
      ShareDiffers(ts, i);
    }
  }

  lemma ShareAtOne(ts: seq<Timer>, i: nat, cycles: nat)
    requires i < |ts| && Enabled(ts[i]) && !Cascades(ts[i], i) && InStep(ts[i], i) && Prescale(ts[i]) == 1
    ensures Share(ts, i, cycles) == Batched(ts, i, cycles)
  {
    hide Feed, Enabled, Cascades, Prescale;
    var t := ts[i];
    DivModUnique(1, cycles, 0);
    assert t.(acc := (t.acc + cycles % 1) % 1) == t && ts[i := t] == ts;
    hide Head;
    HeadNone(t, i);
    FeedHead(ts[i..], i, 0);
    assert [t] + ts[i..][1..] == ts[i..] && ts[..i] + ts[i..] == ts;
  }

  /** One period of cycles adds one to the accumulator instead of to the counter. */
  lemma ShareDiffers(ts: seq<Timer>, i: nat)
    requires i < |ts| && Enabled(ts[i]) && !Cascades(ts[i], i) && InStep(ts[i], i) && Prescale(ts[i]) > 1
    ensures Share(ts, i, Prescale(ts[i])) != Batched(ts, i, Prescale(ts[i]))
  {
    hide Feed, Enabled, Cascades, Prescale, Level, Head;
    var t, p := ts[i], Prescale(ts[i]);
    DivModUnique(p, 1, 0);
    SmallDivision(t.acc, p);
    assert ts[i := t.(acc := (t.acc + p % p) % p)] == ts;
    HeadAcc(t, i, 1);
    HeadAcc(t, i, p);
    FeedHeadFirst(ts[i..], i, 1);
    FeedHeadFirst(ts[i..], i, p);
    OneMoreLeft(t.acc, p);
    assert Share(ts, i, p).0[i] == Feed(ts[i..], i, 1).0[0];
    assert Batched(ts, i, p).0[i] == Feed(ts[i..], i, p).0[0];
  }

  /** Timer i through several numbers of cycles, one after the other. */
  function Stepped(ts: seq<Timer>, i: nat, steps: seq<nat>): (r: (seq<Timer>, set<nat>))
    requires i < |ts|
    ensures |r.0| == |ts|
    decreases |steps|
  {
    if steps == [] then (ts, {})
    else
      var (a, ovf) := Share(ts, i, steps[0]);
      var (b, more) := Stepped(a, i, steps[1..]);
      (b, ovf + more)
  }

  /** As long as every step is shorter than the prescaler nothing is ever counted: the
      first division drops the whole periods that the remainders add up to. */
  lemma {:induction false} ShortStepsCountNothing(ts: seq<Timer>, i: nat, steps: seq<nat>)
    requires i < |ts| && Enabled(ts[i]) && !Cascades(ts[i], i)
    requires forall s :: s in steps ==> s < Prescale(ts[i])
    ensures var us := Stepped(ts, i, steps).0;
      us == ts[i := ts[i].(acc := us[i].acc)] && Stepped(ts, i, steps).1 == {}
    decreases |steps|
  {
    hide Feed, Enabled, Cascades, Prescale;
    if steps != [] {
      var t := ts[i];
      assert steps[0] in steps && forall s :: s in steps[1..] ==> s in steps;
      SmallDivision(steps[0], Prescale(t));
      var a := Share(ts, i, steps[0]).0;
      SameControl(t, a[i], i);
      SameEnable(t, a[i]);
      ShortStepsCountNothing(a, i, steps[1..]);
    } else {
      assert ts[i := ts[i].(acc := ts[i].acc)] == ts;
    }
  }

  lemma HeadAcc(t: Timer, idx: nat, n: nat)
    requires !Cascades(t, idx)
    ensures Head(t, idx, n).0.acc == (t.acc + n) % Prescale(t)
  {
    hide Cascades, Prescale, Above, Rewound;
  }

  lemma FeedHeadFirst(ts: seq<Timer>, idx: nat, n: nat)
    requires ts != [] && Enabled(ts[0])
    ensures Feed(ts, idx, n).0[0] == Head(ts[0], idx, n).0
  {
    hide Head, Enabled, Feed;
    FeedHead(ts, idx, n);
  }

  lemma OneMoreLeft(a: nat, p: nat)
    requires a < p && p > 1
    ensures (a + p) % p == a != (a + 1) % p
  {
    DivModUnique(p, 1, a);
    if a + 1 < p {
      SmallDivision(a + 1, p);
    } else {
      DivModUnique(p, 1, 0);
    }
  }

  // ---- per-tick counting with a single level of cascade ---------------------

  /** The timers that counting on `ch` can touch: the next one takes part if its
      cascade bit is set, whether it is enabled or not. */
  function Chain(ts: seq<Timer>, ch: nat): (c: seq<Timer>)
    requires ch < |ts|
    ensures 1 <= |c| <= 2
  {
    if ch + 1 < |ts| && CascadeBit(ts[ch + 1]) then [ts[ch], Force(ts[ch + 1])] else [ts[ch]]
  }

  /** Writing a chain's counters back. */
  function Put(ts: seq<Timer>, ch: nat, c: seq<Timer>): (r: seq<Timer>)
    requires ch + |c| <= |ts| && 1 <= |c| <= 2
    ensures |r| == |ts|
  {
    var u := ts[ch := c[0]];
    if |c| == 2 then u[ch + 1 := ts[ch + 1].(counter := c[1].counter)] else u
  }

  /** `t` as a cascade target, counting whatever its enable bit says. */
  function Force(t: Timer): Timer {
    if Enabled(t) then t
    else
      BitAdded(t.ctrl, 0x80, 1);
      t.(ctrl := t.ctrl + 0x80)
  }

  /** Setting bit 7 of a word that has it clear: a bit of weight w at or below it. */
  lemma BitAdded(c: Half, w: nat, k: nat)
    requires c / 0x80 % 2 == 0 && w > 0 && w * k == 0x80
    ensures c + 0x80 < 0x10000
    ensures (c + 0x80) / w == c / w + k
  {
    DivModUnique(w, c / w + k, c % w);
    assert c == c / w * w + c % w;
    assert (c / w + k) * w == c / w * w + k * w;
  }

  lemma Forced(t: Timer)
    ensures var f := Force(t);
      Enabled(f) && CascadeBit(f) == CascadeBit(t) && IrqOn(f) == IrqOn(t) && f == t.(ctrl := f.ctrl)
  {
    if !Enabled(t) {
      BitAdded(t.ctrl, 0x80, 1);
      BitAdded(t.ctrl, 0x40, 2);
      BitAdded(t.ctrl, 4, 0x20);
      ModShift(t.ctrl / 4, -0x10, 2);
      ModShift(t.ctrl / 0x40, -1, 2);
    }
  }

  /** One count of the head of a chain of one or two timers. */
  function Count(c: seq<Timer>, idx: nat): (r: (seq<Timer>, set<nat>))
    requires 1 <= |c| <= 2
    ensures |r.0| == |c|
  {
    var t := c[0];
    if t.counter < 0xFFFF then (c[0 := t.(counter := t.counter + 1)], {})
    else
      var u := t.(counter := t.reload);
      if |c| == 1 then ([u], {idx})
      else if c[1].counter < 0xFFFF then ([u, c[1].(counter := c[1].counter + 1)], {idx})
      else ([u, c[1].(counter := c[1].reload)], {idx, idx + 1})
  }

  function WithAcc(c: seq<Timer>, acc: nat): (r: seq<Timer>)
    requires c != []
    ensures |r| == |c|
  {
    c[0 := c[0].(acc := acc)]
  }

  /** A counting timer and, at most, one that it cascades into. */
  predicate Paired(c: seq<Timer>, idx: nat) {
    1 <= |c| <= 2 && Enabled(c[0]) && !Cascades(c[0], idx) && (|c| == 2 ==> Enabled(c[1]) && CascadeBit(c[1]))
  }

  predicate Ordered(ts: seq<Timer>) {
    forall i :: 0 <= i < |ts| ==> Level(ts[i])
  }

  lemma FeedLast(d: Timer, idx: nat)
    requires idx > 0 && Enabled(d) && CascadeBit(d) && Level(d)
    ensures Feed([d], idx, 1) ==
      if d.counter < 0xFFFF then ([d.(counter := d.counter + 1)], {}) else ([d.(counter := d.reload)], {idx})
  {
    hide Enabled, CascadeBit, Prescale, Head, Level;
    assert [d][1..] == [];
    FeedHead([d], idx, 1);
    HeadOne(d, idx);
    FeedIdle([d][1..], idx + 1, 1);
    assert [d.(counter := d.reload)] + [] == [d.(counter := d.reload)];
    if d.counter < 0xFFFF {
      assert [d.(counter := d.counter + 1)] + [] == [d.(counter := d.counter + 1)];
    }
    JoinEmpty({idx}, {});
  }

  lemma HeadPeriod(t: Timer, idx: nat)
    requires !Cascades(t, idx) && t.acc == 0 && Level(t)
    ensures Head(t, idx, Prescale(t)) ==
      if t.counter < 0xFFFF then (t.(counter := t.counter + 1), 0) else (t.(counter := t.reload), 1)
  {
    hide Cascades, Prescale, Above;
    AboveLevel(t);
    DivModUnique(Prescale(t), 1, 0);
    OneMore(t.counter - t.reload, Span(t));
  }

  /** A full prescaler period is one count. */
  lemma PeriodIsCount(c: seq<Timer>, idx: nat)
    requires Paired(c, idx) && Ordered(c) && c[0].acc == 0
    ensures Feed(c, idx, Prescale(c[0])) == Count(c, idx)
    ensures Ordered(Count(c, idx).0)
  {
    hide Feed, Enabled, CascadeBit, Prescale, Head;
    var t := c[0];
    HeadPeriod(t, idx);
    FeedHead(c, idx, Prescale(t));
    var u := Head(t, idx, Prescale(t)).0;
    assert [u] + c[1..] == c[0 := u];
    if |c| == 2 {
      var d := c[1];
      assert c[1..] == [d];
      FeedLast(d, idx + 1);
      var moved := if d.counter < 0xFFFF then d.(counter := d.counter + 1) else d.(counter := d.reload);
      assert [u] + [moved] == [u, moved] && {idx} + {idx + 1} == {idx, idx + 1};
    } else {
      assert c[1..] == [] && [u] + [] == [u];
      FeedIdle(c[1..], idx + 1, 1);
    }
    JoinEmpty({idx}, {});
  }

  /** Fewer cycles than a period only accumulate. */
  lemma BelowPeriod(c: seq<Timer>, idx: nat)
    requires c != [] && Enabled(c[0]) && !Cascades(c[0], idx) && c[0].acc < Prescale(c[0])
    ensures Feed(WithAcc(c, 0), idx, c[0].acc) == (c, {})
  {
    hide Cascades, Enabled, Prescale, Above, Span;
    var d := WithAcc(c, 0);
    SameControl(c[0], d[0], idx);
    SmallDivision(c[0].acc, Prescale(c[0]));
    SameEnable(c[0], d[0]);
    assert Head(d[0], idx, c[0].acc) == (c[0], 0);
    assert [c[0]] + d[1..] == c;
  }

  /** Everything but the counters and the head's accumulator is as in `d`. */
  predicate SameSetup(c: seq<Timer>, d: seq<Timer>) {
    |c| == |d|
    && (forall i :: 0 <= i < |c| ==> c[i].ctrl == d[i].ctrl && c[i].reload == d[i].reload)
    && (forall i :: 1 <= i < |c| ==> c[i].acc == d[i].acc)
  }

  lemma ChainOfPut(ts: seq<Timer>, ch: nat, c: seq<Timer>)
    requires ch < |ts| && SameSetup(c, Chain(ts, ch))
    ensures Chain(Put(ts, ch, c), ch) == c
  {
    hide Enabled, IrqOn;
    if |c| == 2 {
      var u := Put(ts, ch, c)[ch + 1];
      SameEnable(ts[ch + 1], u);
    } else if ch + 1 < |ts| {
      assert Put(ts, ch, c)[ch + 1] == ts[ch + 1];
    }
  }

  lemma PutChain(ts: seq<Timer>, ch: nat)
    requires ch < |ts|
    ensures Put(ts, ch, Chain(ts, ch)) == ts
  {
    hide Enabled, IrqOn;
  }

  // ---- one channel and one step of the per-tick model -----------------------

  /** What is left to count when the accumulator holds whole periods. */
  function Pending(ts: seq<Timer>, ch: nat): (r: (seq<Timer>, set<nat>))
    requires ch < |ts|
    ensures |r.0| == |ts|
  {
    var (c, ovf) := Feed(WithAcc(Chain(ts, ch), 0), ch, ts[ch].acc);
    (Put(ts, ch, c), ovf)
  }

  /** The prescaler sum is a 32-bit one. */
  function Accumulated(ts: seq<Timer>, ch: nat, cycles: Word): (r: seq<Timer>)
    requires ch < |ts|
    ensures |r| == |ts|
  {
    ts[ch := ts[ch].(acc := Wrap(ts[ch].acc + cycles))]
  }

  /** A channel that counts cycles feeds its chain what the prescaler sum holds; a
      disabled or cascading channel does nothing. */
  function StepChannel(ts: seq<Timer>, ch: nat, cycles: Word): (r: (seq<Timer>, set<nat>))
    requires ch < |ts|
    ensures |r.0| == |ts|
  {
    if !Enabled(ts[ch]) || Cascades(ts[ch], ch) then (ts, {})
    else Pending(Accumulated(ts, ch, cycles), ch)
  }

  /** Channels `ch` and up, in turn. */
  function StepFrom(ts: seq<Timer>, ch: nat, cycles: Word): (r: (seq<Timer>, set<nat>))
    requires ch <= |ts|
    ensures |r.0| == |ts|
    decreases |ts| - ch
  {
    if ch == |ts| then (ts, {})
    else
      var (a, ovf) := StepChannel(ts, ch, cycles);
      var (b, more) := StepFrom(a, ch + 1, cycles);
      (b, ovf + more)
  }

  /** A channel that counts cycles takes the batch on its chain; a prescaler sum
      that wraps loses exactly 2^32 cycles. Any other channel is left alone. */
  lemma StepIsFeed(ts: seq<Timer>, ch: nat, cycles: Word)
    requires ch < |ts|
    ensures var (us, ovf) := StepChannel(ts, ch, cycles);
      var c, total := Chain(ts, ch), ts[ch].acc + cycles;
      if !Enabled(ts[ch]) || Cascades(ts[ch], ch) then us == ts && ovf == {}
      else
        var (d, set1) := if total < 0x1_0000_0000 then Feed(c, ch, cycles)
          else Feed(WithAcc(c, 0), ch, total - total / 0x1_0000_0000 * 0x1_0000_0000);
        us == Put(ts, ch, d) && ovf == set1
  {
    hide Enabled, Cascades, Prescale, Above, Span, CascadeBit, IrqOn, Wrap, Feed, Force;
    var c, total := Chain(ts, ch), ts[ch].acc + cycles;
    if Enabled(ts[ch]) && !Cascades(ts[ch], ch) {
      WrapLoses(total);
      var us := Accumulated(ts, ch, cycles);
      assert WithAcc(Chain(us, ch), 0) == WithAcc(c, 0);
      if total < 0x1_0000_0000 {
        AccIsCounts(c, ch, cycles);
      }
      PutIgnoresAcc(ts, ch, Wrap(total), Feed(WithAcc(c, 0), ch, Wrap(total)).0);
    }
  }

  /** A channel of the per-tick model on the registers alone: as the batch's head, for
      a prescaler sum below 2^32, and a next timer with bit 2 set takes each pass as a
      count whether it is enabled or not. No other timer changes. */
  lemma ChannelInNumbers(ts: seq<Timer>, ch: nat, cycles: Word, p: nat, k: nat, rest: nat, passes: nat, c: Half,
                         over: nat, d: Half)
    requires ch < |ts| && Ordered(ts)
    requires ts[ch].ctrl / 0x80 % 2 == 1 && (ch == 0 || ts[ch].ctrl / 4 % 2 == 0)
    requires ts[ch].ctrl % 4 == 0 ==> p == 1
    requires ts[ch].ctrl % 4 == 1 ==> p == 64
    requires ts[ch].ctrl % 4 == 2 ==> p == 256
    requires ts[ch].ctrl % 4 == 3 ==> p == 1024
    requires ts[ch].acc + cycles == k * p + rest && rest < p && ts[ch].acc + cycles < 0x1_0000_0000
    requires ts[ch].counter + k == c + passes * (0x10000 - ts[ch].reload) && ts[ch].reload <= c
    requires ch + 1 < |ts| && ts[ch + 1].ctrl / 4 % 2 == 1 ==>
      ts[ch + 1].counter + passes == d + over * (0x10000 - ts[ch + 1].reload) && ts[ch + 1].reload <= d
    ensures var (us, ovf), moved := StepChannel(ts, ch, cycles), ts[ch := ts[ch].(acc := rest, counter := c)];
      if ch + 1 < |ts| && ts[ch + 1].ctrl / 4 % 2 == 1 then
        && us == moved[ch + 1 := ts[ch + 1].(counter := d)]
        && ovf == (if passes > 0 then {ch} else {}) + if over > 0 then {ch + 1} else {}
      else us == moved && ovf == if passes > 0 then {ch} else {}
  {
    hide Head, Advance, Prescale, Feed, StepChannel, Force, IrqOn;
    var q := Chain(ts, ch);
    StepIsFeed(ts, ch, cycles);
    FeedInNumbers(q, ch, cycles, p, k, rest, passes, c);
    if |q| == 2 {
      var f, u := Force(ts[ch + 1]), ts[ch].(acc := rest, counter := c);
      Forced(ts[ch + 1]);
      SecondInNumbers(ts[ch + 1], ch + 1, passes, over, d);
      NothingPassed(ts[ch + 1], passes, over, d);
      assert q[1..] == [f] && [u] + [f.(counter := d)] == [u, f.(counter := d)];
      assert f.(counter := f.counter) == f && [u] + [f] == [u, f];
    } else {
      assert q[1..] == [];
      FeedIdle([], ch + 1, passes);
    }
  }

  lemma SecondInNumbers(t: Timer, idx: nat, n: nat, over: nat, d: Half)
    requires idx > 0 && Level(t) && CascadeBit(t)
    requires t.counter + n == d + over * (0x10000 - t.reload) && t.reload <= d
    ensures Feed([Force(t)], idx, n) == ([Force(t).(counter := d)], if over > 0 then {idx} else {})
  {
    hide Prescale, Feed, Force, IrqOn, Enabled, CascadeBit, Head, Advance;
    var f := Force(t);
    Forced(t);
    CountsInNumbers(f, idx, n, n, f.acc);
    HeadInNumbers(f, idx, n, n, f.acc, over, d);
    FeedHead([f], idx, n);
    FeedIdle([], idx + 1, over);
    assert [f][1..] == [] && [f.(counter := d)] + [] == [f.(counter := d)] && {idx} + {} == {idx};
  }

  lemma NothingPassed(t: Timer, n: nat, over: nat, d: Half)
    requires t.counter + n == d + over * (0x10000 - t.reload) && t.reload <= d
    ensures n == 0 ==> d == t.counter && over == 0
  {
    if over > 0 {
      AtLeastOnce(over, 0x10000 - t.reload);
    }
  }

  lemma WrapLoses(v: nat)
    ensures Wrap(v) == v - v / 0x1_0000_0000 * 0x1_0000_0000
    ensures v < 0x1_0000_0000 ==> Wrap(v) == v
  {
  }

  lemma AccIsCounts(c: seq<Timer>, idx: nat, n: nat)
    requires c != [] && Enabled(c[0]) && !Cascades(c[0], idx)
    ensures Feed(WithAcc(c, 0), idx, c[0].acc + n) == Feed(c, idx, n)
  {
    hide Prescale, Cascades, Enabled, Above, Span, Rewound;
    var d := WithAcc(c, 0);
    SameControl(c[0], d[0], idx);
    SameEnable(c[0], d[0]);
    SameAbove(c[0], d[0]);
    assert Advance(d[0], idx, c[0].acc + n) == Advance(c[0], idx, n);
    assert Head(d[0], idx, c[0].acc + n) == Head(c[0], idx, n);
    assert d[1..] == c[1..];
  }

  /** The timers after one counted period of channel `ch`. */
  function Counted(ts: seq<Timer>, ch: nat): (r: seq<Timer>)
    requires ch < |ts|
    ensures |r| == |ts|
  {
    Put(ts, ch, Count(Chain(ts, ch), ch).0)
  }

  lemma NothingPending(ts: seq<Timer>, ch: nat)
    requires ch < |ts| && Enabled(ts[ch]) && !Cascades(ts[ch], ch) && ts[ch].acc < Prescale(ts[ch])
    ensures Pending(ts, ch) == (ts, {})
  {
    hide Enabled, Cascades, Prescale, Feed, Chain, Put;
    assert Chain(ts, ch)[0] == ts[ch] by {
      ChainHead(ts, ch);
    }
    BelowPeriod(Chain(ts, ch), ch);
    PutChain(ts, ch);
  }

  lemma ChainHead(ts: seq<Timer>, ch: nat)
    requires ch < |ts|
    ensures Chain(ts, ch)[0] == ts[ch]
  {
  }

  lemma CountSetup(c: seq<Timer>, idx: nat, acc: nat)
    requires 1 <= |c| <= 2
    ensures SameSetup(Count(c, idx).0, c) && Count(c, idx).0[0].acc == c[0].acc
    ensures Count(WithAcc(c, acc), idx) == (WithAcc(Count(c, idx).0, acc), Count(c, idx).1)
  {
    var d := WithAcc(c, acc);
    assert d[1..] == c[1..];
    assert Count(d, idx).0 == WithAcc(Count(c, idx).0, acc);
  }

  lemma CountedKeeps(ts: seq<Timer>, ch: nat)
    requires ch < |ts| && Ordered(ts)
    ensures var us := Counted(ts, ch);
      Ordered(us) && us[ch].acc == ts[ch].acc && forall i :: 0 <= i < |ts| ==> us[i].ctrl == ts[i].ctrl
  {
    hide CascadeBit;
  }

  lemma ChainPaired(ts: seq<Timer>, ch: nat)
    requires ch < |ts| && Ordered(ts) && Enabled(ts[ch]) && !Cascades(ts[ch], ch)
    ensures var c := WithAcc(Chain(ts, ch), 0);
      Paired(c, ch) && Ordered(c) && c[0].ctrl == ts[ch].ctrl
  {
    hide Enabled, CascadeBit, IrqOn;
    var c := WithAcc(Chain(ts, ch), 0);
    SameControl(ts[ch], c[0], ch);
    SameEnable(ts[ch], c[0]);
    if ch + 1 < |ts| {
      Forced(ts[ch + 1]);
    }
  }

  lemma PutCounted(ts: seq<Timer>, us: seq<Timer>, ch: nat, c: seq<Timer>)
    requires ch < |ts| && us == Put(ts, ch, Count(Chain(ts, ch), ch).0) && |c| == |Chain(ts, ch)|
    ensures Put(us, ch, c) == Put(ts, ch, c)
  {
    hide CascadeBit;
  }

  /** Counting one period off leaves the same work pending. */
  lemma PendingStep(ts: seq<Timer>, ch: nat)
    requires ch < |ts| && Ordered(ts) && Enabled(ts[ch]) && !Cascades(ts[ch], ch)
    requires Prescale(ts[ch]) <= ts[ch].acc
    ensures var less := ts[ch := ts[ch].(acc := ts[ch].acc - Prescale(ts[ch]))];
      Pending(ts, ch) ==
        (Pending(Counted(less, ch), ch).0, Count(Chain(less, ch), ch).1 + Pending(Counted(less, ch), ch).1)
  {
    hide Enabled, Cascades, CascadeBit, Prescale, Feed, Count, Put, Force, Wrap, IrqOn, Paired, Ordered;
    var p := Prescale(ts[ch]);
    var less := ts[ch := ts[ch].(acc := ts[ch].acc - p)];
    var c := WithAcc(Chain(ts, ch), 0);
    assert Chain(less, ch) == WithAcc(c, ts[ch].acc - p);
    ChainPaired(ts, ch);
    SameControl(ts[ch], c[0], ch);
    FeedSplit(c, ch, p, ts[ch].acc - p);
    PeriodIsCount(c, ch);
    CountSetup(c, ch, ts[ch].acc - p);
    var d := Count(c, ch).0;
    var us := Counted(less, ch);
    assert us == Put(less, ch, WithAcc(d, ts[ch].acc - p));
    ChainOfPut(less, ch, WithAcc(d, ts[ch].acc - p));
    assert WithAcc(Chain(us, ch), 0) == d;
    var e := Feed(d, ch, ts[ch].acc - p).0;
    PutCounted(less, us, ch, e);
    PutIgnoresAcc(ts, ch, ts[ch].acc - p, e);
    ChainHead(us, ch);
  }

  lemma PutIgnoresAcc(ts: seq<Timer>, ch: nat, acc: nat, c: seq<Timer>)
    requires ch + |c| <= |ts| && 1 <= |c| <= 2
    ensures Put(ts[ch := ts[ch].(acc := acc)], ch, c) == Put(ts, ch, c)
  {
  }
}
