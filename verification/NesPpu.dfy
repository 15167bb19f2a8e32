/** The NES picture unit's counters and scroll address, stepped in place, and the frame
    loop that runs them. */
module NesPpu {
  import opened Words
  import opened NesTiming
  import opened NesScroll

  /** The scroll address after a dot: the vertical step, then the copies from the
      latch, while rendering on a visible or the pre-render line. */
  function Scrolled(b: Beam, rendering: bool, v: Scroll, t: Scroll): Scroll {
    if !rendering || !(b.scanline < 240 || b.scanline == 261) then v
    else
      var w := if b.dot == 256 && b.scanline < 240 then Down(v) else v;
      var x := if b.dot == 257 then w.(coarseX := t.coarseX, ntX := t.ntX) else w;
      if b.scanline == 261 && 280 <= b.dot <= 304
      then x.(coarseY := t.coarseY, ntY := t.ntY, fineY := t.fineY)
      else x
  }

  /** The scroll address after `n` dots from the beam's place. */
  function ScrollAfter(b: Beam, rendering: nat -> bool, from: nat, v: Scroll, t: Scroll, n: nat): Scroll
    decreases n
  {
    if n == 0 then v
    else ScrollAfter(Next(b, rendering(from)), rendering, from + 1, Scrolled(b, rendering(from), v, t), t, n - 1)
  }

  lemma {:induction false} ScrollSplit(b: Beam, rendering: nat -> bool, from: nat, v: Scroll, t: Scroll, m: nat, n: nat)
    ensures var c, w := After(b, rendering, from, m), ScrollAfter(b, rendering, from, v, t, m);
      ScrollAfter(b, rendering, from, v, t, m + n) == ScrollAfter(c, rendering, from + m, w, t, n)
    decreases m
  {
    hide Next, Scrolled;
    if m > 0 {
      ScrollSplit(Next(b, rendering(from)), rendering, from + 1, Scrolled(b, rendering(from), v, t), t, m - 1, n);
    }
  }

  lemma OneScroll(b: Beam, rendering: nat -> bool, from: nat, v: Scroll, t: Scroll)
    ensures ScrollAfter(b, rendering, from, v, t, 1) == Scrolled(b, rendering(from), v, t)
  {
    hide Next, Scrolled;
    assert ScrollAfter(Next(b, rendering(from)), rendering, from + 1, Scrolled(b, rendering(from), v, t), t, 0)
        == Scrolled(b, rendering(from), v, t);
  }

  /** Rendering is on for `n` dots. */
  ghost predicate On(rendering: nat -> bool, from: nat, n: nat) {
    forall i :: from <= i < from + n ==> rendering(i)
  }

  /** The scroll address at every dot of a rendered line. On a visible one it is a line
      down from dot 257 on, with the latch's horizontal bits from dot 258 on; the
      pre-render line takes those bits too, and the latch's vertical bits from dot 281
      on. In vertical blank it stays. */
  lemma {:induction false} LineScroll(line: Half, odd: Byte, rendering: nat -> bool, from: nat, v: Scroll, t: Scroll,
                                      d: Half)
    requires line < 262 && d <= 340 && On(rendering, from, d)
    requires line == 261 && odd != 0 ==> d <= 339
    ensures After(Beam(line, 0, odd), rendering, from, d) == Beam(line, d, odd)
    ensures ScrollAfter(Beam(line, 0, odd), rendering, from, v, t, d) ==
      if line < 240 then
        (if d <= 256 then v else if d == 257 then Down(v) else Down(v).(coarseX := t.coarseX, ntX := t.ntX))
      else if line < 261 || d <= 257 then v
      else if d <= 280 then v.(coarseX := t.coarseX, ntX := t.ntX)
      else Scroll(t.coarseX, t.coarseY, t.ntX, t.ntY, t.fineY, v.top)
    decreases d
  {
    hide After, ScrollAfter, Next, Scrolled, Down;
    var b := Beam(line, 0, odd);
    if d == 0 {
      NoDots(b, rendering, from);
      NoScroll(b, rendering, from, v, t);
    } else {
      LineScroll(line, odd, rendering, from, v, t, d - 1);
      var c := Beam(line, d - 1, odd);
      AfterSplit(b, rendering, from, d - 1, 1);
      ScrollSplit(b, rendering, from, v, t, d - 1, 1);
      OneDot(c, rendering, from + (d - 1));
      var s := ScrollAfter(b, rendering, from, v, t, d - 1);
      OneScroll(c, rendering, from + (d - 1), s, t);
      assert rendering(from + (d - 1));
      LineDot(c, s, t);
    }
  }

  lemma NoScroll(b: Beam, rendering: nat -> bool, from: nat, v: Scroll, t: Scroll)
    ensures ScrollAfter(b, rendering, from, v, t, 0) == v
  {
  }

  lemma LineDot(c: Beam, s: Scroll, t: Scroll)
    requires c.scanline < 262 && c.dot < 340 && !(c.scanline == 261 && c.odd != 0 && c.dot == 339)
    ensures Next(c, true) == c.(dot := c.dot + 1)
    ensures Scrolled(c, true, s, t) ==
      if c.scanline < 240 then
        (if c.dot == 256 then Down(s) else if c.dot == 257 then s.(coarseX := t.coarseX, ntX := t.ntX) else s)
      else if c.scanline == 261 then
        (if c.dot == 257 then s.(coarseX := t.coarseX, ntX := t.ntX)
         else if 280 <= c.dot <= 304 then s.(coarseY := t.coarseY, ntY := t.ntY, fineY := t.fineY)
         else s)
      else s
  {
    hide Down;
  }

  /** A whole rendered line, up to the first dot of the next. */
  lemma LineEnds(line: Half, odd: Byte, rendering: nat -> bool, from: nat, v: Scroll, t: Scroll)
    requires line < 262 && On(rendering, from, 341)
    ensures var b, n := Beam(line, 0, odd), if line == 261 && odd != 0 then 340 else 341;
      && After(b, rendering, from, n) == (if line < 261 then Beam(line + 1, 0, odd) else Beam(0, 0, Flip(odd)))
      && ScrollAfter(b, rendering, from, v, t, n) ==
           if line < 240 then Down(v).(coarseX := t.coarseX, ntX := t.ntX)
           else if line < 261 then v
           else Scroll(t.coarseX, t.coarseY, t.ntX, t.ntY, t.fineY, v.top)
  {
    hide After, ScrollAfter, Down;
    var b := Beam(line, 0, odd);
    var d: Half := if line == 261 && odd != 0 then 339 else 340;
    LineScroll(line, odd, rendering, from, v, t, d);
    var s := ScrollAfter(b, rendering, from, v, t, d);
    AfterSplit(b, rendering, from, d, 1);
    ScrollSplit(b, rendering, from, v, t, d, 1);
    OneDot(Beam(line, d, odd), rendering, from + d);
    OneScroll(Beam(line, d, odd), rendering, from + d, s, t);
    assert rendering(from + d);
  }

  /** The picture: when line k of a frame begins, rendering having been on since the
      pre-render line, the scroll address is the latch's moved k lines down the two
      stacked screens, in the latch's column. */
  lemma {:induction false} PictureLines(odd: Byte, rendering: nat -> bool, from: nat, v: Scroll, t: Scroll, k: nat)
    requires k <= 240 && Fits(v) && Fits(t) && t.coarseY < 30 && On(rendering, from, 341 * (k + 1))
    ensures var b, n := Beam(261, 0, odd), 341 * k + if odd != 0 then 340 else 341;
      var s := ScrollAfter(b, rendering, from, v, t, n);
      && After(b, rendering, from, n) == Beam(k, 0, Flip(odd))
      && Fits(s) && s.coarseX == t.coarseX && s.ntX == t.ntX && s.coarseY < 30 && Line(s) == (Line(t) + k) % 480
    decreases k
  {
    hide After, ScrollAfter, Down, Line;
    var b := Beam(261, 0, odd);
    if k == 0 {
      LineBelow(t);
      LineEnds(261, odd, rendering, from, v, t);
      SameLine(t, Scroll(t.coarseX, t.coarseY, t.ntX, t.ntY, t.fineY, v.top));
      DivModUnique(480, 0, Line(t));
    } else {
      var m := 341 * (k - 1) + if odd != 0 then 340 else 341;
      PictureLines(odd, rendering, from, v, t, k - 1);
      var s := ScrollAfter(b, rendering, from, v, t, m);
      LineEnds(k - 1, Flip(odd), rendering, from + m, s, t);
      AfterSplit(b, rendering, from, m, 341);
      ScrollSplit(b, rendering, from, v, t, m, 341);
      NextLine(s, t, Line(t), k);
    }
  }

  lemma NextLine(s: Scroll, t: Scroll, first: int, k: nat)
    requires Fits(s) && Fits(t) && s.coarseY < 30 && k > 0 && Line(s) == (first + (k - 1)) % 480
    ensures var u := Down(s).(coarseX := t.coarseX, ntX := t.ntX);
      Fits(u) && u.coarseY < 30 && Line(u) == (first + k) % 480
  {
    hide Down, Line;
    DownIff(s);
    SameLine(Down(s), Down(s).(coarseX := t.coarseX, ntX := t.ntX));
    ModShift(first + k, (first + (k - 1)) / 480, 480);
  }

  lemma SameLine(s: Scroll, t: Scroll)
    requires s.ntY == t.ntY && s.coarseY == t.coarseY && s.fineY == t.fineY
    ensures Line(s) == Line(t)
  {
  }

  /** With rendering off the address stays. */
  lemma {:induction false} ScrollOff(b: Beam, rendering: nat -> bool, from: nat, v: Scroll, t: Scroll, n: nat)
    requires forall i :: from <= i < from + n ==> !rendering(i)
    ensures ScrollAfter(b, rendering, from, v, t, n) == v
    decreases n
  {
    hide Next;
    if n > 0 {
      ScrollOff(Next(b, rendering(from)), rendering, from + 1, v, t, n - 1);
    }
  }

  class Ppu {
    var scanline: Half
    var dot: Half
    var oddFrame: Byte
    /** Raised at line 241, dot 1. */
    var vblankEvent: bool
    /** The vertical blank flag of the status register. */
    var vblankFlag: bool
    var v: Half
    var t: Half

    ghost function Position(): Beam
      reads this
    {
      Beam(scanline, dot, oddFrame)
    }

    /** One line down, on the address's bits. */
    method IncY()
      modifies this`v
      ensures Parts(v) == Down(Parts(old(v)))
    {
      hide Parts, Address, FineRow, Row, LowerScreen;
      PartWeights(Parts(v));
      ghost var s := Parts(v);
      AddressOfParts(v);
      DownIff(s);
      if FineRow(v) != 7 {
        PartsOfAddress(s.(fineY := s.fineY + 1));
        v := v + 0x1000;
      } else {
        ghost var top := s.(fineY := 0);
        PartWeights(top);
        PartWeights(top.(ntY := 1 - s.ntY));
        PartsOfAddress(top);
        v := v - 0x7000;
        var y := Row(v);
        if y == 29 {
          PartsOfAddress(top.(ntY := 1 - s.ntY));
          v := if LowerScreen(v) then v - 0x800 else v + 0x800;
          PartsOfAddress(top.(ntY := 1 - s.ntY, coarseY := 0));
          v := v - 29 * 32;
        } else if y == 31 {
          PartsOfAddress(top.(coarseY := 0));
          v := v - 31 * 32;
        } else {
          PartsOfAddress(top.(coarseY := y + 1));
          v := v + 32;
        }
      }
    }

    /** One dot. Drawing, sprite evaluation and the interrupt line are left to the
        rest of the machine. */
    method Tick(rendering: bool)
      modifies this
      ensures Position() == Next(old(Position()), rendering) && t == old(t)
      ensures vblankEvent == (old(vblankEvent) || (old(scanline) == 241 && old(dot) == 1))
      ensures vblankFlag == ((old(scanline) == 241 && old(dot) == 1)
        || (old(vblankFlag) && !(rendering && old(scanline) == 261 && old(dot) == 1)))
      ensures Parts(v) == Scrolled(old(Position()), rendering, Parts(old(v)), Parts(t))
    {
      hide Parts, Down;
      if scanline < 240 || scanline == 261 {
        if rendering {
          if scanline == 261 && dot == 1 {
            vblankFlag := false;
          }
          if dot == 256 && scanline < 240 {
            IncY();
          }
          if dot == 257 {
            CopyHorizontal();
          }
          if scanline == 261 && dot >= 280 && dot <= 304 {
            CopyVertical();
          }
        }
      }
      if scanline == 241 && dot == 1 {
        vblankFlag := true;
        vblankEvent := true;
      }
      if scanline == 261 && dot == 339 && rendering && oddFrame != 0 {
        dot, scanline, oddFrame := 0, 0, Flip(oddFrame);
        return;
      }
      dot := Succ(dot);
      if dot > 340 {
        dot := 0;
        scanline := Succ(scanline);
        if scanline > 261 {
          scanline := 0;
          oddFrame := Flip(oddFrame);
        }
      }
    }

    /** The latch's horizontal bits replace the address's (mask 0x041F). */
    method CopyHorizontal()
      modifies this`v
      ensures Parts(v) == Parts(old(v)).(coarseX := Parts(t).coarseX, ntX := Parts(t).ntX)
    {
      hide Address;
      AddressOfParts(v);
      AddressOfParts(t);
      PartsOfAddress(Parts(v).(coarseX := Parts(t).coarseX, ntX := Parts(t).ntX));
      v := Address(Parts(v).(coarseX := t % 32, ntX := t / 0x400 % 2));
    }

    /** The latch's vertical bits replace the address's (mask 0x7BE0). */
    method CopyVertical()
      modifies this`v
      ensures Parts(v) == Parts(old(v)).(coarseY := Parts(t).coarseY, ntY := Parts(t).ntY, fineY := Parts(t).fineY)
    {
      hide Address;
      AddressOfParts(v);
      AddressOfParts(t);
      PartsOfAddress(Parts(v).(coarseY := Parts(t).coarseY, ntY := Parts(t).ntY, fineY := Parts(t).fineY));
      v := Address(Parts(v).(coarseY := t / 32 % 32, ntY := t / 0x800 % 2, fineY := t / 0x1000 % 8));
    }

    /** Three dots for every processor cycle. The event is raised if it falls due. */
    method Run(cycles: nat, rendering: nat -> bool, from: nat)
      modifies this
      ensures Position() == After(old(Position()), rendering, from, 3 * cycles) && t == old(t)
      ensures Parts(v) == ScrollAfter(old(Position()), rendering, from, old(Parts(v)), Parts(t), 3 * cycles)
      ensures vblankEvent == (old(vblankEvent) || Wait(old(Position()), rendering, from) < 3 * cycles)
    {
      hide Parts, Scrolled, Next, After, ScrollAfter, InFrame, Wait;
      ghost var b, first, latch := Position(), Parts(v), Parts(t);
      NoDots(b, rendering, from);
      NoScroll(b, rendering, from, first, latch);
      for i := 0 to 3 * cycles
        invariant Position() == After(b, rendering, from, i) && t == old(t)
        invariant Parts(v) == ScrollAfter(b, rendering, from, first, latch, i)
        invariant vblankEvent == (old(vblankEvent) || Wait(b, rendering, from) < i)
      {
        ghost var c := Position();
        EventOnce(b, rendering, from, i);
        OneDot(c, rendering, from + i);
        OneScroll(c, rendering, from + i, Parts(v), latch);
        AfterSplit(b, rendering, from, i, 1);
        ScrollSplit(b, rendering, from, first, latch, i, 1);
        Tick(rendering(from + i));
      }
    }
  }

  /** The frame loop: processor steps and their dots until the event, which comes in
      the very step in which it falls due, whatever the program does. */
  method RunFrame(ppu: Ppu, cpu: nat -> nat, rendering: nat -> bool) returns (steps: nat, ghost dots: nat)
    requires forall i: nat :: cpu(i) > 0
    modifies ppu
    ensures ppu.vblankEvent && steps > 0
    ensures ppu.Position() == After(old(ppu.Position()), rendering, 0, dots)
    ensures dots - 3 * cpu(steps - 1) <= Wait(old(ppu.Position()), rendering, 0) < dots
  {
    hide After, Wait, InFrame;
    ghost var b := ppu.Position();
    ghost var due := Wait(b, rendering, 0);
    NoDots(b, rendering, 0);
    ppu.vblankEvent := false;
    steps, dots := 0, 0;
    var at := 0;
    while !ppu.vblankEvent
      invariant at == dots && ppu.Position() == After(b, rendering, 0, dots)
      invariant ppu.vblankEvent <==> due < dots
      invariant ppu.vblankEvent ==> steps > 0 && dots - 3 * cpu(steps - 1) <= due
      decreases if ppu.vblankEvent then 0 else due + 1 - dots
    {
      var cycles := cpu(steps);
      WaitShrinks(b, rendering, dots);
      AfterSplit(b, rendering, 0, dots, 3 * cycles);
      ppu.Run(cycles, rendering, at);
      at := at + 3 * cycles;
      steps, dots := steps + 1, dots + 3 * cycles;
    }
  }

  /** Before it comes the event is as much nearer as dots have passed. */
  lemma WaitShrinks(b: Beam, rendering: nat -> bool, n: nat)
    requires n <= Wait(b, rendering, 0)
    ensures Wait(After(b, rendering, 0, n), rendering, n) == Wait(b, rendering, 0) - n
  {
    hide After, Wait, AtVblank, InFrame;
    var c := After(b, rendering, 0, n);
    var w, u := Wait(b, rendering, 0), Wait(c, rendering, n);
    FirstVblank(b, rendering, 0, n + u);
    FirstVblank(c, rendering, n, w - n);
    AfterSplit(b, rendering, 0, n, u);
    AfterSplit(b, rendering, 0, n, w - n);
  }

  /** Past dots, the event has been raised if and only if its first moment has. */
  lemma EventOnce(b: Beam, rendering: nat -> bool, from: nat, i: nat)
    ensures Wait(b, rendering, from) < i + 1 <==>
      (Wait(b, rendering, from) < i || AtVblank(After(b, rendering, from, i)))
  {
    FirstVblank(b, rendering, from, i);
  }

  lemma PartWeights(s: Scroll)
    ensures forall f: int :: Address(s.(fineY := f)) == Address(s) + 0x1000 * (f - s.fineY)
    ensures forall y: int :: Address(s.(coarseY := y)) == Address(s) + 32 * (y - s.coarseY)
    ensures forall n: int :: Address(s.(ntY := n)) == Address(s) + 0x800 * (n - s.ntY)
  {
  }

  function FineRow(v: Half): (r: int)
    ensures r == Parts(v).fineY
  {
    v / 0x1000 % 8
  }

  function Row(v: Half): (r: int)
    ensures r == Parts(v).coarseY
  {
    v / 32 % 32
  }

  predicate LowerScreen(v: Half)
    ensures LowerScreen(v) == (Parts(v).ntY == 1)
  {
    v / 0x800 % 2 == 1
  }
}
