/** Where the NES picture unit is in its frame, dot by dot, and when vertical blank
    comes, whatever the program does to the rendering switch. */
module NesTiming {
  import opened Words

  /** All three counters can be loaded with any value of their width. */
  datatype Beam = Beam(scanline: Half, dot: Half, odd: Byte)

  const DOTS := 341
  const LINES := 262
  const FRAME := 89342
  /** The place of line 241, dot 1. */
  const VBLANK := 82182
  /** The place of the pre-render line's dot 339, the last but one. */
  const LAST := 89340

  predicate InFrame(b: Beam) {
    b.scanline < LINES && b.dot < DOTS
  }

  function Place(b: Beam): nat {
    b.scanline * DOTS + b.dot
  }

  predicate AtVblank(b: Beam) {
    b.scanline == 241 && b.dot == 1
  }

  /** The lowest bit inverted. */
  function Flip(odd: Byte): (f: Byte)
    ensures f / 2 == odd / 2 && f % 2 != odd % 2
  {
    if odd % 2 == 0 then odd + 1 else odd - 1
  }

  /** One dot. Odd frames skip the last dot of the pre-render line while rendering;
      the counters are 16 bits wide. */
  function Next(b: Beam, rendering: bool): (c: Beam) {
    if b.scanline == 261 && b.dot == 339 && rendering && b.odd != 0 then Beam(0, 0, Flip(b.odd))
    else
      var dot, line := Succ(b.dot), Succ(b.scanline);
      if dot <= 340 then b.(dot := dot)
      else if line <= 261 then b.(scanline := line, dot := 0)
      else Beam(0, 0, Flip(b.odd))
  }

  function Succ(v: Half): Half {
    if v == 0xFFFF then 0 else v + 1
  }

  /** After `n` dots; dot i sees the switch as `rendering(from + i)`. */
  function After(b: Beam, rendering: nat -> bool, from: nat, n: nat): Beam
    decreases n
  {
    if n == 0 then b else After(Next(b, rendering(from)), rendering, from + 1, n - 1)
  }

  lemma Places(b: Beam)
    requires InFrame(b)
    ensures Place(b) < FRAME
    ensures AtVblank(b) <==> Place(b) == VBLANK
    ensures b.scanline == 261 && b.dot == 339 <==> Place(b) == LAST
    ensures Place(b) == 0 <==> b.scanline == 0 && b.dot == 0
  {
  }

  lemma NextPlace(b: Beam, rendering: bool)
    requires InFrame(b)
    ensures var c := Next(b, rendering);
      InFrame(c) && if (Place(b) == LAST && rendering && b.odd != 0) || Place(b) == FRAME - 1
        then Place(c) == 0 && c.odd == Flip(b.odd)
        else Place(c) == Place(b) + 1 && c.odd == b.odd
  {
  }

  lemma {:induction false} AfterSplit(b: Beam, rendering: nat -> bool, from: nat, m: nat, n: nat)
    ensures After(b, rendering, from, m + n) == After(After(b, rendering, from, m), rendering, from + m, n)
    decreases m
  {
    hide Next;
    if m > 0 {
      AfterSplit(Next(b, rendering(from)), rendering, from + 1, m - 1, n);
    }
  }

  lemma {:induction false} StaysInFrame(b: Beam, rendering: nat -> bool, from: nat, n: nat)
    requires InFrame(b)
    ensures InFrame(After(b, rendering, from, n))
    decreases n
  {
    hide Next, InFrame;
    if n > 0 {
      NextPlace(b, rendering(from));
      StaysInFrame(Next(b, rendering(from)), rendering, from + 1, n - 1);
    }
  }

  /** Up to the last dot but one the beam just advances. */
  lemma {:induction false} Straight(b: Beam, rendering: nat -> bool, from: nat, n: nat)
    requires InFrame(b) && Place(b) + n <= LAST
    ensures var c := After(b, rendering, from, n);
      InFrame(c) && Place(c) == Place(b) + n && c.odd == b.odd
    decreases n
  {
    hide Next, InFrame, Place;
    if n > 0 {
      NextPlace(b, rendering(from));
      Straight(Next(b, rendering(from)), rendering, from + 1, n - 1);
    }
  }

  /** Dots before the one that raises vertical blank, from inside the frame. */
  function WaitInside(b: Beam, rendering: nat -> bool, from: nat): (k: nat)
    requires InFrame(b)
    ensures k < FRAME
  {
    Places(b);
    var p := Place(b);
    if p <= VBLANK then VBLANK - p
    else if p <= LAST && b.odd != 0 && rendering(from + LAST - p) then FRAME + VBLANK - p - 1
    else FRAME + VBLANK - p
  }

  /** The dots from `p` to the first of the next frame. */
  lemma Wraps(b: Beam, rendering: nat -> bool, from: nat)
    requires InFrame(b)
    ensures var p := Place(b);
      var short := p <= LAST && b.odd != 0 && rendering(from + LAST - p);
      var n := FRAME - p - if short then 1 else 0;
      n > 0 && var c := After(b, rendering, from, n);
      InFrame(c) && Place(c) == 0 && c.odd == Flip(b.odd)
  {
    hide Next, InFrame, Place, After;
    Places(b);
    var p := Place(b);
    if p <= LAST {
      Straight(b, rendering, from, LAST - p);
      var c := After(b, rendering, from, LAST - p);
      var at := from + LAST - p;
      NextPlace(c, rendering(at));
      OneDot(c, rendering, at);
      AfterSplit(b, rendering, from, LAST - p, 1);
      if !(b.odd != 0 && rendering(at)) {
        var d := Next(c, rendering(at));
        NextPlace(d, rendering(at + 1));
        OneDot(d, rendering, at + 1);
        AfterSplit(b, rendering, from, LAST - p + 1, 1);
      }
    } else {
      NextPlace(b, rendering(from));
      OneDot(b, rendering, from);
    }
  }

  lemma OneDot(b: Beam, rendering: nat -> bool, from: nat)
    ensures After(b, rendering, from, 1) == Next(b, rendering(from))
  {
    assert After(Next(b, rendering(from)), rendering, from + 1, 0) == Next(b, rendering(from));
  }

  lemma FirstInside(b: Beam, rendering: nat -> bool, from: nat, k: nat)
    requires InFrame(b)
    ensures var w := WaitInside(b, rendering, from);
      AtVblank(After(b, rendering, from, w)) && (k < w ==> !AtVblank(After(b, rendering, from, k)))
  {
    hide Next, InFrame, Place, After, AtVblank;
    Places(b);
    var p := Place(b);
    var w := WaitInside(b, rendering, from);
    if p <= VBLANK {
      Straight(b, rendering, from, w);
      Places(After(b, rendering, from, w));
      if k < w {
        Straight(b, rendering, from, k);
        Places(After(b, rendering, from, k));
      }
    } else {
      var n := FRAME - p - if p <= LAST && b.odd != 0 && rendering(from + LAST - p) then 1 else 0;
      Wraps(b, rendering, from);
      var c := After(b, rendering, from, n);
      AfterSplit(b, rendering, from, n, VBLANK);
      Straight(c, rendering, from + n, VBLANK);
      Places(After(c, rendering, from + n, VBLANK));
      if n <= k < w {
        AfterSplit(b, rendering, from, n, k - n);
        Straight(c, rendering, from + n, k - n);
        Places(After(c, rendering, from + n, k - n));
      } else if k < n {
        BeforeWrap(b, rendering, from, k);
        StaysInFrame(b, rendering, from, k);
        Places(After(b, rendering, from, k));
      }
    }
  }

  lemma BeforeWrap(b: Beam, rendering: nat -> bool, from: nat, k: nat)
    requires InFrame(b)
    requires k < FRAME - Place(b) - if Place(b) <= LAST && b.odd != 0 && rendering(from + LAST - Place(b)) then 1 else 0
    ensures Place(After(b, rendering, from, k)) == Place(b) + k
  {
    hide Next, InFrame, Place, After;
    if Place(b) + k <= LAST {
      Straight(b, rendering, from, k);
    } else if k > 0 {
      var c := After(b, rendering, from, k - 1);
      Straight(b, rendering, from, k - 1);
      NextPlace(c, rendering(from + k - 1));
      OneDot(c, rendering, from + k - 1);
      AfterSplit(b, rendering, from, k - 1, 1);
    } else {
      NoDots(b, rendering, from);
    }
  }

  lemma NoDots(b: Beam, rendering: nat -> bool, from: nat)
    ensures After(b, rendering, from, 0) == b
  {
  }

  // ---- from anywhere --------------------------------------------------------

  function ToFrame(b: Beam): nat {
    if InFrame(b) then 0 else if b.dot > 340 then 342 else 341 - b.dot
  }

  lemma Outside(b: Beam, rendering: bool)
    requires !InFrame(b)
    ensures Next(b, rendering) == Next(b, false) && ToFrame(Next(b, false)) < ToFrame(b)
  {
  }

  /** Dots until the counters are back in the frame. */
  function Entry(b: Beam): (k: nat)
    ensures k <= ToFrame(b) <= 342
    decreases ToFrame(b)
  {
    if InFrame(b) then 0
    else
      Outside(b, false);
      1 + Entry(Next(b, false))
  }

  lemma {:induction false} Enters(b: Beam, rendering: nat -> bool, from: nat, k: nat)
    ensures var e := Entry(b);
      InFrame(After(b, rendering, from, e)) && (k < e ==> !InFrame(After(b, rendering, from, k)))
    decreases ToFrame(b)
  {
    hide Next, InFrame;
    if InFrame(b) {
      NoDots(b, rendering, from);
    } else {
      Outside(b, rendering(from));
      Outside(b, false);
      Enters(Next(b, false), rendering, from + 1, if k > 0 then k - 1 else 0);
    }
  }

  /** Dots before the one that raises vertical blank, from any counter values. */
  function Wait(b: Beam, rendering: nat -> bool, from: nat): (k: nat)
    ensures k < FRAME + 342
  {
    var e := Entry(b);
    Enters(b, rendering, from, 0);
    e + WaitInside(After(b, rendering, from, e), rendering, from + e)
  }

  /** The event comes after exactly `Wait` dots, less than a frame and a line, and
      not before. */
  lemma FirstVblank(b: Beam, rendering: nat -> bool, from: nat, k: nat)
    ensures var w := Wait(b, rendering, from);
      AtVblank(After(b, rendering, from, w)) && (k < w ==> !AtVblank(After(b, rendering, from, k)))
    ensures InFrame(b) ==> Wait(b, rendering, from) == WaitInside(b, rendering, from) < FRAME
  {
    hide Next, InFrame, After, WaitInside;
    var e, w := Entry(b), Wait(b, rendering, from);
    Enters(b, rendering, from, k);
    var c := After(b, rendering, from, e);
    FirstInside(c, rendering, from + e, if k >= e then k - e else 0);
    AfterSplit(b, rendering, from, e, w - e);
    if k < e {
      VblankInFrame(After(b, rendering, from, k));
    } else {
      AfterSplit(b, rendering, from, e, k - e);
    }
    NoDots(b, rendering, from);
  }

  lemma VblankInFrame(b: Beam)
    ensures AtVblank(b) ==> InFrame(b)
  {
  }

  /** From the dot that raises the event to the next such dot. */
  function FrameDots(b: Beam, rendering: nat -> bool, from: nat): (n: nat)
    requires InFrame(b) && AtVblank(b)
  {
    NextPlace(b, rendering(from));
    1 + WaitInside(Next(b, rendering(from)), rendering, from + 1)
  }

  /** Events are a frame apart, or a dot less exactly when an odd frame reaches the
      end of the pre-render line with rendering on; the parity flips each time. */
  lemma Spacing(b: Beam, rendering: nat -> bool, from: nat, k: nat)
    requires InFrame(b) && AtVblank(b)
    ensures var n := FrameDots(b, rendering, from);
      var c := After(b, rendering, from, n);
      && n == FRAME - (if b.odd != 0 && rendering(from + LAST - VBLANK) then 1 else 0)
      && InFrame(c) && AtVblank(c) && c.odd == Flip(b.odd)
      && (0 < k < n ==> !AtVblank(After(b, rendering, from, k)))
  {
    hide Next, InFrame, Place, After, AtVblank;
    Places(b);
    NextPlace(b, rendering(from));
    var d := Next(b, rendering(from));
    Places(d);
    var n := FrameDots(b, rendering, from);
    OneDot(b, rendering, from);
    AfterSplit(b, rendering, from, 1, n - 1);
    FirstInside(d, rendering, from + 1, if k > 0 then k - 1 else 0);
    if k > 0 {
      AfterSplit(b, rendering, from, 1, k - 1);
    }
    Wraps(b, rendering, from);
    var m := FRAME - VBLANK - if b.odd != 0 && rendering(from + LAST - VBLANK) then 1 else 0;
    AfterSplit(b, rendering, from, m, VBLANK);
    Straight(After(b, rendering, from, m), rendering, from + m, VBLANK);
  }

  /** The dots of `n` frames from one event. */
  function FramesDots(b: Beam, rendering: nat -> bool, from: nat, n: nat): (dots: nat)
    requires InFrame(b) && AtVblank(b)
    decreases n
  {
    if n == 0 then 0
    else
      Spacing(b, rendering, from, 0);
      var d := FrameDots(b, rendering, from);
      d + FramesDots(After(b, rendering, from, d), rendering, from + d, n - 1)
  }

  /** Over any number of frames at most every other one is a dot short; with
      rendering always on exactly every other one is. A parity counter that holds
      more than one bit is never zero: then every frame can be short. */
  lemma {:induction false} LongRun(b: Beam, rendering: nat -> bool, from: nat, n: nat)
    requires InFrame(b) && AtVblank(b)
    ensures var short := n * FRAME - FramesDots(b, rendering, from, n);
      var most := if b.odd > 1 then n else (n + b.odd) / 2;
      0 <= short <= most && ((forall i: nat :: rendering(i)) ==> short == most)
    decreases n
  {
    hide Next, InFrame, After, AtVblank, Flip;
    if n > 0 {
      Spacing(b, rendering, from, 0);
      var d := FrameDots(b, rendering, from);
      LongRun(After(b, rendering, from, d), rendering, from + d, n - 1);
      Parities(b.odd, n);
    }
  }

  lemma Parities(odd: Byte, n: nat)
    requires n > 0
    ensures odd > 1 <==> Flip(odd) > 1
    ensures odd == 0 ==> Flip(odd) == 1 && (n - 1 + Flip(odd)) / 2 == (n + odd) / 2
    ensures odd == 1 ==> Flip(odd) == 0 && (n - 1 + Flip(odd)) / 2 + 1 == (n + odd) / 2
  {
  }
}
