/** A GP0 word stream read as a whole: cut into commands first, executed command by
    command afterwards. The word-at-a-time port refines this reading. */
module PsxGp0Parser {
  import opened Words
  import opened PsxVram
  import opened PsxGp0

  datatype Command =
    | Fixed(first: Word, params: seq<Word>)
    | Polyline(words: seq<Word>)
    | Upload(coord: Word, size: Word, data: seq<Half>)

  /** What is left at the end of a stream: nothing, the first words of a command,
      or an upload that still waits for halfwords. */
  datatype Rest =
    | Complete
    | Incomplete(words: seq<Word>)
    | Uploading(coord: Word, size: Word, data: seq<Half>)

  datatype Parsed = Parsed(commands: seq<Command>, rest: Rest)

  /** The halfwords of a payload, low half first. */
  function Halves(ws: seq<Word>): (hs: seq<Half>)
    ensures |hs| == 2 * |ws|
    ensures forall k :: 0 <= k < |hs| ==> hs[k] == if k % 2 == 0 then Low16(ws[k / 2]) else High16(ws[k / 2])
  {
    seq(2 * |ws|, k requires 0 <= k < 2 * |ws| => if k % 2 == 0 then Low16(ws[k / 2]) else High16(ws[k / 2]))
  }

  function Pixels(size: Word): (n: int)
    ensures n >= 0
  {
    PackedX(size) * PackedY(size)
  }

  function PayloadWords(size: Word): (n: int)
    ensures n >= 0
  {
    (Pixels(size) + 1) / 2
  }

  /** Length of a poly-line that starts at ws[0]: through the first terminator, or
      63 words if none comes before that; None while the stream is too short. */
  function PolylineLength(ws: seq<Word>, i: int): (n: int)
    requires 1 <= i <= |ws| && i <= 62
    ensures n == -1 || (i < n <= 63 && n <= |ws|)
    decreases |ws| - i
  {
    if i == |ws| then -1
    else if Terminator(ws[i]) || i == 62 then i + 1
    else PolylineLength(ws, i + 1)
  }

  function Parse(ws: seq<Word>): (p: Parsed)
    decreases |ws|, 0
  {
    if ws == [] then Parsed([], Complete)
    else
      var cmd := Opcode(ws[0]);
      if IsPolyline(cmd) then
        var n := PolylineLength(ws, 1);
        if n == -1 then Parsed([], Incomplete(ws))
        else After(Polyline(ws[..n]), ws[n..])
      else if cmd == 0xA0 then
        if |ws| < 3 then Parsed([], Incomplete(ws))
        else
          var n := PayloadWords(ws[2]);
          if |ws| < 3 + n then Parsed([], Uploading(ws[1], ws[2], Halves(ws[3..])))
          else After(Upload(ws[1], ws[2], Halves(ws[3..3 + n])[..Pixels(ws[2])]), ws[3 + n..])
      else
        var n := ParamCount(cmd);
        if |ws| < 1 + n then Parsed([], Incomplete(ws))
        else After(Fixed(ws[0], ws[1..1 + n]), ws[1 + n..])
  }

  function After(c: Command, tail: seq<Word>): Parsed
    decreases |tail|, 1
  {
    var p := Parse(tail);
    Parsed([c] + p.commands, p.rest)
  }

  // ---- meaning of a parsed stream -------------------------------------------

  predicate WellFormed(c: Command) {
    match c
    case Fixed(first, params) => |params| == ParamCount(Opcode(first))
    case Polyline(words) => |words| >= 2 && IsPolyline(Opcode(words[0]))
    case Upload(_, size, data) => |data| == Pixels(size)
  }

  function Store(g: Gpu, coord: Word, size: Word, data: seq<Half>): Gpu {
    g.(vram := UploadRect(g.vram, PackedX(coord), PackedY(coord), PackedX(size), data, g.regs.mask))
  }

  function Execute(env: Renderer, g: Gpu, c: Command): Gpu
    requires WellFormed(c)
  {
    match c
    case Fixed(first, params) => Exec(env, g, first, params)
    case Polyline(words) => ExecPolyline(env, g, words)
    case Upload(coord, size, data) => Store(g, coord, size, data)
  }

  function ExecuteAll(env: Renderer, g: Gpu, cs: seq<Command>): Gpu
    requires forall c :: c in cs ==> WellFormed(c)
    decreases |cs|
  {
    if cs == [] then g else ExecuteAll(env, Execute(env, g, cs[0]), cs[1..])
  }

  /** The port, idle in `g`, after it has also taken an unfinished rest. */
  function Resume(g: Gpu, rest: Rest): Gpu {
    match rest
    case Complete => g
    case Incomplete(words) => g.(framer := Collect(words))
    case Uploading(coord, size, data) => UploadState(g, coord, size, data)
  }

  /** A running upload whose first |data| halfwords have arrived. */
  function UploadState(g: Gpu, coord: Word, size: Word, data: seq<Half>): Gpu {
    var w := PackedX(size);
    if w == 0 then g
    else Store(g, coord, size, data).(framer :=
           Stream(Pixels(size) - |data|, PackedX(coord) + |data| % w, PackedY(coord) + |data| / w, PackedX(coord), w))
  }

  lemma {:induction false} ParseWellFormed(ws: seq<Word>)
    ensures forall c :: c in Parse(ws).commands ==> WellFormed(c)
    decreases |ws|
  {
    if ws != [] {
      var cmd := Opcode(ws[0]);
      if IsPolyline(cmd) {
        var n := PolylineLength(ws, 1);
        if n != -1 { ParseWellFormed(ws[n..]); }
      } else if cmd == 0xA0 {
        if |ws| >= 3 && |ws| >= 3 + PayloadWords(ws[2]) {
          ParseWellFormed(ws[3 + PayloadWords(ws[2])..]);
        }
      } else if |ws| >= 1 + ParamCount(cmd) {
        ParseWellFormed(ws[1 + ParamCount(cmd)..]);
      }
    }
  }

  // ---- collecting -----------------------------------------------------------

  lemma IdleStep(env: Renderer, g: Gpu, ws: seq<Word>)
    requires g.framer.Idle? && ws != []
    requires ParamCount(Opcode(ws[0])) != 0 || Opcode(ws[0]) == 0xA0
    ensures Run(env, g, ws[..1]) == g.(framer := Collect(ws[..1]))
  {
    assert ws[..1] == [ws[0]];
    assert WriteGp0(env, g, ws[0]) == g.(framer := Collect([ws[0]]));
    assert Run(env, WriteGp0(env, g, ws[0]), []) == WriteGp0(env, g, ws[0]);
  }

  /** One more word after a collected prefix. */
  lemma RunSnoc(env: Renderer, g: Gpu, ws: seq<Word>, n: int)
    requires Valid(g) && 0 <= n < |ws|
    ensures Valid(Run(env, g, ws[..n])) && Run(env, g, ws[..n + 1]) == WriteGp0(env, Run(env, g, ws[..n]), ws[n])
  {
    assert ws[..n + 1] == ws[..n] + [ws[n]];
    RunAppend(env, g, ws[..n], [ws[n]]);
    var g1 := Run(env, g, ws[..n]);
    assert Run(env, WriteGp0(env, g1, ws[n]), []) == WriteGp0(env, g1, ws[n]);
  }

  /** While a command is incomplete the port only collects. */
  lemma {:induction false} Collects(env: Renderer, g: Gpu, ws: seq<Word>)
    requires g.framer.Idle? && Pending(ws)
    requires ParamCount(Opcode(ws[0])) != 0 || Opcode(ws[0]) == 0xA0
    ensures Run(env, g, ws) == g.(framer := Collect(ws))
    decreases |ws|
  {
    if |ws| == 1 {
      assert ws == ws[..1];
      IdleStep(env, g, ws);
    } else {
      var n := |ws| - 1;
      Collects(env, g, ws[..n]);
      RunSnoc(env, g, ws, n);
      assert ws[..n + 1] == ws && ws[..n] + [ws[n]] == ws;
    }
  }

  lemma FixedCommand(env: Renderer, g: Gpu, ws: seq<Word>)
    requires g.framer.Idle? && ws != []
    requires !IsPolyline(Opcode(ws[0])) && Opcode(ws[0]) != 0xA0
    requires |ws| == 1 + ParamCount(Opcode(ws[0]))
    ensures Run(env, g, ws) == Exec(env, g, ws[0], ws[1..])
  {
    var n := |ws| - 1;
    if n > 0 {
      Collects(env, g, ws[..n]);
    }
    RunSnoc(env, g, ws, n);
    assert ws[..n + 1] == ws && ws[..n] + [ws[n]] == ws;
    assert g.(framer := Idle) == g;
  }

  lemma {:induction false} PolylineLengthMeaning(ws: seq<Word>, i: int)
    requires 1 <= i <= |ws| && i <= 62
    ensures var n := PolylineLength(ws, i);
      if n == -1 then |ws| <= 62 && forall k :: i <= k < |ws| ==> !Terminator(ws[k])
      else (Terminator(ws[n - 1]) || n == 63) && forall k :: i <= k < n - 1 ==> !Terminator(ws[k])
    decreases |ws| - i
  {
    if i < |ws| && !Terminator(ws[i]) && i != 62 {
      PolylineLengthMeaning(ws, i + 1);
    }
  }

  lemma PolylineCommand(env: Renderer, g: Gpu, ws: seq<Word>)
    requires g.framer.Idle? && ws != [] && IsPolyline(Opcode(ws[0]))
    requires PolylineLength(ws, 1) == |ws|
    ensures Run(env, g, ws) == ExecPolyline(env, g, ws)
  {
    PolylineLengthMeaning(ws, 1);
    var n := |ws| - 1;
    Collects(env, g, ws[..n]);
    RunSnoc(env, g, ws, n);
    assert ws[..n + 1] == ws && ws[..n] + [ws[n]] == ws;
    assert g.(framer := Idle) == g;
  }

  // ---- streaming ------------------------------------------------------------

  lemma NextPlace(n: int, w: int)
    requires n >= 0 && w > 0
    ensures if n % w + 1 >= w then (n + 1) % w == 0 && (n + 1) / w == n / w + 1
            else (n + 1) % w == n % w + 1 && (n + 1) / w == n / w
  {
    var q, r := n / w, n % w;
    assert n == q * w + r;
    if r + 1 >= w {
      assert n + 1 == (q + 1) * w + 0;
      DivModUnique(w, q + 1, 0);
    } else {
      assert n + 1 == q * w + (r + 1);
      DivModUnique(w, q, r + 1);
    }
  }

  predicate UploadSize(size: Word) {
    PackedX(size) > 0 && PackedY(size) > 0
  }

  lemma PixelsBound(size: Word)
    requires UploadSize(size)
    ensures 0 < Pixels(size) <= PackedX(size) * 512
  {
    RectangleSize(PackedX(size), PackedY(size));
  }

  lemma RectangleSize(w: int, h: int)
    requires 0 < w && 0 < h <= 512
    ensures 0 < w * h <= w * 512
  {
    assert w * (512 - h) >= 0;
  }

  lemma UploadStateValid(g: Gpu, coord: Word, size: Word, data: seq<Half>)
    requires UploadSize(size) && |data| < Pixels(size)
    ensures UploadState(g, coord, size, data).framer.Stream? && Valid(UploadState(g, coord, size, data))
  {
  }

  lemma HalfArrives(g: Gpu, coord: Word, size: Word, data: seq<Half>, half: Half)
    requires UploadSize(size) && |data| < Pixels(size)
    ensures UploadState(g, coord, size, data).framer.Stream?
    ensures StreamHalf(UploadState(g, coord, size, data), half) == UploadState(g, coord, size, data + [half])
  {
    hide PutMasked, UploadRect, PackedX, PackedY;
    var w := PackedX(size);
    PixelsBound(size);
    UploadExtends(g.vram, PackedX(coord), PackedY(coord), w, data, half, g.regs.mask);
    NextPlace(|data|, w);
  }

  /** A payload word brings two halfwords, or one when only one is missing; the
      last one ends the upload. */
  lemma WordArrives(env: Renderer, g: Gpu, coord: Word, size: Word, data: seq<Half>, v: Word)
    requires g.framer.Idle? && UploadSize(size) && |data| < Pixels(size)
    ensures Valid(UploadState(g, coord, size, data))
    ensures var data2, total := data + [Low16(v), High16(v)], Pixels(size);
      WriteGp0(env, UploadState(g, coord, size, data), v)
      == if |data2| < total then UploadState(g, coord, size, data2) else Store(g, coord, size, data2[..total])
  {
    UploadStateValid(g, coord, size, data);
    var lo, hi, total := Low16(v), High16(v), Pixels(size);
    HalfArrives(g, coord, size, data, lo);
    var data1 := data + [lo];
    if |data1| < total {
      HalfArrives(g, coord, size, data1, hi);
      assert data1 + [hi] == data + [lo, hi];
      if |data| + 2 == total {
        assert (data + [lo, hi])[..total] == data + [lo, hi];
      }
    } else {
      assert (data + [lo, hi])[..total] == data1;
    }
  }

  lemma HalvesSnoc(ws: seq<Word>, v: Word)
    ensures Halves(ws + [v]) == Halves(ws) + [Low16(v), High16(v)]
  {
  }

  lemma {:induction false} PayloadArrives(env: Renderer, g: Gpu, coord: Word, size: Word, payload: seq<Word>)
    requires g.framer.Idle? && UploadSize(size) && |payload| <= PayloadWords(size)
    ensures Valid(UploadState(g, coord, size, []))
    ensures Run(env, UploadState(g, coord, size, []), payload)
      == if |payload| < PayloadWords(size) then UploadState(g, coord, size, Halves(payload))
         else Store(g, coord, size, Halves(payload)[..Pixels(size)])
    decreases |payload|
  {
    hide UploadState, Store, Valid, Halves;
    PixelsBound(size);
    UploadStateValid(g, coord, size, []);
    var g0 := UploadState(g, coord, size, []);
    if payload == [] {
      assert Halves(payload) == [];
    } else {
      var n := |payload| - 1;
      PayloadArrives(env, g, coord, size, payload[..n]);
      RunSnoc(env, g0, payload, n);
      HalvesSnoc(payload[..n], payload[n]);
      assert payload[..n] + [payload[n]] == payload == payload[..n + 1];
      WordArrives(env, g, coord, size, Halves(payload[..n]), payload[n]);
    }
  }

  /** The command word and its two parameters. */
  lemma UploadBegins(env: Renderer, g: Gpu, ws: seq<Word>)
    requires g.framer.Idle? && |ws| == 3 && Opcode(ws[0]) == 0xA0
    ensures Run(env, g, ws) == if UploadSize(ws[2]) then UploadState(g, ws[1], ws[2], []) else g
    ensures !UploadSize(ws[2]) ==> Pixels(ws[2]) == 0
  {
    Collects(env, g, ws[..2]);
    RunSnoc(env, g, ws, 2);
    assert ws[..2] + [ws[2]] == ws;
    assert ws[..3] == ws;
    UploadNothing(g.vram, PackedX(ws[1]), PackedY(ws[1]), PackedX(ws[2]), g.regs.mask);
    if UploadSize(ws[2]) {
      PixelsBound(ws[2]);
    }
    assert g.(framer := Idle) == g;
  }

  lemma UploadCommand(env: Renderer, g: Gpu, ws: seq<Word>)
    requires g.framer.Idle? && |ws| >= 3 && Opcode(ws[0]) == 0xA0
    requires |ws| <= 3 + PayloadWords(ws[2])
    ensures Run(env, g, ws)
      == if |ws| < 3 + PayloadWords(ws[2]) then UploadState(g, ws[1], ws[2], Halves(ws[3..]))
         else Store(g, ws[1], ws[2], Halves(ws[3..])[..Pixels(ws[2])])
  {
    hide UploadState, Halves;
    var coord, size := ws[1], ws[2];
    UploadBegins(env, g, ws[..3]);
    assert ws == ws[..3] + ws[3..];
    RunAppend(env, g, ws[..3], ws[3..]);
    if UploadSize(size) {
      PixelsBound(size);
      PayloadArrives(env, g, coord, size, ws[3..]);
    } else {
      UploadNothing(g.vram, PackedX(coord), PackedY(coord), PackedX(size), g.regs.mask);
      assert Halves(ws[3..])[..0] == [];
      assert ws[3..] == [];
    }
  }

  // ---- the refinement -------------------------------------------------------

  lemma FirstCommandRuns(env: Renderer, g: Gpu, ws: seq<Word>, n: int, c: Command)
    requires g.framer.Idle? && 0 < n <= |ws| && WellFormed(c)
    requires Run(env, g, ws[..n]) == Execute(env, g, c)
    ensures Run(env, g, ws) == Run(env, Execute(env, g, c), ws[n..])
    ensures Execute(env, g, c).framer.Idle?
  {
    hide Execute, WriteGp0, Run;
    assert ws == ws[..n] + ws[n..];
    RunAppend(env, g, ws[..n], ws[n..]);
    ExecuteKeepsIdle(env, g, c);
  }

  lemma ExecuteKeepsIdle(env: Renderer, g: Gpu, c: Command)
    requires WellFormed(c)
    ensures Execute(env, g, c).framer == g.framer
  {
  }

  lemma ExecuteAfter(env: Renderer, g: Gpu, c: Command, tail: seq<Word>)
    requires WellFormed(c)
    ensures forall d :: d in After(c, tail).commands ==> WellFormed(d)
    ensures forall d :: d in Parse(tail).commands ==> WellFormed(d)
    ensures ExecuteAll(env, g, After(c, tail).commands) == ExecuteAll(env, Execute(env, g, c), Parse(tail).commands)
  {
    ParseWellFormed(tail);
    assert After(c, tail).commands[1..] == Parse(tail).commands;
  }

  /** Fed any stream one word at a time, the port ends exactly where executing the
      commands of the parsed stream, and then taking its rest, leads. */
  lemma {:induction false} PortRefinesParser(env: Renderer, g: Gpu, ws: seq<Word>)
    requires g.framer.Idle?
    ensures forall c :: c in Parse(ws).commands ==> WellFormed(c)
    ensures Run(env, g, ws) == Resume(ExecuteAll(env, g, Parse(ws).commands), Parse(ws).rest)
    decreases |ws|, 2
  {
    if ws == [] {
      ParseWellFormed(ws);
    } else if IsPolyline(Opcode(ws[0])) {
      PolylineFirst(env, g, ws);
    } else if Opcode(ws[0]) == 0xA0 {
      UploadFirst(env, g, ws);
    } else {
      FixedFirst(env, g, ws);
    }
  }

  lemma {:induction false} PolylineFirst(env: Renderer, g: Gpu, ws: seq<Word>)
    requires g.framer.Idle? && ws != [] && IsPolyline(Opcode(ws[0]))
    ensures forall c :: c in Parse(ws).commands ==> WellFormed(c)
    ensures Run(env, g, ws) == Resume(ExecuteAll(env, g, Parse(ws).commands), Parse(ws).rest)
    decreases |ws|, 1
  {
    ParseWellFormed(ws);
    var n := PolylineLength(ws, 1);
    PolylineLengthMeaning(ws, 1);
    if n == -1 {
      Collects(env, g, ws);
    } else {
      PolylinePrefix(ws, 1);
      PolylineCommand(env, g, ws[..n]);
      Continue(env, g, ws, n, Polyline(ws[..n]));
    }
  }

  lemma {:induction false} UploadFirst(env: Renderer, g: Gpu, ws: seq<Word>)
    requires g.framer.Idle? && ws != [] && Opcode(ws[0]) == 0xA0
    ensures forall c :: c in Parse(ws).commands ==> WellFormed(c)
    ensures Run(env, g, ws) == Resume(ExecuteAll(env, g, Parse(ws).commands), Parse(ws).rest)
    decreases |ws|, 1
  {
    ParseWellFormed(ws);
    if |ws| < 3 {
      Collects(env, g, ws);
    } else {
      var n := PayloadWords(ws[2]);
      if |ws| < 3 + n {
        UploadCommand(env, g, ws);
      } else {
        UploadCommand(env, g, ws[..3 + n]);
        assert ws[..3 + n][3..] == ws[3..3 + n];
        Continue(env, g, ws, 3 + n, Upload(ws[1], ws[2], Halves(ws[3..3 + n])[..Pixels(ws[2])]));
      }
    }
  }

  lemma {:induction false} FixedFirst(env: Renderer, g: Gpu, ws: seq<Word>)
    requires g.framer.Idle? && ws != [] && !IsPolyline(Opcode(ws[0])) && Opcode(ws[0]) != 0xA0
    ensures forall c :: c in Parse(ws).commands ==> WellFormed(c)
    ensures Run(env, g, ws) == Resume(ExecuteAll(env, g, Parse(ws).commands), Parse(ws).rest)
    decreases |ws|, 1
  {
    ParseWellFormed(ws);
    var n := ParamCount(Opcode(ws[0]));
    if |ws| < 1 + n {
      Collects(env, g, ws);
    } else {
      FixedCommand(env, g, ws[..1 + n]);
      assert ws[..1 + n][1..] == ws[1..1 + n];
      Continue(env, g, ws, 1 + n, Fixed(ws[0], ws[1..1 + n]));
    }
  }

  /** The induction step: the first command takes n words, the rest follows. */
  lemma {:induction false} Continue(env: Renderer, g: Gpu, ws: seq<Word>, n: int, c: Command)
    requires g.framer.Idle? && 0 < n <= |ws| && WellFormed(c)
    requires Run(env, g, ws[..n]) == Execute(env, g, c)
    requires Parse(ws) == After(c, ws[n..])
    ensures forall d :: d in Parse(ws).commands ==> WellFormed(d)
    ensures Run(env, g, ws) == Resume(ExecuteAll(env, g, Parse(ws).commands), Parse(ws).rest)
    decreases |ws|, 0
  {
    FirstCommandRuns(env, g, ws, n, c);
    ExecuteAfter(env, g, c, ws[n..]);
    PortRefinesParser(env, Execute(env, g, c), ws[n..]);
  }

  lemma {:induction false} PolylinePrefix(ws: seq<Word>, i: int)
    requires 1 <= i <= |ws| && i <= 62
    requires PolylineLength(ws, i) != -1
    ensures PolylineLength(ws[..PolylineLength(ws, i)], i) == PolylineLength(ws, i)
    decreases |ws| - i
  {
    if !(i < |ws| && (Terminator(ws[i]) || i == 62)) {
      PolylinePrefix(ws, i + 1);
    }
  }
}
