/** The ReGIS command serializer: head_to, draw_polygon and draw_multipolygon
    in svg2ReGIS.py (lines 25-55).

    The stream is described twice: as a sequence of commands, on which counts,
    order and bracketing are stated, and as the text the script writes. Render
    turns the first into the second and Parse reads the text back, so a
    statement about the commands is a statement about the text. */
module Regis {

  import opened Geometry
  import opened Optional
  import opened Decimal

  /** The command-line settings the serializer reads: the origin offset
      (--xhome, --yhome) and whether polygons are filled (--fill). */
  datatype Config = Config(xhome: int, yhome: int, fill: bool)

  /** One ReGIS command. */
  datatype Command =
    | Move(x: int, y: int)  // P[x,y]: move the pen without drawing
    | Draw(x: int, y: int)  // V[x,y]: draw a vector to (x, y)
    | FillOpen              // F( : begin a filled figure
    | FillClose             // )  : end it

  /** The text of one command, as the script writes it. */
  function Render(c: Command): string {
    match c
    case Move(x, y) => "\nP[" + IntToString(x) + "," + IntToString(y) + "]"
    case Draw(x, y) => "V[" + IntToString(x) + "," + IntToString(y) + "]"
    case FillOpen => "\nF("
    case FillClose => ")"
  }

  /** The text of a command sequence: the commands' texts one after another. */
  function RenderAll(cs: seq<Command>): string
    decreases |cs|
  {
    if |cs| == 0 then "" else Render(cs[0]) + RenderAll(cs[1..])
  }

  lemma {:induction false} RenderAllAppend(a: seq<Command>, b: seq<Command>)
    ensures RenderAll(a + b) == RenderAll(a) + RenderAll(b)
    decreases |a|
  {
    if |a| > 0 {
      assert (a + b)[1..] == a[1..] + b;
      RenderAllAppend(a[1..], b);
    } else {
      assert a + b == b;
    }
  }

  // Reading the text back.

  /** Splits t at the first occurrence of c. */
  function SplitAt(t: string, c: char): (r: Option<(string, string)>)
    ensures r.None? <==> c !in t
    ensures r.Some? ==> t == r.value.0 + [c] + r.value.1 && c !in r.value.0
    decreases |t|
  {
    if |t| == 0 then None
    else if t[0] == c then Some(([], t[1..]))
    else
      match SplitAt(t[1..], c)
      case None => None
      case Some((a, b)) => Some(([t[0]] + a, b))
  }

  lemma {:induction false} SplitAtFirst(a: string, c: char, b: string)
    requires c !in a
    ensures SplitAt(a + [c] + b, c) == Some((a, b))
    decreases |a|
  {
    if |a| > 0 {
      assert (a + [c] + b)[1..] == a[1..] + [c] + b;
      SplitAtFirst(a[1..], c, b);
      assert [a[0]] + a[1..] == a;
    }
  }

  /** Reads "x,y]" from the front of t, returning the pair and what follows. */
  function ParsePair(t: string): (r: Option<(int, int, string)>)
    ensures r.Some? ==> |r.value.2| < |t|
  {
    match SplitAt(t, ',')
    case None => None
    case Some((xs, t1)) =>
      match SplitAt(t1, ']')
      case None => None
      case Some((ys, t2)) =>
        match (ParseInt(xs), ParseInt(ys))
        case (Some(x), Some(y)) => Some((x, y, t2))
        case _ => None
  }

  /** Reads one command off the front of s, returning it and what follows;
      None if s does not start with a command. */
  function ParseCommand(s: string): (r: Option<(Command, string)>)
    ensures r.Some? ==> |r.value.1| < |s|
  {
    if |s| >= 1 && s[0] == ')' then Some((FillClose, s[1..]))
    else if |s| >= 3 && s[0] == '\n' && s[1] == 'F' && s[2] == '(' then Some((FillOpen, s[3..]))
    else if |s| >= 3 && s[0] == '\n' && s[1] == 'P' && s[2] == '[' then
      match ParsePair(s[3..])
      case None => None
      case Some((x, y, rest)) => Some((Move(x, y), rest))
    else if |s| >= 2 && s[0] == 'V' && s[1] == '[' then
      match ParsePair(s[2..])
      case None => None
      case Some((x, y, rest)) => Some((Draw(x, y), rest))
    else None
  }

  /** Decodes a command stream; None if the text is not one. */
  function Parse(s: string): Option<seq<Command>>
    decreases |s|
  {
    if |s| == 0 then Some([])
    else
      match ParseCommand(s)
      case None => None
      case Some((c, rest)) =>
        match Parse(rest)
        case None => None
        case Some(cs) => Some([c] + cs)
  }

  lemma ParsePairRendered(x: int, y: int, rest: string)
    ensures ParsePair(IntToString(x) + "," + IntToString(y) + "]" + rest) == Some((x, y, rest))
  {
    var xs, ys := IntToString(x), IntToString(y);
    assert ',' !in xs;
    assert ']' !in ys;
    assert xs + "," + ys + "]" + rest == xs + [','] + (ys + [']'] + rest);
    SplitAtFirst(xs, ',', ys + [']'] + rest);
    SplitAtFirst(ys, ']', rest);
    IntToStringRoundTrip(x);
    IntToStringRoundTrip(y);
  }

  lemma ParseMoveRendered(x: int, y: int, rest: string)
    ensures ParseCommand(Render(Move(x, y)) + rest) == Some((Move(x, y), rest))
  {
    var body := IntToString(x) + "," + IntToString(y) + "]" + rest;
    var s := Render(Move(x, y)) + rest;
    assert s == "\nP[" + body;
    assert s[0] == '\n' && s[1] == 'P' && s[2] == '[';
    assert s[3..] == body;
    ParsePairRendered(x, y, rest);
  }

  lemma ParseDrawRendered(x: int, y: int, rest: string)
    ensures ParseCommand(Render(Draw(x, y)) + rest) == Some((Draw(x, y), rest))
  {
    var body := IntToString(x) + "," + IntToString(y) + "]" + rest;
    var s := Render(Draw(x, y)) + rest;
    assert s == "V[" + body;
    assert s[0] == 'V' && s[1] == '[';
    assert s[2..] == body;
    ParsePairRendered(x, y, rest);
  }

  /** Every command's text reads back as that command, and reading stops
      exactly where its text ends. */
  lemma ParseRendered(c: Command, rest: string)
    ensures ParseCommand(Render(c) + rest) == Some((c, rest))
  {
    var s := Render(c) + rest;
    match c
    case FillClose =>
      assert s[1..] == rest;
    case FillOpen =>
      assert s[3..] == rest;
    case Move(x, y) =>
      ParseMoveRendered(x, y, rest);
    case Draw(x, y) =>
      ParseDrawRendered(x, y, rest);
  }

  /** The text of a command stream decodes to that stream and no other: the
      wire text and the command sequence determine each other. */
  lemma {:induction false} ParseRenderAll(cs: seq<Command>)
    ensures Parse(RenderAll(cs)) == Some(cs)
    decreases |cs|
  {
    if |cs| > 0 {
      ParseRenderAll(cs[1..]);
      ParseRendered(cs[0], RenderAll(cs[1..]));
      assert |Render(cs[0])| > 0;
      assert [cs[0]] + cs[1..] == cs;
    }
  }


  lemma RenderOne(c: Command)
    ensures RenderAll([c]) == Render(c)
  {
    assert [c][1..] == [];
  }

  // head_to, draw_polygon and draw_multipolygon.

  /** Device coordinates of a point: the origin offset is added, then the
      coordinate is rounded (Python's round, given as `round`). */
  function Device(p: Point, cfg: Config, round: real -> int): (int, int) {
    (round(p.x + cfg.xhome as real), round(p.y + cfg.yhome as real))
  }

  /** The command head_to issues for p: a draw or a move to its device point. */
  function Target(p: Point, draw: bool, cfg: Config, round: real -> int): Command {
    var (x, y) := Device(p, cfg, round);
    if draw then Draw(x, y) else Move(x, y)
  }

  /** head_to (svg2ReGIS.py:25-32): V[x,y] when drawing, a line break then
      P[x,y] when moving, with x and y the offset and rounded coordinates. */
  function HeadTo(p: Point, draw: bool, cfg: Config, round: real -> int): (s: string)
    ensures s == RenderAll([Target(p, draw, cfg, round)])
  {
    var (x, y) := Device(p, cfg, round);
    if draw then "V[" + IntToString(x) + "," + IntToString(y) + "]"
    else "\nP[" + IntToString(x) + "," + IntToString(y) + "]"
  }

  /** head_to writes one command and nothing else: its text reads back as
      exactly the draw or move to the device point of p. */
  lemma HeadToIsOneCommand(p: Point, draw: bool, cfg: Config, round: real -> int)
    ensures Parse(HeadTo(p, draw, cfg, round)) == Some([Target(p, draw, cfg, round)])
  {
    ParseRenderAll([Target(p, draw, cfg, round)]);
  }

  /** Draw commands to each point of ps, in order. */
  function DrawsTo(ps: seq<Point>, cfg: Config, round: real -> int): seq<Command> {
    seq(|ps|, i requires 0 <= i < |ps| => Target(ps[i], true, cfg, round))
  }

  /** The device points of ps, in order. */
  function Devices(ps: seq<Point>, cfg: Config, round: real -> int): seq<(int, int)> {
    seq(|ps|, i requires 0 <= i < |ps| => Device(ps[i], cfg, round))
  }

  /** The move to a polygon's first point, and the fill opening when filling. */
  function PolygonHead(poly: seq<Point>, cfg: Config, round: real -> int): seq<Command>
    requires |poly| > 0
  {
    [Target(poly[0], false, cfg, round)] + (if cfg.fill then [FillOpen] else [])
  }

  /** The fill closing when filling. */
  function PolygonTail(cfg: Config): seq<Command> {
    if cfg.fill then [FillClose] else []
  }

  /** The commands draw_polygon writes. */
  function PolygonCommands(poly: seq<Point>, cfg: Config, round: real -> int): seq<Command>
    requires |poly| > 0
  {
    PolygonHead(poly, cfg, round) + DrawsTo(poly[1..], cfg, round) + PolygonTail(cfg)
  }

  lemma DrawsToSnoc(poly: seq<Point>, i: nat, cfg: Config, round: real -> int)
    requires 1 <= i < |poly|
    ensures DrawsTo(poly[1..i + 1], cfg, round) == DrawsTo(poly[1..i], cfg, round) + [Target(poly[i], true, cfg, round)]
  {
  }

  /** draw_polygon (svg2ReGIS.py:35-44). */
  method DrawPolygon(poly: seq<Point>, cfg: Config, round: real -> int) returns (s: string)
    requires |poly| > 0
    ensures s == RenderAll(PolygonCommands(poly, cfg, round))
  {
    var head := PolygonHead(poly, cfg, round);
    var p := poly[0];
    s := HeadTo(p, false, cfg, round);
    ghost var cs := [Target(p, false, cfg, round)];
    if cfg.fill {
      RenderAllAppend(cs, [FillOpen]);
      RenderOne(FillOpen);
      s := s + "\nF(";
      cs := cs + [FillOpen];
    }
    assert cs == head + DrawsTo(poly[1..1], cfg, round);
    for i := 1 to |poly|
      invariant s == RenderAll(cs)
      invariant cs == head + DrawsTo(poly[1..i], cfg, round)
    {
      RenderAllAppend(cs, [Target(poly[i], true, cfg, round)]);
      DrawsToSnoc(poly, i, cfg, round);
      s := s + HeadTo(poly[i], true, cfg, round);
      cs := cs + [Target(poly[i], true, cfg, round)];
    }
    assert poly[1..|poly|] == poly[1..];
    if cfg.fill {
      RenderAllAppend(cs, [FillClose]);
      RenderOne(FillClose);
      s := s + ")";
      cs := cs + [FillClose];
    } else {
      assert cs + [] == cs;
    }
  }

  /** The commands of the polygons mpoly[0..n], each but the first followed by
      the jump back to the anchor. */
  function Groups(mpoly: seq<seq<Point>>, anchor: Command, n: nat, cfg: Config, round: real -> int): seq<Command>
    requires n <= |mpoly|
    requires forall i :: 0 <= i < |mpoly| ==> |mpoly[i]| > 0
  {
    if n == 0 then []
    else
      Groups(mpoly, anchor, n - 1, cfg, round)
      + PolygonCommands(mpoly[n - 1], cfg, round)
      + (if n - 1 != 0 then [anchor] else [])
  }

  /** The commands draw_multipolygon writes: the jump to the anchor (the
      first point of the first polygon), then every polygon, each but the
      first followed by the jump back to the anchor. */
  function MultiPolygonCommands(mpoly: seq<seq<Point>>, cfg: Config, round: real -> int): seq<Command>
    requires |mpoly| > 0
    requires forall i :: 0 <= i < |mpoly| ==> |mpoly[i]| > 0
  {
    var anchor := Target(mpoly[0][0], false, cfg, round);
    [anchor] + Groups(mpoly, anchor, |mpoly|, cfg, round)
  }

  lemma GroupsSnoc(mpoly: seq<seq<Point>>, anchor: Command, n: nat, cfg: Config, round: real -> int)
    requires n < |mpoly|
    requires forall i :: 0 <= i < |mpoly| ==> |mpoly[i]| > 0
    ensures [anchor] + Groups(mpoly, anchor, n + 1, cfg, round)
         == [anchor] + Groups(mpoly, anchor, n, cfg, round)
            + PolygonCommands(mpoly[n], cfg, round)
            + (if n != 0 then [anchor] else [])
  {
  }

  /** draw_multipolygon (svg2ReGIS.py:47-55). */
  method DrawMultipolygon(mpoly: seq<seq<Point>>, cfg: Config, round: real -> int) returns (s: string)
    requires |mpoly| > 0
    requires forall i :: 0 <= i < |mpoly| ==> |mpoly[i]| > 0
    ensures s == RenderAll(MultiPolygonCommands(mpoly, cfg, round))
  {
    var p := mpoly[0][0];
    ghost var anchor := Target(p, false, cfg, round);
    s := HeadTo(p, false, cfg, round);
    ghost var cs := [anchor];
    for i := 0 to |mpoly|
      invariant s == RenderAll(cs)
      invariant cs == [anchor] + Groups(mpoly, anchor, i, cfg, round)
    {
      var part := DrawPolygon(mpoly[i], cfg, round);
      RenderAllAppend(cs, PolygonCommands(mpoly[i], cfg, round));
      GroupsSnoc(mpoly, anchor, i, cfg, round);
      s := s + part;
      cs := cs + PolygonCommands(mpoly[i], cfg, round);
      if i != 0 {
        RenderAllAppend(cs, [anchor]);
        s := s + HeadTo(p, false, cfg, round);
        cs := cs + [anchor];
      } else {
        assert cs + [] == cs;
      }
    }
  }

  // What the stream contains.

  /** The targets of the moves of cs, in order. */
  function MoveTargets(cs: seq<Command>): seq<(int, int)>
    decreases |cs|
  {
    if |cs| == 0 then []
    else (if cs[0].Move? then [(cs[0].x, cs[0].y)] else []) + MoveTargets(cs[1..])
  }

  /** The targets of the draws of cs, in order. */
  function DrawTargets(cs: seq<Command>): seq<(int, int)>
    decreases |cs|
  {
    if |cs| == 0 then []
    else (if cs[0].Draw? then [(cs[0].x, cs[0].y)] else []) + DrawTargets(cs[1..])
  }

  lemma {:induction false} TargetsAppend(a: seq<Command>, b: seq<Command>)
    ensures MoveTargets(a + b) == MoveTargets(a) + MoveTargets(b)
    ensures DrawTargets(a + b) == DrawTargets(a) + DrawTargets(b)
    decreases |a|
  {
    if |a| > 0 {
      assert (a + b)[1..] == a[1..] + b;
      TargetsAppend(a[1..], b);
    } else {
      assert a + b == b;
    }
  }

  lemma {:induction false} DrawsOnly(ps: seq<Point>, cfg: Config, round: real -> int)
    ensures MoveTargets(DrawsTo(ps, cfg, round)) == []
    ensures DrawTargets(DrawsTo(ps, cfg, round)) == Devices(ps, cfg, round)
    ensures FillOpen !in DrawsTo(ps, cfg, round) && FillClose !in DrawsTo(ps, cfg, round)
    decreases |ps|
  {
    if |ps| > 0 {
      var cs := DrawsTo(ps, cfg, round);
      assert cs[1..] == DrawsTo(ps[1..], cfg, round);
      DrawsOnly(ps[1..], cfg, round);
      assert Devices(ps, cfg, round) == [Device(ps[0], cfg, round)] + Devices(ps[1..], cfg, round);
    }
  }

  // The pen state machine: a fill block opens only where none is open and
  // closes only where one is; a move happens only outside a fill block; when
  // filling, every draw happens inside one.

  /** The fill state after command c, or None where c may not come. */
  function Step(fill: bool, open: bool, c: Command): Option<bool> {
    match c
    case Move(_, _) => if open then None else Some(false)
    case Draw(_, _) => if open == fill then Some(open) else None
    case FillOpen => if fill && !open then Some(true) else None
    case FillClose => if fill && open then Some(false) else None
  }

  function Run(fill: bool, open: bool, cs: seq<Command>): Option<bool>
    decreases |cs|
  {
    if |cs| == 0 then Some(open)
    else
      match Step(fill, open, cs[0])
      case None => None
      case Some(o) => Run(fill, o, cs[1..])
  }

  /** cs obeys the state machine from the state with no fill block open back
      to that state. */
  predicate WellFormed(fill: bool, cs: seq<Command>) {
    Run(fill, false, cs) == Some(false)
  }

  lemma {:induction false} RunAppend(fill: bool, open: bool, a: seq<Command>, b: seq<Command>)
    ensures Run(fill, open, a + b) == match Run(fill, open, a) case None => None case Some(o) => Run(fill, o, b)
    decreases |a|
  {
    if |a| > 0 {
      assert (a + b)[1..] == a[1..] + b;
      match Step(fill, open, a[0])
      case None =>
      case Some(o) => RunAppend(fill, o, a[1..], b);
    } else {
      assert a + b == b;
    }
  }

  /** Well-formed streams compose. */
  lemma WellFormedAppend(fill: bool, a: seq<Command>, b: seq<Command>)
    requires WellFormed(fill, a) && WellFormed(fill, b)
    ensures WellFormed(fill, a + b)
  {
    RunAppend(fill, false, a, b);
  }

  lemma {:induction false} RunDraws(ps: seq<Point>, cfg: Config, round: real -> int)
    ensures Run(cfg.fill, cfg.fill, DrawsTo(ps, cfg, round)) == Some(cfg.fill)
    decreases |ps|
  {
    if |ps| > 0 {
      assert DrawsTo(ps, cfg, round)[1..] == DrawsTo(ps[1..], cfg, round);
      RunDraws(ps[1..], cfg, round);
    }
  }

  /** draw_polygon writes exactly one move, first of all, to the polygon's
      first point, then one draw per remaining point, to those points in
      order. */
  lemma PolygonMovesAndDraws(poly: seq<Point>, cfg: Config, round: real -> int)
    requires |poly| > 0
    ensures var cs := PolygonCommands(poly, cfg, round);
      && cs[0] == Move(Device(poly[0], cfg, round).0, Device(poly[0], cfg, round).1)
      && MoveTargets(cs) == [Device(poly[0], cfg, round)]
      && DrawTargets(cs) == Devices(poly[1..], cfg, round)
      && |DrawTargets(cs)| == |poly| - 1
  {
    var head, draws, tail := PolygonHead(poly, cfg, round), DrawsTo(poly[1..], cfg, round), PolygonTail(cfg);
    DrawsOnly(poly[1..], cfg, round);
    TargetsAppend(head, draws);
    TargetsAppend(head + draws, tail);
    assert MoveTargets(head) == [Device(poly[0], cfg, round)] by {
      assert head[1..] == if cfg.fill then [FillOpen] else [];
    }
    assert DrawTargets(head) == [] by {
      assert head[1..] == if cfg.fill then [FillOpen] else [];
    }
  }

  /** With fill on, draw_polygon writes exactly one fill opening, right after
      its move, and one closing, at the end; with fill off, neither. */
  lemma PolygonFillMarkers(poly: seq<Point>, cfg: Config, round: real -> int)
    requires |poly| > 0
    ensures var cs := PolygonCommands(poly, cfg, round);
      && (cfg.fill ==> cs[1] == FillOpen && cs[|cs| - 1] == FillClose)
      && multiset(cs)[FillOpen] == (if cfg.fill then 1 else 0)
      && multiset(cs)[FillClose] == (if cfg.fill then 1 else 0)
  {
    var head, draws, tail := PolygonHead(poly, cfg, round), DrawsTo(poly[1..], cfg, round), PolygonTail(cfg);
    var cs := PolygonCommands(poly, cfg, round);
    DrawsOnly(poly[1..], cfg, round);
    assert multiset(draws)[FillOpen] == 0 && multiset(draws)[FillClose] == 0;
    assert multiset(cs) == multiset(head) + multiset(draws) + multiset(tail);
  }

  /** draw_polygon keeps to the pen state machine: its moves lie outside any
      fill block and, with fill on, its draws inside one. */
  lemma PolygonWellFormed(poly: seq<Point>, cfg: Config, round: real -> int)
    requires |poly| > 0
    ensures WellFormed(cfg.fill, PolygonCommands(poly, cfg, round))
  {
    var head, draws, tail := PolygonHead(poly, cfg, round), DrawsTo(poly[1..], cfg, round), PolygonTail(cfg);
    RunDraws(poly[1..], cfg, round);
    RunAppend(cfg.fill, false, head, draws);
    RunAppend(cfg.fill, false, head + draws, tail);
    assert Run(cfg.fill, false, head) == Some(cfg.fill) by {
      if cfg.fill {
        assert head[1..][1..] == [];
      }
    }
  }

  /** Moves of the first n + 1 polygons: those of the first n, the move to
      polygon n's first point, then (after every polygon but the first) the
      jump back to the anchor. */
  lemma GroupsMovesSnoc(mpoly: seq<seq<Point>>, n: nat, cfg: Config, round: real -> int)
    requires n < |mpoly|
    requires forall i :: 0 <= i < |mpoly| ==> |mpoly[i]| > 0
    ensures var anchor := Target(mpoly[0][0], false, cfg, round);
      MoveTargets(Groups(mpoly, anchor, n + 1, cfg, round))
      == MoveTargets(Groups(mpoly, anchor, n, cfg, round)) + [Device(mpoly[n][0], cfg, round)]
         + (if n != 0 then [Device(mpoly[0][0], cfg, round)] else [])
  {
    var anchor := Target(mpoly[0][0], false, cfg, round);
    var prev := Groups(mpoly, anchor, n, cfg, round);
    var pc := PolygonCommands(mpoly[n], cfg, round);
    var tail := if n != 0 then [anchor] else [];
    PolygonMovesAndDraws(mpoly[n], cfg, round);
    TargetsAppend(prev, pc);
    TargetsAppend(prev + pc, tail);
    assert MoveTargets(tail) == if n != 0 then [Device(mpoly[0][0], cfg, round)] else [] by {
      if n != 0 {
        assert tail[1..] == [];
      }
    }
  }

  lemma {:induction false} GroupsMoves(mpoly: seq<seq<Point>>, n: nat, cfg: Config, round: real -> int)
    requires 0 < n <= |mpoly|
    requires forall i :: 0 <= i < |mpoly| ==> |mpoly[i]| > 0
    ensures var m := MoveTargets(Groups(mpoly, Target(mpoly[0][0], false, cfg, round), n, cfg, round));
      && |m| == 2 * n - 1
      && m[0] == Device(mpoly[0][0], cfg, round)
      && (forall i :: 1 <= i < n ==> m[2 * i - 1] == Device(mpoly[i][0], cfg, round))
      && (forall i :: 1 <= i < n ==> m[2 * i] == Device(mpoly[0][0], cfg, round))
    decreases n
  {
    GroupsMovesSnoc(mpoly, n - 1, cfg, round);
    if n > 1 {
      GroupsMoves(mpoly, n - 1, cfg, round);
    } else {
      assert Groups(mpoly, Target(mpoly[0][0], false, cfg, round), 0, cfg, round) == [];
    }
  }

  /** draw_multipolygon with N polygons writes 2N moves: move 2i goes to the
      first point of polygon i and move 2i+1 to the anchor. These are the
      initial jump to the anchor, each polygon's own move, and the jump back
      to the anchor after every polygon except the first (the first polygon
      starts at the anchor, so its move is the second move to it). */
  lemma MultiPolygonMoves(mpoly: seq<seq<Point>>, cfg: Config, round: real -> int)
    requires |mpoly| > 0
    requires forall i :: 0 <= i < |mpoly| ==> |mpoly[i]| > 0
    ensures var m := MoveTargets(MultiPolygonCommands(mpoly, cfg, round));
      && |m| == 2 * |mpoly|
      && (forall i :: 0 <= i < |mpoly| ==> m[2 * i] == Device(mpoly[i][0], cfg, round))
      && (forall i :: 0 <= i < |mpoly| ==> m[2 * i + 1] == Device(mpoly[0][0], cfg, round))
  {
    var anchor := Target(mpoly[0][0], false, cfg, round);
    var g := Groups(mpoly, anchor, |mpoly|, cfg, round);
    GroupsMoves(mpoly, |mpoly|, cfg, round);
    TargetsAppend([anchor], g);
    assert MoveTargets([anchor]) == [Device(mpoly[0][0], cfg, round)];
    var t := MoveTargets(g);
    var m := MoveTargets([anchor] + g);
    assert m == [Device(mpoly[0][0], cfg, round)] + t;
    forall i | 0 <= i < |mpoly|
      ensures m[2 * i] == Device(mpoly[i][0], cfg, round)
      ensures m[2 * i + 1] == Device(mpoly[0][0], cfg, round)
    {
      assert m[2 * i + 1] == t[2 * i];
      if i > 0 {
        assert m[2 * i] == t[2 * i - 1];
      }
    }
  }


  lemma {:induction false} GroupsFills(mpoly: seq<seq<Point>>, anchor: Command, n: nat, cfg: Config, round: real -> int)
    requires n <= |mpoly|
    requires forall i :: 0 <= i < |mpoly| ==> |mpoly[i]| > 0
    requires anchor.Move?
    ensures multiset(Groups(mpoly, anchor, n, cfg, round))[FillOpen] == (if cfg.fill then n else 0)
    ensures multiset(Groups(mpoly, anchor, n, cfg, round))[FillClose] == (if cfg.fill then n else 0)
    decreases n
  {
    if n > 0 {
      var prev := Groups(mpoly, anchor, n - 1, cfg, round);
      var pc := PolygonCommands(mpoly[n - 1], cfg, round);
      var tail := if n - 1 != 0 then [anchor] else [];
      GroupsFills(mpoly, anchor, n - 1, cfg, round);
      PolygonFillMarkers(mpoly[n - 1], cfg, round);
      assert multiset(tail)[FillOpen] == 0 && multiset(tail)[FillClose] == 0;
      assert Groups(mpoly, anchor, n, cfg, round) == prev + pc + tail;
      assert multiset(prev + pc + tail) == multiset(prev) + multiset(pc) + multiset(tail);
    }
  }

  lemma {:induction false} GroupsWellFormed(mpoly: seq<seq<Point>>, anchor: Command, n: nat, cfg: Config, round: real -> int)
    requires n <= |mpoly|
    requires forall i :: 0 <= i < |mpoly| ==> |mpoly[i]| > 0
    requires anchor.Move?
    ensures WellFormed(cfg.fill, Groups(mpoly, anchor, n, cfg, round))
    decreases n
  {
    if n > 0 {
      var prev := Groups(mpoly, anchor, n - 1, cfg, round);
      var pc := PolygonCommands(mpoly[n - 1], cfg, round);
      var tail := if n - 1 != 0 then [anchor] else [];
      GroupsWellFormed(mpoly, anchor, n - 1, cfg, round);
      PolygonWellFormed(mpoly[n - 1], cfg, round);
      WellFormedAppend(cfg.fill, prev, pc);
      assert WellFormed(cfg.fill, tail) by {
        if n - 1 != 0 {
          assert tail[1..] == [];
        }
      }
      WellFormedAppend(cfg.fill, prev + pc, tail);
    }
  }

  /** draw_multipolygon with N polygons writes one fill block per polygon
      when filling and none otherwise. */
  lemma MultiPolygonFills(mpoly: seq<seq<Point>>, cfg: Config, round: real -> int)
    requires |mpoly| > 0
    requires forall i :: 0 <= i < |mpoly| ==> |mpoly[i]| > 0
    ensures var cs := MultiPolygonCommands(mpoly, cfg, round);
      && multiset(cs)[FillOpen] == (if cfg.fill then |mpoly| else 0)
      && multiset(cs)[FillClose] == (if cfg.fill then |mpoly| else 0)
  {
    var anchor := Target(mpoly[0][0], false, cfg, round);
    var g := Groups(mpoly, anchor, |mpoly|, cfg, round);
    GroupsFills(mpoly, anchor, |mpoly|, cfg, round);
    assert multiset([anchor] + g) == multiset([anchor]) + multiset(g);
  }

  /** draw_multipolygon keeps to the pen state machine: no move inside a fill
      block, every fill block closed, and with fill on every draw inside one. */
  lemma MultiPolygonWellFormed(mpoly: seq<seq<Point>>, cfg: Config, round: real -> int)
    requires |mpoly| > 0
    requires forall i :: 0 <= i < |mpoly| ==> |mpoly[i]| > 0
    ensures WellFormed(cfg.fill, MultiPolygonCommands(mpoly, cfg, round))
  {
    var anchor := Target(mpoly[0][0], false, cfg, round);
    GroupsWellFormed(mpoly, anchor, |mpoly|, cfg, round);
    assert WellFormed(cfg.fill, [anchor]) by {
      assert [anchor][1..] == [];
    }
    WellFormedAppend(cfg.fill, [anchor], Groups(mpoly, anchor, |mpoly|, cfg, round));
  }

  /** The draws of draw_multipolygon: each polygon's points after its first,
      polygon after polygon. */
  function PolygonDraws(mpoly: seq<seq<Point>>, n: nat, cfg: Config, round: real -> int): seq<(int, int)>
    requires n <= |mpoly|
    requires forall i :: 0 <= i < |mpoly| ==> |mpoly[i]| > 0
  {
    if n == 0 then [] else PolygonDraws(mpoly, n - 1, cfg, round) + Devices(mpoly[n - 1][1..], cfg, round)
  }

  lemma {:induction false} GroupsDraws(mpoly: seq<seq<Point>>, anchor: Command, n: nat, cfg: Config, round: real -> int)
    requires n <= |mpoly|
    requires forall i :: 0 <= i < |mpoly| ==> |mpoly[i]| > 0
    requires anchor.Move?
    ensures DrawTargets(Groups(mpoly, anchor, n, cfg, round)) == PolygonDraws(mpoly, n, cfg, round)
    decreases n
  {
    if n > 0 {
      var prev := Groups(mpoly, anchor, n - 1, cfg, round);
      var pc := PolygonCommands(mpoly[n - 1], cfg, round);
      var tail := if n - 1 != 0 then [anchor] else [];
      GroupsDraws(mpoly, anchor, n - 1, cfg, round);
      PolygonMovesAndDraws(mpoly[n - 1], cfg, round);
      TargetsAppend(prev, pc);
      TargetsAppend(prev + pc, tail);
      assert DrawTargets(tail) == [] by {
        if n - 1 != 0 {
          assert tail[1..] == [];
        }
      }
    }
  }

  /** Every draw of draw_multipolygon goes to a polygon point after that
      polygon's first, polygon after polygon and in order; none is added or
      lost. */
  lemma MultiPolygonDraws(mpoly: seq<seq<Point>>, cfg: Config, round: real -> int)
    requires |mpoly| > 0
    requires forall i :: 0 <= i < |mpoly| ==> |mpoly[i]| > 0
    ensures DrawTargets(MultiPolygonCommands(mpoly, cfg, round)) == PolygonDraws(mpoly, |mpoly|, cfg, round)
  {
    var anchor := Target(mpoly[0][0], false, cfg, round);
    GroupsDraws(mpoly, anchor, |mpoly|, cfg, round);
    TargetsAppend([anchor], Groups(mpoly, anchor, |mpoly|, cfg, round));
  }
}
