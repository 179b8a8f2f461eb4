/** The whole conversion: the polygons of every path are serialized in
    document order between the ReGIS framing (svg2ReGIS.py:106-139).

    The framing enters ReGIS mode with the device control string ESC P 1 p,
    sets the screen (S(I0,C1) and, unless told not to, E to erase it) and
    leaves with ESC \. With --escape the ESC character is written as the four
    characters \033, for a shell that interprets them. */
module Convert {

  import opened Geometry
  import opened Optional
  import opened Regis
  import Flatten

  /** The ASCII escape character. */
  const ESC: char := 27 as char

  /** Every command-line setting the conversion reads. */
  datatype Settings = Settings(draw: Config, dontclear: bool, escape: bool)

  /** The escape character, or its spelling \033 with --escape. */
  function Escape(st: Settings): string {
    if st.escape then "\\033" else [ESC]
  }

  /** The text after the escape in the preamble: "P1p" completes the device
      control string, then the screen setup, with the erase E unless
      --dontclear. */
  function ScreenSetup(st: Settings): string {
    "P1p" + (if st.dontclear then "S(I0,C1)" else "S(I0,C1,E)")
  }

  /** Enter ReGIS mode, then set the screen; the erase is left out with
      --dontclear. */
  function Preamble(st: Settings): string {
    Escape(st) + ScreenSetup(st)
  }

  /** Leave ReGIS mode: a line break, then the string terminator ESC \. */
  function Postamble(st: Settings): string {
    "\n" + Escape(st) + "\\"
  }

  /** draw_multipolygon can serialize mpoly: it has a polygon and every
      polygon has a point (it reads mpoly[0][0] and each poly[0]). */
  predicate Serializable(mpoly: seq<seq<Point>>) {
    |mpoly| > 0 && forall j :: 0 <= j < |mpoly| ==> |mpoly[j]| > 0
  }

  predicate Drawable(polys: seq<seq<seq<Point>>>) {
    forall i :: 0 <= i < |polys| ==> Serializable(polys[i])
  }

  /** The commands of every multi-polygon, in document order. */
  function DocumentCommands(polys: seq<seq<seq<Point>>>, cfg: Config, round: real -> int): seq<Command>
    requires Drawable(polys)
    decreases |polys|
  {
    if |polys| == 0 then []
    else DocumentCommands(polys[..|polys| - 1], cfg, round) + MultiPolygonCommands(polys[|polys| - 1], cfg, round)
  }

  /** The text the script prints. */
  function Document(polys: seq<seq<seq<Point>>>, st: Settings, round: real -> int): string
    requires Drawable(polys)
  {
    Preamble(st) + RenderAll(DocumentCommands(polys, st.draw, round)) + Postamble(st)
  }

  lemma DocumentCommandsSnoc(polys: seq<seq<seq<Point>>>, i: nat, cfg: Config, round: real -> int)
    requires i < |polys|
    requires Drawable(polys[..i]) && Serializable(polys[i])
    ensures Drawable(polys[..i + 1])
    ensures DocumentCommands(polys[..i + 1], cfg, round)
         == DocumentCommands(polys[..i], cfg, round) + MultiPolygonCommands(polys[i], cfg, round)
  {
    assert polys[..i + 1][..i] == polys[..i];
  }

  /** The loop over the multi-polygons (svg2ReGIS.py:133-134). None stands
      for the failure of draw_multipolygon or draw_polygon on an empty
      multi-polygon or polygon, which ends the script without output. */
  method DrawAll(polys: seq<seq<seq<Point>>>, cfg: Config, round: real -> int) returns (body: Option<string>)
    ensures body.None? <==> !Drawable(polys)
    ensures body.Some? ==> body.value == RenderAll(DocumentCommands(polys, cfg, round))
  {
    var s := "";
    ghost var cs: seq<Command> := [];
    for i := 0 to |polys|
      invariant Drawable(polys[..i])
      invariant cs == DocumentCommands(polys[..i], cfg, round)
      invariant s == RenderAll(cs)
    {
      if !Serializable(polys[i]) {
        return None;
      }
      var part := DrawMultipolygon(polys[i], cfg, round);
      DocumentCommandsSnoc(polys, i, cfg, round);
      RenderAllAppend(cs, MultiPolygonCommands(polys[i], cfg, round));
      s := s + part;
      cs := cs + MultiPolygonCommands(polys[i], cfg, round);
    }
    assert polys[..|polys|] == polys;
    body := Some(s);
  }

  /** The framing around the drawing (svg2ReGIS.py:122-139). */
  method Emit(polys: seq<seq<seq<Point>>>, st: Settings, round: real -> int) returns (doc: Option<string>)
    ensures doc.None? <==> !Drawable(polys)
    ensures doc.Some? ==> doc.value == Document(polys, st, round)
  {
    var s: string;
    if st.escape {
      s := "\\033P1p";
    } else {
      s := [ESC] + "P1p";
    }
    assert s == Escape(st) + "P1p";
    if st.dontclear {
      s := s + "S(I0,C1)";
    } else {
      s := s + "S(I0,C1,E)";
    }
    assert s == Escape(st) + ScreenSetup(st);
    var body := DrawAll(polys, st.draw, round);
    if body.None? {
      return None;
    }
    s := s + body.value;
    ghost var framed := s;
    if st.escape {
      s := s + "\n\\033\\";
      assert s == framed + Postamble(st);
    } else {
      s := s + "\n" + [ESC] + "\\";
      assert s == framed + Postamble(st);
    }
    doc := Some(s);
  }

  /** The whole conversion from the paths of the document (after any scaling):
      the polygons are built, then serialized. It fails exactly when a subpath
      yields no sample or a path has no subpath. */
  method Convert(paths: seq<seq<Flatten.Subpath>>, st: Settings, key: Point -> Point, round: real -> int)
    returns (doc: Option<string>)
    ensures doc.None? <==> !Flatten.AllDrawable(paths) || exists i :: 0 <= i < |paths| && |paths[i]| == 0
    ensures doc.Some? ==> Flatten.AllDrawable(paths) && Drawable(Flatten.Shapes(paths, key))
                          && doc.value == Document(Flatten.Shapes(paths, key), st, round)
  {
    var polys := Flatten.BuildPolygons(paths, key);
    if polys.None? {
      return None;
    }
    Flatten.ShapesStructure(paths, key);
    var shapes := polys.value;
    assert Drawable(shapes) <==> forall i :: 0 <= i < |paths| ==> |paths[i]| > 0 by {
      if Drawable(shapes) {
        forall i | 0 <= i < |paths|
          ensures |paths[i]| > 0
        {
          assert Serializable(shapes[i]);
        }
      }
    }
    doc := Emit(shapes, st, round);
  }

  // Reading a document back.

  /** The commands of a document written with the settings st, or None when
      s is not framed as such a document or its body is not a command stream. */
  function ReadDocument(s: string, st: Settings): Option<seq<Command>> {
    var pre, post := Preamble(st), Postamble(st);
    if |pre| + |post| <= |s| && s[..|pre|] == pre && s[|s| - |post|..] == post
    then Parse(s[|pre|..|s| - |post|])
    else None
  }

  /** A document reads back as exactly the commands it was written from. */
  lemma ReadDocumentRoundTrip(polys: seq<seq<seq<Point>>>, st: Settings, round: real -> int)
    requires Drawable(polys)
    ensures ReadDocument(Document(polys, st, round), st) == Some(DocumentCommands(polys, st.draw, round))
  {
    var pre, post := Preamble(st), Postamble(st);
    var cs := DocumentCommands(polys, st.draw, round);
    var body := RenderAll(cs);
    var s := pre + body + post;
    assert s[..|pre|] == pre;
    assert s[|s| - |post|..] == post;
    assert s[|pre|..|s| - |post|] == body;
    ParseRenderAll(cs);
  }

  // What the document contains.

  /** The number of polygons in all multi-polygons. */
  function PolygonTotal(polys: seq<seq<seq<Point>>>): nat
    decreases |polys|
  {
    if |polys| == 0 then 0 else PolygonTotal(polys[..|polys| - 1]) + |polys[|polys| - 1]|
  }

  /** The draw targets of the whole document: per multi-polygon, each
      polygon's points after its first. */
  function AllDraws(polys: seq<seq<seq<Point>>>, cfg: Config, round: real -> int): seq<(int, int)>
    requires Drawable(polys)
    decreases |polys|
  {
    if |polys| == 0 then []
    else
      var m := polys[|polys| - 1];
      AllDraws(polys[..|polys| - 1], cfg, round) + PolygonDraws(m, |m|, cfg, round)
  }

  /** The document keeps to the pen state machine, and opens and closes one
      fill block per polygon when filling and none otherwise. */
  lemma {:induction false} DocumentFills(polys: seq<seq<seq<Point>>>, cfg: Config, round: real -> int)
    requires Drawable(polys)
    ensures var cs := DocumentCommands(polys, cfg, round);
      && WellFormed(cfg.fill, cs)
      && multiset(cs)[FillOpen] == (if cfg.fill then PolygonTotal(polys) else 0)
      && multiset(cs)[FillClose] == (if cfg.fill then PolygonTotal(polys) else 0)
    decreases |polys|
  {
    if |polys| > 0 {
      var init, m := polys[..|polys| - 1], polys[|polys| - 1];
      var prev := DocumentCommands(init, cfg, round);
      var mc := MultiPolygonCommands(m, cfg, round);
      DocumentFills(init, cfg, round);
      MultiPolygonFills(m, cfg, round);
      MultiPolygonWellFormed(m, cfg, round);
      WellFormedAppend(cfg.fill, prev, mc);
      assert multiset(prev + mc) == multiset(prev) + multiset(mc);
    }
  }

  /** The document moves twice per polygon: to its first point and to its
      multi-polygon's anchor. */
  lemma {:induction false} DocumentMoves(polys: seq<seq<seq<Point>>>, cfg: Config, round: real -> int)
    requires Drawable(polys)
    ensures |MoveTargets(DocumentCommands(polys, cfg, round))| == 2 * PolygonTotal(polys)
    decreases |polys|
  {
    if |polys| > 0 {
      var init, m := polys[..|polys| - 1], polys[|polys| - 1];
      DocumentMoves(init, cfg, round);
      MultiPolygonMoves(m, cfg, round);
      TargetsAppend(DocumentCommands(init, cfg, round), MultiPolygonCommands(m, cfg, round));
    }
  }

  /** Every draw of the document goes to a polygon point after that polygon's
      first, in document order; none is added or lost. */
  lemma {:induction false} DocumentDraws(polys: seq<seq<seq<Point>>>, cfg: Config, round: real -> int)
    requires Drawable(polys)
    ensures DrawTargets(DocumentCommands(polys, cfg, round)) == AllDraws(polys, cfg, round)
    decreases |polys|
  {
    if |polys| > 0 {
      var init, m := polys[..|polys| - 1], polys[|polys| - 1];
      DocumentDraws(init, cfg, round);
      MultiPolygonDraws(m, cfg, round);
      TargetsAppend(DocumentCommands(init, cfg, round), MultiPolygonCommands(m, cfg, round));
    }
  }

  // The escape character.

  /** The text with every ESC written as \033. */
  function EscapeText(s: string): (t: string)
    ensures ESC !in t
    decreases |s|
  {
    if |s| == 0 then ""
    else
      (if s[0] == ESC then "\\033" else [s[0]]) + EscapeText(s[1..])
  }

  lemma {:induction false} EscapeTextAppend(a: string, b: string)
    ensures EscapeText(a + b) == EscapeText(a) + EscapeText(b)
    decreases |a|
  {
    if |a| > 0 {
      assert (a + b)[1..] == a[1..] + b;
      EscapeTextAppend(a[1..], b);
    } else {
      assert a + b == b;
    }
  }

  lemma {:induction false} EscapeTextPlain(s: string)
    requires ESC !in s
    ensures EscapeText(s) == s
    decreases |s|
  {
    if |s| > 0 {
      EscapeTextPlain(s[1..]);
    }
  }

  /** No command contains the escape character. */
  lemma {:induction false} NoEscInCommands(cs: seq<Command>)
    ensures ESC !in RenderAll(cs)
    decreases |cs|
  {
    if |cs| > 0 {
      NoEscInCommands(cs[1..]);
      match cs[0]
      case Move(x, y) =>
        assert ESC !in Decimal.IntToString(x) && ESC !in Decimal.IntToString(y);
      case Draw(x, y) =>
        assert ESC !in Decimal.IntToString(x) && ESC !in Decimal.IntToString(y);
      case FillOpen =>
      case FillClose =>
    }
  }

  lemma ScreenSetupPlain(st: Settings)
    ensures ESC !in ScreenSetup(st)
  {
  }

  lemma EscapeCount(st: Settings)
    ensures multiset(Escape(st))[ESC] == if st.escape then 0 else 1
  {
    if st.escape {
      assert ESC !in Escape(st);
    }
  }

  /** The framing holds one escape at each end, spelled out with --escape. */
  lemma FramingEscapes(st: Settings)
    ensures multiset(Preamble(st))[ESC] == if st.escape then 0 else 1
    ensures multiset(Postamble(st))[ESC] == if st.escape then 0 else 1
  {
    var e := Escape(st);
    EscapeCount(st);
    ScreenSetupPlain(st);
    assert multiset(ScreenSetup(st))[ESC] == 0;
    assert multiset(Preamble(st)) == multiset(e) + multiset(ScreenSetup(st));
    assert ESC !in "\n" && ESC !in "\\";
    assert multiset(Postamble(st)) == multiset("\n") + multiset(e) + multiset("\\");
  }

  /** A raw document holds exactly two escape characters, the one that opens
      ReGIS mode and the one that closes it; an escaped document holds none. */
  lemma DocumentEscapes(polys: seq<seq<seq<Point>>>, st: Settings, round: real -> int)
    requires Drawable(polys)
    ensures multiset(Document(polys, st, round))[ESC] == if st.escape then 0 else 2
  {
    var body := RenderAll(DocumentCommands(polys, st.draw, round));
    NoEscInCommands(DocumentCommands(polys, st.draw, round));
    assert multiset(body)[ESC] == 0;
    FramingEscapes(st);
    var pre, post := Preamble(st), Postamble(st);
    assert multiset(pre + body + post) == multiset(pre) + multiset(body) + multiset(post);
  }

  lemma EscapeOne()
    ensures EscapeText([ESC]) == "\\033"
  {
    assert [ESC][1..] == [];
  }

  /** Escaping the raw framing gives the escaped framing. */
  lemma EscapeFraming(st: Settings)
    ensures EscapeText(Preamble(st.(escape := false))) == Preamble(st.(escape := true))
    ensures EscapeText(Postamble(st.(escape := false))) == Postamble(st.(escape := true))
  {
    var raw, esc := st.(escape := false), st.(escape := true);
    EscapeOne();
    ScreenSetupPlain(raw);
    ScreenSetupPlain(esc);
    EscapeTextPlain(ScreenSetup(raw));
    EscapeTextAppend([ESC], ScreenSetup(raw));
    assert ESC !in "\n" && ESC !in "\\";
    EscapeTextPlain("\n");
    EscapeTextPlain("\\");
    EscapeTextAppend("\n", [ESC]);
    EscapeTextAppend("\n" + [ESC], "\\");
  }

  /** --escape changes nothing but the spelling of the escape character: the
      escaped document is the raw one with every ESC written as \033. */
  lemma EscapeSymmetry(polys: seq<seq<seq<Point>>>, st: Settings, round: real -> int)
    requires Drawable(polys)
    ensures EscapeText(Document(polys, st.(escape := false), round)) == Document(polys, st.(escape := true), round)
  {
    var raw := st.(escape := false);
    var body := RenderAll(DocumentCommands(polys, st.draw, round));
    NoEscInCommands(DocumentCommands(polys, st.draw, round));
    EscapeTextPlain(body);
    EscapeFraming(st);
    EscapeTextAppend(Preamble(raw), body);
    EscapeTextAppend(Preamble(raw) + body, Postamble(raw));
  }
}
