# svg2ReGIS in Dafny

svg2ReGIS.py turns the paths of an SVG drawing into one string of ReGIS
commands for a graphics terminal. It works in three steps:

- **Flattening.** Every continuous subpath is cut into samples, about one
  per device unit of arc length.
- **Compression.** The sample list goes through `filter_points`. This
  compressor merges consecutive displacements that round to the same
  value, then sums them back into points. A closed subpath then gets its
  first point appended again.
- **Serialization.** The polygons of each path are written as a
  multi-polygon with `head_to`, `draw_polygon` and `draw_multipolygon`,
  between the ReGIS framing `ESC P1p S(I0,C1[,E]) … \n ESC \`.

This project models those three steps and proves what each of them
promises.

Modules:

- `Geometry` (geometry.dfy): points as pairs of reals, numpy's `diff` and
  `cumsum`, and the fact that each one inverts the other.
- `Compress` (compress.dfy): `filter_points`.
  - `FilterPoints` is the loop as written: it grows `filtered` and updates
    `last`.
  - It is proved equal to the specification function `FilterPointsSpec`,
    which is built on `Merge`.
  - `Merge` is proved equal to an independent reference: one entry per
    maximal run of equal keys (`RunStarts`), each entry the raw sum of its
    run (`RunsSummed`).
- `Flatten` (flatten.dfy): sampling, concatenation, compression and
  closure of each subpath (`FlattenSubpath`), and the nested loops that
  build `polys` (`BuildPolygons`).
- `Decimal` (decimal.dfy): `str()` of an int, with a reader proving the
  numeral gives the number back.
- `Regis` (regis.dfy):
  - the ReGIS command stream as a sequence of `Command`s;
  - its text (`Render`, `RenderAll`) and a reader for it (`Parse`), with
    the proof that each gives back the other;
  - `head_to`, `draw_polygon` and `draw_multipolygon` (`HeadTo`,
    `DrawPolygon`, `DrawMultipolygon`), proved to write the text of
    `PolygonCommands` and `MultiPolygonCommands`;
  - what those streams contain: moves, draws and fill markers;
  - a pen state machine (`WellFormed`) that the streams follow.
- `Convert` (convert.dfy): the framing (`Emit`) and the whole conversion
  (`Convert`), which fails exactly where the script would crash.
  - Also counts over the whole document and a reader for a framed
    document.
  - Also proves that `--escape` only changes how the escape character is
    spelled.

Every place where the script raises an exception becomes a `None` result.
The script prints nothing in those cases. They are:

- a subpath with no sample (an `IndexError` in `filter_points`, or a
  `ValueError` in `np.concatenate` when the subpath has no segment);
- a path with no subpath (an `IndexError` in `draw_multipolygon`).

Three consequences of the code as written:

- A zero-length segment gets `ceil(0 / seg_res) = 0` samples, since
  `np.arange(0)` is empty (`SampleCount`). A subpath whose segments all have
  zero length leaves `filter_points` nothing, and the script stops
  (`SamplesIffPositiveLength`, `FlattenSubpath`).
- `draw_multipolygon` on N polygons writes 2N moves: move 2i goes to the
  first point of polygon i, and move 2i+1 to the anchor
  (`MultiPolygonMoves`). The anchor is the first point of polygon 0, so the
  stream moves there at least N+1 times; a later polygon that starts at the
  anchor adds one more.
- An open subpath's end point (t = 1 on its last segment) is never sampled:
  `np.arange(n) / n` stops at t = (n-1)/n. The polygon of an open subpath
  therefore ends at the last sample, not at the end of the path (`Traces`
  in `SubpathPolygonProperties`, with `RawSamplePoint`).

## Model

| member | source | states |
|---|---|---|
| `Geometry.Diffs` | svg2ReGIS.py:59 | np.diff: one difference fewer than there are points (none for an empty input) |
| `Geometry.PrefixSums` | svg2ReGIS.py:69 | np.cumsum keeps the length of its input |
| `Geometry.Telescope` | svg2ReGIS.py:59 | the first point plus the sum of all differences is the last point |
| `Geometry.CumsumOfDiffs` | svg2ReGIS.py:59-69 | cumsum of [p0] followed by diff(ps) gives ps back |
| `Geometry.DiffsOfCumsum` | svg2ReGIS.py:59-69 | diff of cumsum(es) gives es without its seed, so the output steps of filter_points are its retained entries |
| `Compress.Merge` | svg2ReGIS.py:61-68 | the loop keeps no more entries than there are differences, and keeps none exactly when there is no difference |
| `Compress.RunStarts` | svg2ReGIS.py:63-68 | every run-opening index lies within the differences, and a non-empty difference list has at least one run |
| `Compress.RunStartsSorted` | svg2ReGIS.py:62-68 | the listed indices all open a run, strictly increase and begin at 0 (`last` starts as None, so the first difference always opens an entry) |
| `Compress.RunStartsComplete` | svg2ReGIS.py:63-68 | every index that opens a run of equal rounded differences is listed |
| `Compress.MergeIsRunSums` | svg2ReGIS.py:61-68 | the entries are one per maximal run of equal keys, each the raw (unrounded) sum of its run, and every difference of a run has the key of the one that opened it |
| `Compress.MergePreservesSum` | svg2ReGIS.py:63-69 | merging never loses displacement: the entries sum to the sum of all differences |
| `Compress.NeighbouringRunsDiffer` | svg2ReGIS.py:62-68 | neighbouring retained entries were opened by differences with different rounded keys |
| `Compress.UniformKeyMergesAll` | svg2ReGIS.py:63-68 | differences that all share one key merge into one entry, their sum |
| `Compress.FilterPointsEnds` | svg2ReGIS.py:58-69 | on a non-empty input the output has 1 to len(points) points, starts at points[0], ends at the last input point (in exact arithmetic), and a single point comes back unchanged |
| `Compress.FilterPointsSteps` | svg2ReGIS.py:58-69 | the output has 1 + (number of maximal runs of equal rounded differences) points, and its consecutive differences are exactly the retained entries |
| `Compress.FilterPointsUniform` | svg2ReGIS.py:58-69 | on two or more points whose differences all share one key, the output is exactly [first, last] |
| `Compress.MergeSnoc` | svg2ReGIS.py:63-68 | one more difference either adds onto the newest entry (same key as the one before it) or opens a new one |
| `Compress.FilteredSnoc` | svg2ReGIS.py:63-68 | the same step on `filtered`, which holds the first point ahead of the entries: `filtered[-1] += d` or `filtered.append(d)` |
| `Compress.FilterPointsSpec` | svg2ReGIS.py:58-69 | what filter_points returns: cumsum of the first point followed by the retained entries of Merge over diff(points) |
| `Compress.FilterPoints` | svg2ReGIS.py:58-69 | the loop over zip(diff, rounded), with `last` starting as None and updated only when an entry opens, returns FilterPointsSpec, of which the lemmas above state the properties |
| `Flatten.Ceil` | svg2ReGIS.py:113 | math.ceil: the least integer not below x |
| `Flatten.SampleCount` | svg2ReGIS.py:113-114 | a segment gets no sample exactly when its length is not positive |
| `Flatten.SampleCountBounds` | svg2ReGIS.py:113 | a segment of positive length gets the fewest samples leaving at most seg_res of length per sample |
| `Flatten.Samples` | svg2ReGIS.py:114 | seg.point(np.arange(n)/n) gives n = interp_num points |
| `Flatten.RawSamples` | svg2ReGIS.py:111-115 | `points` after np.concatenate: the samples of every segment of the subpath, segment after segment |
| `Flatten.RawSampleCount` | svg2ReGIS.py:111-115 | the raw sample count of a subpath is the sum over its segments of ceil(length / seg_res) |
| `Flatten.RawSampleLayout` | svg2ReGIS.py:111-115 | sample k of segment i sits at offset (samples of segments before i) + k of the concatenation |
| `Flatten.RawSamplePoint` | svg2ReGIS.py:112-115 | that flattened point is segment i's point at t = k/n |
| `Flatten.SamplesIffPositiveLength` | svg2ReGIS.py:111-116 | a subpath yields points exactly when one of its segments has positive length |
| `Flatten.Close` | svg2ReGIS.py:117-118 | the points, with the first point appended again when the subpath is closed |
| `Flatten.CloseProperties` | svg2ReGIS.py:117-118 | closing appends exactly one point to a closed subpath's points (and none otherwise), keeps the others, and leaves a closed polygon ending where it starts |
| `Flatten.CompressThenClose` | svg2ReGIS.py:115-118 | compression then closure keeps the first sample first, keeps the last sample last when open, ends a closed polygon at its start, and adds at most the closing point |
| `Flatten.SubpathPolygonProperties` | svg2ReGIS.py:111-119 | the same of every subpath polygon: closure is appended after compression, so compression cannot undo it |
| `Flatten.SubpathPolygon` | svg2ReGIS.py:111-119 | the polygon one subpath appends to `poly`: its raw samples through filter_points, then closed when the subpath is closed |
| `Flatten.FlattenSubpath` | svg2ReGIS.py:111-119 | the per-subpath loop fails exactly when the subpath yields no sample; otherwise it returns the subpath polygon, closed when the subpath is |
| `Flatten.PathPolygons` | svg2ReGIS.py:109-119 | `poly` for one path: the polygon of each continuous subpath, in order |
| `Flatten.PathPolygonsAt` | svg2ReGIS.py:109-119 | a path gives one polygon per continuous subpath, polygon j coming from subpath j |
| `Flatten.Shapes` | svg2ReGIS.py:107-120 | `polys`: the polygons of each path, in document order |
| `Flatten.ShapesStructure` | svg2ReGIS.py:107-120 | one multi-polygon per path, one polygon per subpath, every polygon non-empty and every closed subpath's polygon closed |
| `Flatten.PathPolygonsSnoc` | svg2ReGIS.py:119 | `poly.append(points)` extends the path's polygons by that subpath's polygon |
| `Flatten.ShapesSnoc` | svg2ReGIS.py:120 | `polys.append(...)` extends the shapes by that path's polygons |
| `Flatten.BuildPolygons` | svg2ReGIS.py:107-120 | the nested loops fail exactly when some subpath yields no sample, and otherwise build the shapes in document order |
| `Decimal.DigitChar` | svg2ReGIS.py:29 | a digit value below 10 becomes the character of that digit |
| `Decimal.NatToString` | svg2ReGIS.py:29 | str() of a natural number is a non-empty digit string with no leading zero |
| `Decimal.IntToString` | svg2ReGIS.py:29-31 | str() of an int: digits after a minus sign exactly when it is negative |
| `Decimal.NatToStringValue` | svg2ReGIS.py:29 | the digits str() writes denote the number |
| `Decimal.IntToStringRoundTrip` | svg2ReGIS.py:29-31 | int(str(i)) == i: the numeral determines the coordinate |
| `Regis.Render` | svg2ReGIS.py:29-43 | the text of one command: `\nP[x,y]` for a move, `V[x,y]` for a draw, `\nF(` and `)` for the fill markers, with x and y written by str() |
| `Regis.RenderAllAppend` | svg2ReGIS.py:39-43 | the text of a joined command stream is the joined texts, so `+=` on the string is appending a command |
| `Regis.ParsePairRendered` | svg2ReGIS.py:29-31 | the text `str(x) + "," + str(y) + "]"` reads back as (x, y), and reading stops right after it |
| `Regis.ParseMoveRendered` | svg2ReGIS.py:31 | `\nP[x,y]` reads back as a move to (x, y) |
| `Regis.ParseDrawRendered` | svg2ReGIS.py:29 | `V[x,y]` reads back as a draw to (x, y) |
| `Regis.ParseRendered` | svg2ReGIS.py:29-43 | every command's text reads back as that command, and reading stops exactly where its text ends |
| `Regis.ParseRenderAll` | svg2ReGIS.py:25-55 | the text of a command stream reads back as that stream, so the text and the stream determine each other |
| `Regis.Device` | svg2ReGIS.py:26-31 | the device point of p: (round(x + xhome), round(y + yhome)) |
| `Regis.HeadTo` | svg2ReGIS.py:25-32 | `V[` when drawing or `\nP[` when moving, then str(round(x + xhome)), `,`, str(round(y + yhome)), `]`; its contract: this is the text of exactly one command, the draw or move to the device point, and nothing else |
| `Regis.HeadToIsOneCommand` | svg2ReGIS.py:25-32 | head_to writes exactly one command and nothing else: its text parses back as the single draw (when draw is true) or move (otherwise) to (round(x + xhome), round(y + yhome)) |
| `Regis.PolygonCommands` | svg2ReGIS.py:35-44 | the commands draw_polygon writes: the move to poly[0], `\nF(` when filling, a draw to each later point, `)` when filling |
| `Regis.DrawsToSnoc` | svg2ReGIS.py:40-41 | one more iteration of the point loop adds one draw to that point |
| `Regis.DrawPolygon` | svg2ReGIS.py:35-44 | draw_polygon writes the text of the move to poly[0], then "\nF(" when filling, then a draw per later point, then ")" when filling |
| `Regis.MultiPolygonCommands` | svg2ReGIS.py:47-55 | the commands draw_multipolygon writes: the move to the anchor mpoly[0][0], then each polygon's commands, each after polygon 0 followed by the move to the anchor |
| `Regis.GroupsSnoc` | svg2ReGIS.py:50-53 | one more iteration of the polygon loop adds that polygon's commands, then the jump back to the anchor unless it is polygon 0 |
| `Regis.DrawMultipolygon` | svg2ReGIS.py:47-55 | draw_multipolygon writes P(anchor), then each polygon's commands, each but polygon 0's followed by P(anchor) |
| `Regis.TargetsAppend` | svg2ReGIS.py:39-53 | the moves and draws of a joined stream are those of its parts, in order |
| `Regis.DrawsOnly` | svg2ReGIS.py:40-41 | the point loop writes no move and no fill marker, and draws to each of its points in order |
| `Regis.RunAppend` | svg2ReGIS.py:35-55 | the pen state machine runs over a joined stream part by part |
| `Regis.WellFormedAppend` | svg2ReGIS.py:47-55 | streams that keep to the state machine still keep to it when joined |
| `Regis.RunDraws` | svg2ReGIS.py:40-41 | the draws stay inside a fill block when filling and outside one otherwise |
| `Regis.PolygonMovesAndDraws` | svg2ReGIS.py:35-44 | draw_polygon writes exactly one move, first of all, to poly[0], then exactly len(poly)-1 draws, to poly[1:] in order |
| `Regis.PolygonFillMarkers` | svg2ReGIS.py:38-43 | with fill, exactly one "\nF(" right after the move and one ")" at the end; without fill, neither |
| `Regis.PolygonWellFormed` | svg2ReGIS.py:35-44 | draw_polygon moves outside any fill block, draws inside one when filling, and closes every block it opens |
| `Regis.GroupsMovesSnoc` | svg2ReGIS.py:50-53 | each iteration of the polygon loop adds the move to that polygon's first point, then (except for polygon 0) the jump back to the anchor |
| `Regis.GroupsMoves` | svg2ReGIS.py:50-53 | after n polygons the loop has written 2n-1 moves, alternating polygon starts and anchor jumps |
| `Regis.MultiPolygonMoves` | svg2ReGIS.py:47-55 | draw_multipolygon on N polygons writes 2N moves: move 2i to the first point of polygon i, move 2i+1 to the anchor (N-1 re-jumps after polygons 1..N-1) |
| `Regis.GroupsFills` | svg2ReGIS.py:50-51 | after n polygons the loop has opened and closed n fill blocks when filling and none otherwise |
| `Regis.GroupsWellFormed` | svg2ReGIS.py:50-53 | the polygon loop keeps to the pen state machine |
| `Regis.MultiPolygonFills` | svg2ReGIS.py:47-55 | draw_multipolygon writes one fill block per polygon when filling and none otherwise |
| `Regis.MultiPolygonWellFormed` | svg2ReGIS.py:47-55 | draw_multipolygon never moves inside a fill block and closes every block it opens |
| `Regis.GroupsDraws` | svg2ReGIS.py:50-51 | the polygon loop draws to each polygon's points after its first, polygon after polygon |
| `Regis.MultiPolygonDraws` | svg2ReGIS.py:47-55 | every draw of draw_multipolygon goes to a polygon point after that polygon's first, in order, with none added or lost |
| `Convert.Escape` | svg2ReGIS.py:122-127 | the escape character: the raw ESC, or the four characters `\033` with --escape |
| `Convert.Preamble` | svg2ReGIS.py:122-131 | the escape, `P1p`, then `S(I0,C1)` with --dontclear or `S(I0,C1,E)` without it |
| `Convert.Postamble` | svg2ReGIS.py:136-139 | a line break, the escape, then a backslash |
| `Convert.Document` | svg2ReGIS.py:122-139 | RegisString: the preamble, the text of every multi-polygon in document order, then the postamble |
| `Convert.DocumentCommandsSnoc` | svg2ReGIS.py:133-134 | one more iteration of the loop over polys adds that multi-polygon's commands |
| `Convert.DrawAll` | svg2ReGIS.py:133-134 | the loop over polys fails exactly when some multi-polygon is empty or holds an empty polygon, and otherwise writes every multi-polygon's commands in document order |
| `Convert.Emit` | svg2ReGIS.py:122-139 | the string passed to print is the framing preamble (escape spelled per --escape, erase unless --dontclear), the drawing, then "\n" ESC "\\" |
| `Convert.Convert` | svg2ReGIS.py:106-139 | the whole conversion fails exactly when some subpath yields no sample or some path has no subpath, and otherwise prints the framed document of the built shapes |
| `Convert.ReadDocumentRoundTrip` | svg2ReGIS.py:122-139 | a document reads back, under its framing, as exactly the commands it was written from |
| `Convert.DocumentFills` | svg2ReGIS.py:133-134 | the document keeps to the pen state machine and has one fill block per polygon when filling, none otherwise |
| `Convert.DocumentMoves` | svg2ReGIS.py:133-134 | the document moves twice per polygon |
| `Convert.DocumentDraws` | svg2ReGIS.py:133-134 | every draw goes to a polygon point after that polygon's first, in document order, with none added or lost |
| `Convert.EscapeText` | svg2ReGIS.py:122-139 | writing every ESC as \033 leaves no ESC |
| `Convert.EscapeTextAppend` | svg2ReGIS.py:122-139 | escaping works piece by piece |
| `Convert.EscapeTextPlain` | svg2ReGIS.py:122-139 | text without ESC is unchanged by escaping |
| `Convert.NoEscInCommands` | svg2ReGIS.py:25-55 | no command text contains the escape character |
| `Convert.ScreenSetupPlain` | svg2ReGIS.py:124-131 | the text after the escape in the preamble (`P1p` and the screen setup) holds no ESC |
| `Convert.EscapeCount` | svg2ReGIS.py:122-127 | the escape is one raw ESC, or none when spelled \033 |
| `Convert.FramingEscapes` | svg2ReGIS.py:122-139 | the preamble and the postamble each hold one raw ESC, or none with --escape |
| `Convert.DocumentEscapes` | svg2ReGIS.py:122-139 | a raw document holds exactly two ESC characters, the one entering ReGIS mode and the one leaving it; an escaped one holds none |
| `Convert.EscapeFraming` | svg2ReGIS.py:122-139 | escaping the raw preamble and postamble gives the escaped ones |
| `Convert.EscapeSymmetry` | svg2ReGIS.py:122-139 | --escape changes nothing but the spelling of ESC: the escaped document is the raw one with each ESC written as \033 |

## Left out

- Argument parsing and the global `args` (svg2ReGIS.py:9-22, 72). They
  become explicit parameters: `Config` carries xhome, yhome and fill, and
  `Settings` adds dontclear and escape.
- Reading the SVG file and the geometry of svgpathtools: `svg2paths2`,
  `continuous_subpaths`, `seg.length()`, `seg.point()` and `isclosed()`.
  These are library calls. A segment is given by its length and its point
  function, and a subpath by its segments and its closed flag.
- The fit-to-window scaling and the parsing of the viewBox and width
  strings (svg2ReGIS.py:77-105). This is float arithmetic on values from
  the SVG parser. The model starts from the paths after any scaling.
- Floating point. Complex numbers are pairs of reals, and all arithmetic
  is exact. numpy's `.round(3)` is the parameter `key`, and Python's
  `round` is the parameter `round`. Their half-to-even behaviour is not
  modelled, and every property holds whatever they compute.
- The bookkeeping of `attrs` and the rewrite of `orig_attrs[i]['d']`. They
  never reach the output. `zip(polys, attrs)` is taken over all of
  `polys`, since the two lists have the same length.
- `print` (svg2ReGIS.py:141). The model returns the string instead.
- Compress.FilterPoints: its ensures only ties the loop to
  `FilterPointsSpec`. What filter_points promises is proved about that
  function, in the FilterPoints* and Merge* lemmas.
