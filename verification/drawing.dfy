/**
  What the recorder draws: `draw_strokes_` as the list of path commands it
  issues on a 2D drawing context, and the drawing context's path model
  (begin a path, move, line, stroke) as a small interpreter, so that the
  claim "the subpaths handed to the context's stroke call are exactly the
  strokes given, in order" can be stated and proved. The interpreter
  records subpaths, not pixels: it does not drop the subpaths a real
  context's stroke call leaves invisible, such as a single point under
  the default butt line cap.
 */
module Drawing {
  import opened Strokes

  /** The path calls `draw_strokes_` makes on the context. */
  datatype Command = BeginPath | MoveTo(p: Point) | LineTo(p: Point) | StrokePath

  /** One `LineTo` per point, in order. */
  function LineTos(ps: seq<Point>): (r: seq<Command>)
    ensures |r| == |ps|
    ensures forall j :: 0 <= j < |ps| ==> r[j] == LineTo(ps[j])
  {
    if ps == [] then [] else [LineTo(ps[0])] + LineTos(ps[1..])
  }

  /** The commands for one stroke: move to its first point, then a line to
      each remaining point. */
  function SubPath(s: Stroke): (r: seq<Command>)
    requires |s| >= 1
    ensures |r| == |s|
    ensures r[0] == MoveTo(s[0])
    ensures forall j :: 1 <= j < |s| ==> r[j] == LineTo(s[j])
  {
    [MoveTo(s[0])] + LineTos(s[1..])
  }

  /** The commands for every stroke, in list order. */
  function Path(ss: seq<Stroke>): seq<Command>
    requires AllNonEmpty(ss)
  {
    if ss == [] then [] else SubPath(ss[0]) + Path(ss[1..])
  }

  /** Total number of points over all strokes. */
  function PointCount(ss: seq<Stroke>): nat {
    if ss == [] then 0 else |ss[0]| + PointCount(ss[1..])
  }

  /** The sum of (length - 1) over the strokes: one line per point after
      the first of each stroke. */
  function SegmentCount(ss: seq<Stroke>): int {
    if ss == [] then 0 else |ss[0]| - 1 + SegmentCount(ss[1..])
  }

  /** `draw_strokes_`: begin a path, trace every stroke, stroke the path.
      A stroke with no point would make the page read a missing first
      point and throw, so every stroke must have one. */
  function DrawStrokes(ss: seq<Stroke>): (r: seq<Command>)
    requires AllNonEmpty(ss)
    ensures |r| == PointCount(ss) + 2
    ensures r[0] == BeginPath && r[|r| - 1] == StrokePath
  {
    PathLength(ss);
    [BeginPath] + Path(ss) + [StrokePath]
  }

  /** `draw_existing_strokes`: draw every finished stroke. */
  function DrawExistingStrokes(m: StrokeManager): (r: seq<Command>)
    requires AllNonEmpty(m.strokes)
    ensures Subpaths(r) == GetStrokes(m)
  {
    DrawStrokesSubpaths(Blank(), m.strokes);
    DrawStrokes(m.strokes)
  }

  /** `draw_current_stroke`: draw the stroke in progress alone. */
  function DrawCurrentStroke(m: StrokeManager): (r: seq<Command>)
    requires |m.current| >= 1
    ensures Subpaths(r) == [m.current]
  {
    DrawStrokesSubpaths(Blank(), [m.current]);
    DrawStrokes([m.current])
  }

  lemma {:induction false} PathLength(ss: seq<Stroke>)
    requires AllNonEmpty(ss)
    ensures |Path(ss)| == PointCount(ss)
    decreases |ss|
  {
    if ss != [] {
      PathLength(ss[1..]);
    }
  }

  // ---------------------------------------------------------------------
  // How many of each command a trace holds.

  function CountMoveTo(cs: seq<Command>): nat {
    if cs == [] then 0 else (if cs[0].MoveTo? then 1 else 0) + CountMoveTo(cs[1..])
  }

  function CountLineTo(cs: seq<Command>): nat {
    if cs == [] then 0 else (if cs[0].LineTo? then 1 else 0) + CountLineTo(cs[1..])
  }

  lemma {:induction false} CountAppend(a: seq<Command>, b: seq<Command>)
    ensures CountMoveTo(a + b) == CountMoveTo(a) + CountMoveTo(b)
    ensures CountLineTo(a + b) == CountLineTo(a) + CountLineTo(b)
    decreases |a|
  {
    if a == [] {
      assert a + b == b;
    } else {
      assert (a + b)[0] == a[0];
      assert (a + b)[1..] == a[1..] + b;
      CountAppend(a[1..], b);
    }
  }

  lemma {:induction false} LineTosCounts(ps: seq<Point>)
    ensures CountMoveTo(LineTos(ps)) == 0 && CountLineTo(LineTos(ps)) == |ps|
    decreases |ps|
  {
    if ps != [] {
      LineTosCounts(ps[1..]);
      CountAppend([LineTo(ps[0])], LineTos(ps[1..]));
    }
  }

  /** `draw_strokes_` moves once per stroke and draws one line per point
      after the first of each stroke. */
  lemma {:induction false} DrawStrokesCounts(ss: seq<Stroke>)
    requires AllNonEmpty(ss)
    ensures CountMoveTo(DrawStrokes(ss)) == |ss|
    ensures CountLineTo(DrawStrokes(ss)) == SegmentCount(ss)
  {
    PathCounts(ss);
    CountAppend([BeginPath], Path(ss));
    CountAppend([BeginPath] + Path(ss), [StrokePath]);
  }

  lemma {:induction false} PathCounts(ss: seq<Stroke>)
    requires AllNonEmpty(ss)
    ensures CountMoveTo(Path(ss)) == |ss|
    ensures CountLineTo(Path(ss)) == SegmentCount(ss)
    decreases |ss|
  {
    if ss != [] {
      PathCounts(ss[1..]);
      LineTosCounts(ss[0][1..]);
      CountAppend([MoveTo(ss[0][0])], LineTos(ss[0][1..]));
      CountAppend(SubPath(ss[0]), Path(ss[1..]));
    }
  }

  // ---------------------------------------------------------------------
  // The drawing context's path model.

  /** The context as far as paths go: the subpaths of the current path,
      and every subpath handed to a stroke call so far, whether or not a
      real context would leave it visible. */
  datatype Canvas = Canvas(path: seq<Stroke>, stroked: seq<Stroke>)

  function Blank(): Canvas {
    Canvas([], [])
  }

  /** One path call. A line with no subpath to extend starts one at its
      point, as the 2D canvas context does. */
  function Exec(c: Canvas, cmd: Command): Canvas {
    match cmd
    case BeginPath => c.(path := [])
    case MoveTo(p) => c.(path := c.path + [[p]])
    case LineTo(p) =>
      if c.path == [] then c.(path := [[p]])
      else c.(path := c.path[..|c.path| - 1] + [c.path[|c.path| - 1] + [p]])
    case StrokePath => c.(stroked := c.stroked + c.path)
  }

  function ExecAll(c: Canvas, cs: seq<Command>): Canvas
    decreases |cs|
  {
    if cs == [] then c else ExecAll(Exec(c, cs[0]), cs[1..])
  }

  /** The subpaths a trace hands to stroke calls, from a blank context. */
  function Subpaths(cs: seq<Command>): seq<Stroke> {
    ExecAll(Blank(), cs).stroked
  }

  lemma {:induction false} ExecAllAppend(c: Canvas, a: seq<Command>, b: seq<Command>)
    ensures ExecAll(c, a + b) == ExecAll(ExecAll(c, a), b)
    decreases |a|
  {
    if a == [] {
      assert a + b == b;
    } else {
      assert (a + b)[1..] == a[1..] + b;
      ExecAllAppend(Exec(c, a[0]), a[1..], b);
    }
  }

  /** Lines extend the last subpath by their points, in order. */
  lemma {:induction false} LineTosExtend(c: Canvas, ps: seq<Point>)
    requires c.path != []
    ensures ExecAll(c, LineTos(ps)).path
         == c.path[..|c.path| - 1] + [c.path[|c.path| - 1] + ps]
    ensures ExecAll(c, LineTos(ps)).stroked == c.stroked
    decreases |ps|
  {
    var n := |c.path|;
    if ps == [] {
      assert c.path[n - 1] + ps == c.path[n - 1];
      assert c.path[..n - 1] + [c.path[n - 1]] == c.path;
    } else {
      var c' := Exec(c, LineTo(ps[0]));
      assert LineTos(ps)[1..] == LineTos(ps[1..]);
      LineTosExtend(c', ps[1..]);
      assert c'.path[..n - 1] == c.path[..n - 1];
      assert c'.path[n - 1] + ps[1..] == c.path[n - 1] + ps;
    }
  }

  /** The commands for one stroke add that stroke as a new subpath. */
  lemma SubPathAdds(c: Canvas, s: Stroke)
    requires |s| >= 1
    ensures ExecAll(c, SubPath(s)) == c.(path := c.path + [s])
  {
    ExecAllAppend(c, [MoveTo(s[0])], LineTos(s[1..]));
    var c' := Exec(c, MoveTo(s[0]));
    assert ExecAll(c, [MoveTo(s[0])]) == c';
    LineTosExtend(c', s[1..]);
    assert c'.path[..|c'.path| - 1] == c.path;
    assert [s[0]] + s[1..] == s;
  }

  /** The commands for a list of strokes add them as subpaths, in order. */
  lemma {:induction false} PathAdds(c: Canvas, ss: seq<Stroke>)
    requires AllNonEmpty(ss)
    ensures ExecAll(c, Path(ss)) == c.(path := c.path + ss)
    decreases |ss|
  {
    if ss == [] {
      assert c.path + ss == c.path;
    } else {
      ExecAllAppend(c, SubPath(ss[0]), Path(ss[1..]));
      SubPathAdds(c, ss[0]);
      PathAdds(c.(path := c.path + [ss[0]]), ss[1..]);
      assert c.path + [ss[0]] + ss[1..] == c.path + ss;
    }
  }

  /** `draw_strokes_` strokes exactly the strokes it is given, in order,
      each as the subpath through its points, and nothing else; the
      trace therefore determines the strokes. */
  lemma DrawStrokesSubpaths(c: Canvas, ss: seq<Stroke>)
    requires AllNonEmpty(ss)
    ensures ExecAll(c, DrawStrokes(ss)).stroked == c.stroked + ss
    ensures Subpaths(DrawStrokes(ss)) == ss
  {
    forall c0: Canvas ensures ExecAll(c0, DrawStrokes(ss)).stroked == c0.stroked + ss {
      var begun := c0.(path := []);
      ExecAllAppend(c0, [BeginPath] + Path(ss), [StrokePath]);
      ExecAllAppend(c0, [BeginPath], Path(ss));
      assert ExecAll(c0, [BeginPath]) == begun;
      PathAdds(begun, ss);
      assert begun.path + ss == ss;
      assert ExecAll(begun.(path := ss), [StrokePath]).stroked == c0.stroked + ss;
    }
    assert Blank().stroked + ss == ss;
  }

  /** Distinct stroke lists give distinct traces. */
  lemma DrawStrokesInjective(ss: seq<Stroke>, ts: seq<Stroke>)
    requires AllNonEmpty(ss) && AllNonEmpty(ts)
    requires DrawStrokes(ss) == DrawStrokes(ts)
    ensures ss == ts
  {
    DrawStrokesSubpaths(Blank(), ss);
    DrawStrokesSubpaths(Blank(), ts);
  }
}
