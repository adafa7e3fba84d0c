# Phaistos stroke recorder, in Dafny

This project models the stroke-capture core of the Phaistos drawing page
(`draw.js`). Each small square drawing region ("char canvas") owns a
`StrokeManager`. This is a two-state recorder, idle or stroking:

- pen down (`begin`) starts a stroke holding one point;
- pen moves (`update`) append points while stroking;
- pen up (`end`) appends the stroke to the region's ordered list of
  finished strokes.

Moves and ups that arrive while idle are ignored. The page keeps one
recorder per region id and reaches them through three entry points:
`begin_stroke_on`, `update_stroke_on` and `end_stroke_on`. Beginning a
stroke redraws the region's finished strokes. Updating redraws the stroke
in progress.

Three modules, one per concern:

- `Strokes` (`strokes.dfy`): points, strokes and the recorder as an
  immutable datatype. The transitions are pure functions. Lemmas cover
  whole call sequences: the invariant every reachable recorder keeps, the
  append-only finished list, and the stroke a down/moves/up gesture
  records. A flag-only abstraction predicts how many strokes a call
  sequence finishes.
- `Drawing` (`drawing.dfy`): `draw_strokes_` as the list of path commands
  it issues (`BeginPath`, `MoveTo`, `LineTo`, `StrokePath`). A small
  interpreter of the 2D context's path model is the partner of that list.
  The main lemma says the subpaths the trace hands to the context's
  stroke call are exactly the given strokes, in order. Move and line
  counts are proved too.
- `Regions` (`regions.dfy`): the table of recorders keyed by region id and
  the three entry points, each returning the new table and what it drew.
  The entry points' contracts show their guards add nothing to the
  recorder's own. Lemmas show regions are independent: each recorder
  ends as if it had received only its own calls.

The accessors `is_stroking` and `get_strokes` (draw.js:11-17) are modelled
by `Strokes.IsStroking` and `Strokes.GetStrokes`. They have no contract of
their own. The lemmas in the table state their results after any call
sequence.

Points are pairs of `int`. The page takes them from mouse offsets or touch
coordinates and does no arithmetic on them.

## Model

| member | source | states |
|---|---|---|
| Strokes.Init | draw.js:5-8 | a new recorder is idle, has no finished strokes and satisfies the recorder invariant |
| Strokes.Begin | draw.js:19-22 | begin sets the stroking flag, makes the stroke in progress exactly the one given point, leaves the finished list unchanged, and keeps the invariant |
| Strokes.Update | draw.js:24-28 | while stroking, update appends the point as the new last point of the stroke in progress and changes nothing else; while idle it changes nothing |
| Strokes.End | draw.js:30-35 | while stroking, end appends the stroke in progress as the new last finished stroke, keeps the earlier ones as a prefix and clears the flag; while idle it changes nothing |
| Strokes.RunPreservesValid | draw.js:19-35 | from a valid recorder, any sequence of begin/update/end calls keeps every finished stroke non-empty and a stroke in progress non-empty |
| Strokes.ReachableIsValid | draw.js:5-35 | every recorder reachable from a new one by any calls holds only non-empty finished strokes |
| Strokes.RunAppendOnly | draw.js:19-35 | the finished list only grows at its end: any call sequence leaves the earlier list as an unchanged prefix |
| Strokes.RunMoves | draw.js:24-28 | a run of updates appends its points in call order to the stroke in progress while stroking, and is a no-op while idle |
| Strokes.RecordsGesture | draw.js:15-35 | begin(p0), update(p1..pk), end grows the list returned by get_strokes by exactly one stroke [p0,...,pk] of k+1 points, from any state, and leaves the recorder idle |
| Strokes.RecordsGestures | draw.js:15-35 | a sequence of complete gestures appends their strokes to the finished list in gesture order |
| Strokes.BeginDiscards | draw.js:19-22 | a stroke that is begun and extended, then overridden by a new begin, leaves no trace: the result equals beginning from the original state |
| Strokes.IdleIgnoresStrays | draw.js:24-35 | on an idle recorder, any run of updates and ends changes nothing |
| Strokes.StrokeCount | draw.js:11-35 | the number of strokes a call sequence finishes, and the final stroking flag, follow from the flag alone: one stroke per end that arrives while stroking |
| Drawing.SubPath | draw.js:43-46 | a stroke is drawn as a move to its first point followed by one line to each later point, in order |
| Drawing.DrawStrokes | draw.js:38-49 | draw_strokes_ begins a path, issues one command per point of every stroke and finishes by stroking the path |
| Drawing.DrawStrokesCounts | draw.js:38-49 | draw_strokes_ issues one move per stroke and, in total, (length - 1) lines per stroke |
| Drawing.DrawStrokesSubpaths | draw.js:38-49 | the trace of draw_strokes_ hands exactly the given strokes to the context's stroke call, in list order, each as the subpath through its points, after whatever was stroked before |
| Drawing.DrawStrokesInjective | draw.js:38-49 | two stroke lists with the same trace are equal: the drawing loses neither points nor order |
| Drawing.DrawExistingStrokes | draw.js:51-53 | draw_existing_strokes strokes exactly the recorder's finished strokes as subpaths |
| Drawing.DrawCurrentStroke | draw.js:55-57 | draw_current_stroke strokes exactly the stroke in progress as one subpath, alone |
| Regions.Install | draw.js:146-151 | installation gives each region id of the page one fresh idle recorder with no strokes, and no other ids |
| Regions.BeginStrokeOn | draw.js:62-73 | begin_stroke_on starts a one-point stroke on the region with no stroking guard, leaves other regions and the finished list alone, and its redraw strokes exactly the region's finished strokes as subpaths |
| Regions.UpdateStrokeOn | draw.js:75-85 | update_stroke_on on a stroking region appends the point and its redraw strokes exactly the extended stroke as one subpath; on an idle region it changes and draws nothing; other regions are untouched; its is_stroking guard adds nothing, the region moves exactly as the unguarded recorder update would move it |
| Regions.EndStrokeOn | draw.js:87-92 | end_stroke_on on a stroking region appends its stroke to its finished list and makes it idle; on an idle region it changes nothing; other regions are untouched; its is_stroking guard adds nothing, the region moves exactly as the unguarded recorder end would move it |
| Regions.Dispatch | draw.js:62-92 | a call to any entry point changes only its own region, by that region's recorder transition, and keeps every recorder valid |
| Regions.RunSession | draw.js:60-92 | any sequence of entry-point calls keeps the table's region ids and keeps every recorder valid |
| Regions.RegionsIndependent | draw.js:60-92 | after any calls, each region's recorder equals its recorder run on only the calls addressed to that region |
| Regions.GestureOnRegion | draw.js:62-92 | a complete gesture on one region adds its points as one new stroke there and leaves every other region unchanged |

## Left out

- Mouse and touch handlers (draw.js:94-130) are left out. They are browser
  event plumbing. This includes the touch handlers' one-finger check and
  the coordinate extraction, which depends on DOM layout offsets.
- Canvas styling and clearing are left out: `getContext`, `strokeStyle`,
  `lineWidth` and `clearRect` (draw.js:66-71, 80-82). They are foreign
  drawing calls with no checkable result. Traces hold only the path calls
  of `draw_strokes_`.
- Drawing.DrawStrokesSubpaths: the context model records subpaths, not
  pixels. It does not drop subpaths that a real context's stroke call
  leaves invisible. With the default butt line cap, which the page never
  changes, a one-point stroke (a tap) or a stroke whose points all
  coincide is recorded but draws nothing.
- Platform detection, the title header, listener registration and the
  window load hooks are left out (draw.js:132-166). They are UI wiring.
  Of `install_drawing_handlers`, only the creation of one recorder per
  region is modelled.
- Pointer coordinates are JavaScript numbers. Here they are `int`, since
  no arithmetic is done on them.
- `get_strokes` returns a shallow copy of the list. The inner point arrays
  stay shared with the recorder, so a caller could mutate a finished stroke
  through it. Values here are immutable, so that aliasing is not modelled.
- Regions.BeginStrokeOn: requires the region id to be in the table. A
  missing id makes the page read an undefined recorder and throw. Handlers
  are only installed on regions that got a recorder (draw.js:151). It
  also requires every finished stroke of the region to hold at least one
  point, which the redraw needs (see Drawing.DrawStrokes below).
- Regions.UpdateStrokeOn: requires the region id to be in the table, for
  the same reason.
- Regions.EndStrokeOn: requires the region id to be in the table, for the
  same reason.
- Drawing.DrawStrokes: a stroke with no points makes the page read a
  missing first point and throw. The model requires every stroke to be
  non-empty instead. Strokes.ReachableIsValid shows every reachable
  recorder meets this.
- `draw.js` has no operation that clears a region's strokes, so none is
  modelled.
- `begin_stroke_on` has no stroking guard. A pen down while stroking
  restarts the stroke and drops the old one (Strokes.BeginDiscards).
