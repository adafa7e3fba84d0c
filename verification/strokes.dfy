/**
  The per-region stroke recorder of the drawing page (`StrokeManager`).

  A manager is a two-state machine, idle or stroking. While stroking it
  buffers the points of the stroke in progress; ending the stroke appends
  that buffer to an ordered list of finished strokes. Moves and ends that
  arrive while idle are ignored. Everything here is a pure function on an
  immutable manager value.
 */
module Strokes {

  /** A pointer position in the region's own pixel space. */
  datatype Point = Point(x: int, y: int)

  /** One continuous pen gesture, in the order its points were recorded. */
  type Stroke = seq<Point>

  /** The state of one region's recorder: the finished strokes, the
      stroking flag and the buffer of the stroke in progress. The buffer
      keeps its last contents after the stroke ends, as the page does; it
      is only meaningful while `stroking` holds. */
  datatype StrokeManager = StrokeManager(strokes: seq<Stroke>, stroking: bool, current: Stroke)

  /** Every finished stroke has at least one point. */
  predicate AllNonEmpty(ss: seq<Stroke>) {
    forall i :: 0 <= i < |ss| ==> |ss[i]| >= 1
  }

  /** The invariant of every reachable manager: no finished stroke is
      empty, and a stroke in progress holds at least its starting point. */
  predicate Valid(m: StrokeManager) {
    AllNonEmpty(m.strokes) && (m.stroking ==> |m.current| >= 1)
  }

  /** `a` is an initial segment of `b`. */
  predicate IsPrefix<T(==)>(a: seq<T>, b: seq<T>) {
    |a| <= |b| && b[..|a|] == a
  }

  /** A freshly constructed manager: idle, with no strokes. */
  function Init(): (m: StrokeManager)
    ensures Valid(m)
    ensures !IsStroking(m) && GetStrokes(m) == []
  {
    StrokeManager([], false, [])
  }

  /** Whether a stroke is in progress. */
  predicate IsStroking(m: StrokeManager) {
    m.stroking
  }

  /** The finished strokes, oldest first. The page hands out a copy of its
      list; values are immutable here, so the list itself is returned. */
  function GetStrokes(m: StrokeManager): seq<Stroke> {
    m.strokes
  }

  /** Pen down at `p`: start a new stroke holding just `p`. Whatever was
      in progress is dropped without being finished. */
  function Begin(m: StrokeManager, p: Point): (r: StrokeManager)
    ensures IsStroking(r)
    ensures r.current == [p]
    ensures GetStrokes(r) == GetStrokes(m)
    ensures AllNonEmpty(m.strokes) ==> Valid(r)
  {
    StrokeManager(m.strokes, true, [p])
  }

  /** Pen move to `p`: extend the stroke in progress; ignored while idle. */
  function Update(m: StrokeManager, p: Point): (r: StrokeManager)
    ensures GetStrokes(r) == GetStrokes(m) && IsStroking(r) == IsStroking(m)
    ensures IsStroking(m) ==>
              |r.current| == |m.current| + 1 && IsPrefix(m.current, r.current) && r.current[|m.current|] == p
    ensures !IsStroking(m) ==> r == m
    ensures Valid(m) ==> Valid(r)
  {
    if m.stroking then m.(current := m.current + [p]) else m
  }

  /** Pen up: finish the stroke in progress by appending it to the list;
      ignored while idle. */
  function End(m: StrokeManager): (r: StrokeManager)
    ensures !IsStroking(r)
    ensures IsStroking(m) ==>
              |r.strokes| == |m.strokes| + 1 && IsPrefix(m.strokes, r.strokes) && r.strokes[|m.strokes|] == m.current
    ensures !IsStroking(m) ==> r == m
    ensures Valid(m) ==> Valid(r)
  {
    if m.stroking then m.(strokes := m.strokes + [m.current], stroking := false) else m
  }

  /** The three calls a region receives, in the order they arrive. */
  datatype Event = Down(p: Point) | Move(p: Point) | Up

  function Step(m: StrokeManager, e: Event): StrokeManager {
    match e
    case Down(p) => Begin(m, p)
    case Move(p) => Update(m, p)
    case Up => End(m)
  }

  /** The manager after the events `evs`, applied first to last. */
  function Run(m: StrokeManager, evs: seq<Event>): StrokeManager
    decreases |evs|
  {
    if evs == [] then m else Run(Step(m, evs[0]), evs[1..])
  }

  /** One pen move per point, in order. */
  function Moves(ps: seq<Point>): (r: seq<Event>)
    ensures |r| == |ps|
    ensures forall j :: 0 <= j < |ps| ==> r[j] == Move(ps[j])
  {
    if ps == [] then [] else [Move(ps[0])] + Moves(ps[1..])
  }

  /** A complete gesture as the pointer delivers it: down, moves, up. */
  datatype Gesture = Gesture(start: Point, moves: seq<Point>)

  function GestureEvents(g: Gesture): seq<Event> {
    [Down(g.start)] + Moves(g.moves) + [Up]
  }

  /** The stroke a gesture ought to leave behind: its points in call order. */
  function GesturePoints(g: Gesture): Stroke {
    [g.start] + g.moves
  }

  function AllGestureEvents(gs: seq<Gesture>): seq<Event> {
    if gs == [] then [] else GestureEvents(gs[0]) + AllGestureEvents(gs[1..])
  }

  function AllGesturePoints(gs: seq<Gesture>): seq<Stroke> {
    if gs == [] then [] else [GesturePoints(gs[0])] + AllGesturePoints(gs[1..])
  }

  /** Running two event sequences one after the other is running their
      concatenation. */
  lemma {:induction false} RunAppend(m: StrokeManager, a: seq<Event>, b: seq<Event>)
    ensures Run(m, a + b) == Run(Run(m, a), b)
    decreases |a|
  {
    if a == [] {
      assert a + b == b;
    } else {
      assert (a + b)[1..] == a[1..] + b;
      RunAppend(Step(m, a[0]), a[1..], b);
    }
  }

  /** Every event preserves the invariant, so every reachable manager is
      valid: a zero-point stroke is never stored. */
  lemma {:induction false} RunPreservesValid(m: StrokeManager, evs: seq<Event>)
    requires Valid(m)
    ensures Valid(Run(m, evs))
    decreases |evs|
  {
    if evs != [] {
      var m' := Step(m, evs[0]);
      assert Valid(m');
      RunPreservesValid(m', evs[1..]);
    }
  }

  lemma ReachableIsValid(evs: seq<Event>)
    ensures Valid(Run(Init(), evs))
    // the form the drawing of finished strokes asks of its input
    ensures AllNonEmpty(GetStrokes(Run(Init(), evs)))
  {
    RunPreservesValid(Init(), evs);
  }

  /** The finished list only grows, at its end: strokes already finished
      are never changed or removed by any later call. */
  lemma {:induction false} RunAppendOnly(m: StrokeManager, evs: seq<Event>)
    ensures IsPrefix(GetStrokes(m), GetStrokes(Run(m, evs)))
    decreases |evs|
  {
    if evs != [] {
      var m' := Step(m, evs[0]);
      assert IsPrefix(m.strokes, m'.strokes);
      RunAppendOnly(m', evs[1..]);
      var r := Run(m', evs[1..]);
      assert r.strokes[..|m'.strokes|] == m'.strokes;
      assert r.strokes[..|m.strokes|] == r.strokes[..|m'.strokes|][..|m.strokes|];
    }
  }

  /** While stroking, moves append their points to the stroke in progress,
      in order; while idle they change nothing. */
  lemma {:induction false} RunMoves(m: StrokeManager, ps: seq<Point>)
    ensures IsStroking(m) ==> Run(m, Moves(ps)) == m.(current := m.current + ps)
    ensures !IsStroking(m) ==> Run(m, Moves(ps)) == m
    decreases |ps|
  {
    if ps == [] {
      assert m.current + ps == m.current;
    } else {
      assert Moves(ps)[1..] == Moves(ps[1..]);
      RunMoves(Update(m, ps[0]), ps[1..]);
      assert m.current + [ps[0]] + ps[1..] == m.current + ps;
    }
  }

  /** Down at p0, moves to p1..pk, up: the finished list grows by exactly
      one stroke, [p0, ..., pk], from any starting state (a stroke that was
      in progress is dropped). */
  lemma RecordsGesture(m: StrokeManager, g: Gesture)
    ensures GetStrokes(Run(m, GestureEvents(g))) == GetStrokes(m) + [GesturePoints(g)]
    ensures |GesturePoints(g)| == 1 + |g.moves|
    ensures !IsStroking(Run(m, GestureEvents(g)))
  {
    var down := Begin(m, g.start);
    assert GestureEvents(g) == [Down(g.start)] + (Moves(g.moves) + [Up]);
    RunAppend(m, [Down(g.start)], Moves(g.moves) + [Up]);
    assert Run(m, [Down(g.start)]) == down;
    RunAppend(down, Moves(g.moves), [Up]);
    RunMoves(down, g.moves);
    var moved := down.(current := [g.start] + g.moves);
    assert Run(moved, [Up]) == End(moved);
  }

  /** A sequence of complete gestures records their strokes, in order. */
  lemma {:induction false} RecordsGestures(m: StrokeManager, gs: seq<Gesture>)
    ensures GetStrokes(Run(m, AllGestureEvents(gs))) == GetStrokes(m) + AllGesturePoints(gs)
    decreases |gs|
  {
    if gs == [] {
      assert GetStrokes(m) + [] == GetStrokes(m);
    } else {
      RunAppend(m, GestureEvents(gs[0]), AllGestureEvents(gs[1..]));
      RecordsGesture(m, gs[0]);
      RecordsGestures(Run(m, GestureEvents(gs[0])), gs[1..]);
      assert GetStrokes(m) + [GesturePoints(gs[0])] + AllGesturePoints(gs[1..])
          == GetStrokes(m) + AllGesturePoints(gs);
    }
  }

  /** A stroke that is begun, extended and then abandoned by a new pen
      down leaves no trace. */
  lemma BeginDiscards(m: StrokeManager, q: Point, ps: seq<Point>, p: Point)
    ensures Begin(Run(m, [Down(q)] + Moves(ps)), p) == Begin(m, p)
  {
    RunAppend(m, [Down(q)], Moves(ps));
    RunMoves(Begin(m, q), ps);
  }

  /** Only a pen down leaves the idle state. */
  predicate NoDown(evs: seq<Event>) {
    forall i :: 0 <= i < |evs| ==> !evs[i].Down?
  }

  /** Stray moves and ups on an idle recorder are no-ops. */
  lemma {:induction false} IdleIgnoresStrays(m: StrokeManager, evs: seq<Event>)
    requires !IsStroking(m) && NoDown(evs)
    ensures Run(m, evs) == m
    decreases |evs|
  {
    if evs != [] {
      assert !evs[0].Down?;
      IdleIgnoresStrays(m, evs[1..]);
    }
  }

  /** The flag-only abstraction of the recorder: where the flag ends up. */
  function FlagAfter(stroking: bool, evs: seq<Event>): bool
    decreases |evs|
  {
    if evs == [] then stroking
    else FlagAfter(match evs[0] case Down(_) => true case Move(_) => stroking case Up => false, evs[1..])
  }

  /** The flag-only abstraction: how many ups arrive while stroking. */
  function ClosingUps(stroking: bool, evs: seq<Event>): nat
    decreases |evs|
  {
    if evs == [] then 0
    else
      match evs[0]
      case Down(_) => ClosingUps(true, evs[1..])
      case Move(_) => ClosingUps(stroking, evs[1..])
      case Up => (if stroking then 1 else 0) + ClosingUps(false, evs[1..])
  }

  /** The number of strokes a call sequence finishes, and whether a stroke
      is left open, depend only on the stroking flag, never on the points. */
  lemma {:induction false} StrokeCount(m: StrokeManager, evs: seq<Event>)
    ensures |GetStrokes(Run(m, evs))| == |GetStrokes(m)| + ClosingUps(IsStroking(m), evs)
    ensures IsStroking(Run(m, evs)) == FlagAfter(IsStroking(m), evs)
    decreases |evs|
  {
    if evs != [] {
      StrokeCount(Step(m, evs[0]), evs[1..]);
    }
  }
}
