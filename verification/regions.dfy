/**
  The page's table of recorders, one per drawing region keyed by the
  region's element id, and the three entry points the pointer handlers
  call on a region: begin, update and end a stroke. Besides moving the
  region's recorder, begin redraws the finished strokes and update
  redraws the stroke in progress; those redraws are returned as command
  traces (colours, line width and clearing are not modelled).
 */
module Regions {
  import opened Strokes
  import opened Drawing

  /** The element id of a drawing region. */
  type RegionId = string

  /** The table of recorders, keyed by region id. */
  type Session = map<RegionId, StrokeManager>

  /** Every recorder of the table satisfies the recorder invariant. */
  predicate SessionValid(s: Session) {
    forall id :: id in s ==> Valid(s[id])
  }

  /** The table after an entry point, and what that entry point drew. */
  datatype Reaction = Reaction(session: Session, trace: seq<Command>)

  /** Handler installation: one fresh recorder per region id. */
  function Install(ids: seq<RegionId>): (s: Session)
    ensures forall id :: id in s <==> id in ids
    ensures forall id :: id in s ==> s[id] == Init()
    ensures SessionValid(s)
  {
    if ids == [] then map[] else Install(ids[..|ids| - 1])[ids[|ids| - 1] := Init()]
  }

  /** `begin_stroke_on`: start a stroke on region `id` whether or not one
      is in progress there, then redraw that region's finished strokes. */
  function BeginStrokeOn(s: Session, id: RegionId, p: Point): (r: Reaction)
    requires id in s && AllNonEmpty(s[id].strokes)
    ensures r.session.Keys == s.Keys
    ensures forall o :: o in s && o != id ==> r.session[o] == s[o]
    ensures IsStroking(r.session[id]) && r.session[id].current == [p]
    ensures GetStrokes(r.session[id]) == GetStrokes(s[id])
    ensures Subpaths(r.trace) == GetStrokes(s[id])
  {
    var m := Begin(s[id], p);
    Reaction(s[id := m], DrawExistingStrokes(m))
  }

  /** `update_stroke_on`: while region `id` is stroking, extend its stroke
      and redraw the stroke in progress; otherwise change and draw
      nothing. */
  function UpdateStrokeOn(s: Session, id: RegionId, p: Point): (r: Reaction)
    requires id in s
    ensures r.session.Keys == s.Keys
    ensures forall o :: o in s && o != id ==> r.session[o] == s[o]
    ensures r.session == s[id := Update(s[id], p)]
    ensures !IsStroking(s[id]) ==> r == Reaction(s, [])
    ensures IsStroking(s[id]) ==>
              && IsStroking(r.session[id])
              && GetStrokes(r.session[id]) == GetStrokes(s[id])
              && r.session[id].current == s[id].current + [p]
              && Subpaths(r.trace) == [s[id].current + [p]]
  {
    var m := s[id];
    if IsStroking(m) then
      var m' := Update(m, p);
      Reaction(s[id := m'], DrawCurrentStroke(m'))
    else
      Reaction(s, [])
  }

  /** `end_stroke_on`: while region `id` is stroking, finish its stroke;
      otherwise do nothing. Nothing is drawn. */
  function EndStrokeOn(s: Session, id: RegionId): (r: Session)
    requires id in s
    ensures r.Keys == s.Keys
    ensures forall o :: o in s && o != id ==> r[o] == s[o]
    ensures r == s[id := End(s[id])]
    ensures !IsStroking(s[id]) ==> r == s
    ensures IsStroking(s[id]) ==>
              && !IsStroking(r[id])
              && GetStrokes(r[id]) == GetStrokes(s[id]) + [s[id].current]
  {
    var m := s[id];
    if IsStroking(m) then s[id := End(m)] else s
  }

  /** A pointer call addressed to one region. */
  datatype RegionEvent = RegionEvent(id: RegionId, e: Event)

  /** Route one call to its entry point. */
  function Dispatch(s: Session, re: RegionEvent): (r: Reaction)
    requires re.id in s && SessionValid(s)
    ensures r.session == s[re.id := Step(s[re.id], re.e)]
    ensures SessionValid(r.session)
  {
    match re.e
    case Down(p) => BeginStrokeOn(s, re.id, p)
    case Move(p) => UpdateStrokeOn(s, re.id, p)
    case Up => Reaction(EndStrokeOn(s, re.id), [])
  }

  /** Every call is addressed to a region of the table. */
  predicate Targeted(s: Session, evs: seq<RegionEvent>) {
    forall i :: 0 <= i < |evs| ==> evs[i].id in s
  }

  /** The table after the calls `evs`, first to last. */
  function RunSession(s: Session, evs: seq<RegionEvent>): (r: Session)
    requires SessionValid(s) && Targeted(s, evs)
    ensures r.Keys == s.Keys
    ensures SessionValid(r)
    decreases |evs|
  {
    if evs == [] then s
    else
      var s' := Dispatch(s, evs[0]).session;
      assert Targeted(s', evs[1..]) by {
        forall i | 0 <= i < |evs| - 1 ensures evs[1..][i].id in s' {
          assert evs[1..][i] == evs[i + 1];
        }
      }
      RunSession(s', evs[1..])
  }

  /** The calls addressed to region `id`, in order. */
  function EventsFor(evs: seq<RegionEvent>, id: RegionId): seq<Event> {
    if evs == [] then []
    else (if evs[0].id == id then [evs[0].e] else []) + EventsFor(evs[1..], id)
  }

  /** Regions are independent: each region's recorder ends up exactly as
      if it had received only the calls addressed to it. */
  lemma {:induction false} RegionsIndependent(s: Session, evs: seq<RegionEvent>, id: RegionId)
    requires SessionValid(s) && Targeted(s, evs) && id in s
    ensures RunSession(s, evs)[id] == Run(s[id], EventsFor(evs, id))
    decreases |evs|
  {
    if evs != [] {
      var s' := Dispatch(s, evs[0]).session;
      assert Targeted(s', evs[1..]) by {
        forall i | 0 <= i < |evs| - 1 ensures evs[1..][i].id in s' {
          assert evs[1..][i] == evs[i + 1];
        }
      }
      RegionsIndependent(s', evs[1..], id);
      if evs[0].id == id {
        assert EventsFor(evs, id) == [evs[0].e] + EventsFor(evs[1..], id);
        assert ([evs[0].e] + EventsFor(evs[1..], id))[1..] == EventsFor(evs[1..], id);
      } else {
        assert EventsFor(evs, id) == EventsFor(evs[1..], id);
      }
    }
  }

  /** Every call addressed to region `id`. */
  function Tag(id: RegionId, es: seq<Event>): (r: seq<RegionEvent>)
    ensures |r| == |es|
    ensures forall i :: 0 <= i < |es| ==> r[i] == RegionEvent(id, es[i])
  {
    if es == [] then [] else [RegionEvent(id, es[0])] + Tag(id, es[1..])
  }

  lemma {:induction false} EventsForTag(id: RegionId, o: RegionId, es: seq<Event>)
    ensures EventsFor(Tag(id, es), o) == (if o == id then es else [])
    decreases |es|
  {
    if es != [] {
      assert Tag(id, es)[1..] == Tag(id, es[1..]);
      EventsForTag(id, o, es[1..]);
    }
  }

  /** The table after a complete gesture on region `id`. */
  function RunGestureOn(s: Session, id: RegionId, g: Gesture): Session
    requires SessionValid(s) && id in s
  {
    var evs := Tag(id, GestureEvents(g));
    assert Targeted(s, evs);
    RunSession(s, evs)
  }

  /** A complete gesture on region `id` adds its points as one new stroke
      there, and leaves every other region as it was. */
  lemma GestureOnRegion(s: Session, id: RegionId, g: Gesture)
    requires SessionValid(s) && id in s
    ensures GetStrokes(RunGestureOn(s, id, g)[id]) == GetStrokes(s[id]) + [GesturePoints(g)]
    ensures forall o :: o in s && o != id ==> RunGestureOn(s, id, g)[o] == s[o]
  {
    var evs := Tag(id, GestureEvents(g));
    RegionsIndependent(s, evs, id);
    EventsForTag(id, id, GestureEvents(g));
    RecordsGesture(s[id], g);
    forall o | o in s && o != id ensures RunGestureOn(s, id, g)[o] == s[o] {
      RegionsIndependent(s, evs, o);
      EventsForTag(id, o, GestureEvents(g));
    }
  }
}
