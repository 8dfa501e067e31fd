/**
 * The calendar view: its events, the selected event and its details panel, the
 * gesture in progress and the `isDraggingOrResizing` flag, and the handlers that
 * the page's pointer and form events run.
 */
module Schedule {
  import opened Wrappers
  import Clock
  import Duration
  import opened Geometry
  import opened Packer

  /** Horizontal slot given by the packer: column `column` of `columns` equal columns. */
  datatype Layout = Unplaced | Placed(column: nat, columns: nat)

  /**
   * One event box: its name, its geometry (`style.top`, `style.height`), its start and
   * end text (`dataset.start`, `dataset.end`) and its horizontal slot.
   */
  datatype Event = Event(name: string, top: int, height: int, start: string, end: string, layout: Layout)

  /** The fields of the details panel. */
  datatype Panel = Panel(name: string, start: string, end: string, duration: string)

  /** The pointer gesture in progress and what was read when it began. */
  datatype Gesture =
    | Idle
    | Dragging(target: nat, startY: int, originalTop: int)
    | Resizing(target: nat, fromTop: bool, startY: int, originalTop: int, originalHeight: int)

  function BoxOf(e: Event): Box {
    Box(e.top, e.height)
  }

  function SpanOf(e: Event): Span {
    Span(e.top, e.top + e.height)
  }

  function Spans(evs: seq<Event>): (r: seq<Span>)
    ensures |r| == |evs|
    ensures forall i :: 0 <= i < |evs| ==> r[i] == SpanOf(evs[i])
  {
    seq(|evs|, i requires 0 <= i < |evs| => SpanOf(evs[i]))
  }

  /** Two events in one column of the packer's output do not overlap. */
  lemma SameLaneApart(spans: seq<Span>, x: nat, y: nat)
    requires x < |spans| && y < |spans| && x != y
    requires Lane(Columns(spans), x) == Lane(Columns(spans), y)
    ensures Apart(spans[x], spans[y])
  {
    ColumnsPacked(spans);
    LaneMatesApart(spans, Columns(spans), x, y);
  }

  /** Every event keeps its name, box and times and takes its lane in `cols` as its column. */
  function Laid(evs: seq<Event>, cols: seq<seq<nat>>): (r: seq<Event>)
    ensures |r| == |evs|
    ensures forall i :: 0 <= i < |evs| ==> r[i] == evs[i].(layout := Placed(Lane(cols, i), |cols|))
  {
    seq(|evs|, i requires 0 <= i < |evs| => evs[i].(layout := Placed(Lane(cols, i), |cols|)))
  }

  /**
   * The events after `rearrangeOverlappingEvents`: only the slots change; every event
   * gets a column below the column count, which is the same for all, at least one and
   * at most the number of events; two events sharing a column do not overlap.
   */
  function Arranged(evs: seq<Event>): (r: seq<Event>)
    ensures |r| == |evs|
    ensures forall i :: 0 <= i < |evs| ==> r[i] == evs[i].(layout := r[i].layout)
    ensures forall i :: 0 <= i < |evs| ==>
      r[i].layout.Placed? && r[i].layout.column < r[i].layout.columns <= |evs|
    ensures forall i, j :: 0 <= i < |evs| && 0 <= j < |evs| ==> r[i].layout.columns == r[j].layout.columns
    ensures forall i, j :: 0 <= i < |evs| && 0 <= j < |evs| && i != j && r[i].layout.column == r[j].layout.column ==>
      Apart(SpanOf(evs[i]), SpanOf(evs[j]))
  {
    var spans := Spans(evs);
    var cols := Columns(spans);
    ColumnsPacked(spans);
    forall i, j | 0 <= i < |evs| && 0 <= j < |evs| && i != j && Lane(cols, i) == Lane(cols, j)
      ensures Apart(SpanOf(evs[i]), SpanOf(evs[j]))
    {
      SameLaneApart(spans, i, j);
    }
    Laid(evs, cols)
  }

  /**
   * Laying out again without moving anything changes nothing, so the packer running
   * once per release listener leaves the same slots as running once.
   */
  lemma ArrangedIdempotent(evs: seq<Event>)
    ensures Arranged(Arranged(evs)) == Arranged(evs)
  {
    var a := Arranged(evs);
    var cols := Columns(Spans(evs));
    SameBoxes(evs, a);
    assert Arranged(a) == Laid(a, cols);
    assert a == Laid(evs, cols);
  }

  /** Events that differ only in their slots have the same spans and are laid out alike. */
  lemma SameBoxes(evs: seq<Event>, a: seq<Event>)
    requires |a| == |evs| && forall i :: 0 <= i < |evs| ==> a[i] == evs[i].(layout := a[i].layout)
    ensures Spans(a) == Spans(evs)
    ensures forall cols :: Laid(a, cols) == Laid(evs, cols)
  {
    assert Spans(a) == Spans(evs);
    forall cols ensures Laid(a, cols) == Laid(evs, cols) {
      assert forall i :: 0 <= i < |evs| ==> Laid(a, cols)[i] == Laid(evs, cols)[i];
    }
  }

  /** The events after a relayout request: nothing happens while a gesture is in progress. */
  function Relaid(busy: bool, evs: seq<Event>): seq<Event> {
    if busy then evs else Arranged(evs)
  }

  /**
   * `updateEventTimes`: the event takes the box `b` and its start and end text are
   * written from the new top and bottom, with the minute taken modulo 60 (floored).
   */
  function Synced(e: Event, b: Box): Event {
    e.(top := b.top, height := b.height,
       start := Clock.Format(Clock.TimeOfTop(b.top)),
       end := Clock.Format(Clock.TimeOfTop(b.Bottom())))
  }

  /** `updateEventTimes` as written: the minute is JavaScript's `top % 60`. */
  function SyncedAsWritten(e: Event, b: Box): Event {
    e.(top := b.top, height := b.height,
       start := Clock.Format(Clock.TimeOfTopAsWritten(b.top)),
       end := Clock.Format(Clock.TimeOfTopAsWritten(b.Bottom())))
  }

  /** On the grid the text as written and the corrected text are the same. */
  lemma SyncedOnGrid(e: Event, b: Box)
    requires b.top >= 0 && b.height >= 0
    ensures SyncedAsWritten(e, b) == Synced(e, b)
  {
    Clock.AsWrittenOnGrid(b.top);
    Clock.AsWrittenOnGrid(b.Bottom());
  }

  /**
   * Above the grid, off a whole hour, the start text as written reads back an hour too
   * early, so applying the panel moves the event up by 60 pixels.
   */
  lemma SyncedAsWrittenAboveGrid(e: Event, b: Box)
    requires b.top < 0 && b.top % 60 != 0
    ensures Edited(SyncedAsWritten(e, b), Details(SyncedAsWritten(e, b))).top == b.top - 60
  {
    Clock.ParseFormat(Clock.TimeOfTopAsWritten(b.top));
    Clock.AsWrittenShift(b.top);
  }

  /** The duration field: the minutes from start to end, or "NaNh NaNm" when either does not read. */
  function DurationText(start: string, end: string): string {
    match Elapsed(start, end)
    case Some(d) => Duration.Format(d)
    case None => "NaNh NaNm"
  }

  /** Minutes from the start text to the end text, when both read as times. */
  function Elapsed(start: string, end: string): Option<int> {
    match (Clock.Parse(start), Clock.Parse(end))
    case (Some(s), Some(t)) => Some(Clock.TopOf(t) - Clock.TopOf(s))
    case _ => None
  }

  /** `updateEventDetails`: the panel shows the event's name, start, end and duration. */
  function Details(e: Event): Panel {
    Panel(e.name, e.start, e.end, DurationText(e.start, e.end))
  }

  /** The duration the panel shows for a synchronised event reads back as its height. */
  lemma DetailsDuration(e: Event, b: Box)
    requires b.height >= 0
    ensures Duration.Parse(Details(Synced(e, b)).duration) == Some(b.height)
  {
    SyncedReads(e, b);
    var t0, t1 := Clock.TimeOfTop(b.top), Clock.TimeOfTop(b.Bottom());
    ElapsedOfTimes(Synced(e, b).start, Synced(e, b).end, t0, t1);
    DurationTextReads(Synced(e, b).start, Synced(e, b).end, b.height);
  }

  /** After `updateEventTimes` the start and end text read as the times of the new top and bottom. */
  lemma SyncedReads(e: Event, b: Box)
    ensures Clock.Parse(Synced(e, b).start) == Some(Clock.TimeOfTop(b.top))
    ensures Clock.Parse(Synced(e, b).end) == Some(Clock.TimeOfTop(b.Bottom()))
  {
    SyncedStartReads(e, b);
    SyncedEndReads(e, b);
  }

  /** The start text written by `updateEventTimes` reads as the time of the top. */
  lemma SyncedStartReads(e: Event, b: Box)
    ensures Clock.Parse(Synced(e, b).start) == Some(Clock.TimeOfTop(b.top))
  {
    Clock.ParseFormat(Clock.TimeOfTop(b.top));
  }

  /** The end text written by `updateEventTimes` reads as the time of the bottom. */
  lemma SyncedEndReads(e: Event, b: Box)
    ensures Clock.Parse(Synced(e, b).end) == Some(Clock.TimeOfTop(b.Bottom()))
  {
    Clock.ParseFormat(Clock.TimeOfTop(b.Bottom()));
  }

  /** When both texts read as times, the elapsed minutes are the distance between them. */
  lemma ElapsedOfTimes(start: string, end: string, t0: Clock.Time, t1: Clock.Time)
    requires Clock.Parse(start) == Some(t0) && Clock.Parse(end) == Some(t1)
    ensures Elapsed(start, end) == Some(Clock.TopOf(t1) - Clock.TopOf(t0))
  {
  }

  /** The duration written for `d` elapsed minutes reads back as `d`. */
  lemma DurationTextReads(start: string, end: string, d: nat)
    requires Elapsed(start, end) == Some(d)
    ensures Duration.Parse(DurationText(start, end)) == Some(d)
  {
    Duration.ParseFormat(d);
  }

  /**
   * `updateEventFromDetails` on event `e` with panel `p`: the name and the start and end
   * text are stored; the top follows the start text and the height the distance from
   * start to end, each only when it reads as a number the browser accepts (a NaN
   * position or a negative height is ignored and the old value stays).
   */
  function Edited(e: Event, p: Panel): (r: Event)
    ensures r.name == p.name && r.start == p.start && r.end == p.end && r.layout == e.layout
    ensures e.height >= 0 ==> r.height >= 0
    ensures Clock.Parse(p.start).None? ==> r.top == e.top && r.height == e.height
    ensures Clock.Parse(p.start).Some? ==> r.top == Clock.TopOf(Clock.Parse(p.start).value)
    ensures Clock.Parse(p.start).Some? && Clock.Parse(p.end).Some? &&
            Clock.TopOf(Clock.Parse(p.end).value) >= Clock.TopOf(Clock.Parse(p.start).value) ==>
              r.top + r.height == Clock.TopOf(Clock.Parse(p.end).value)
    ensures !(Clock.Parse(p.start).Some? && Clock.Parse(p.end).Some? &&
              Clock.TopOf(Clock.Parse(p.end).value) >= Clock.TopOf(Clock.Parse(p.start).value)) ==>
              r.height == e.height
  {
    var start := Clock.Parse(p.start);
    var end := Clock.Parse(p.end);
    var top := if start.Some? then Clock.TopOf(start.value) else e.top;
    var height :=
      if start.Some? && end.Some? && Clock.TopOf(end.value) - Clock.TopOf(start.value) >= 0
      then Clock.TopOf(end.value) - Clock.TopOf(start.value)
      else e.height;
    e.(name := p.name, start := p.start, end := p.end, top := top, height := height)
  }

  /**
   * Picking a duration of `d` minutes (a preset, or a typed duration once read) makes
   * the event exactly `d` minutes long from the start in the panel.
   */
  lemma DurationSetsLength(e: Event, p: Panel, d: nat)
    requires Clock.Parse(p.start).Some? && Clock.Parse(p.start).value.minute >= 0
    ensures Edited(e, p.(end := Clock.EndText(p.start, d))).top == Clock.TopOf(Clock.Parse(p.start).value)
    ensures Edited(e, p.(end := Clock.EndText(p.start, d))).height == d
  {
    Clock.EndTextSpan(p.start, d);
  }

  /**
   * Applying the panel of a synchronised event to it changes nothing: the texts it
   * shows read back as the event's own box.
   */
  lemma EditedSynced(e: Event, b: Box)
    requires b.height >= 0
    ensures Edited(Synced(e, b), Details(Synced(e, b))) == Synced(e, b)
  {
    SyncedReads(e, b);
  }

  /** `addEvent(name, start, end)`: a box from the start to the end time, not yet laid out. */
  function Created(name: string, start: string, end: string): (r: Event)
    requires Clock.Parse(start).Some? && Clock.Parse(end).Some?
    ensures r.top == Clock.TopOf(Clock.Parse(start).value)
    ensures r.top + r.height == Clock.TopOf(Clock.Parse(end).value)
    ensures r.name == name && r.start == start && r.end == end && r.layout.Unplaced?
  {
    var s := Clock.Parse(start).value;
    var t := Clock.Parse(end).value;
    Event(name, Clock.TopOf(s), (t.hour - s.hour) * 60 + (t.minute - s.minute), start, end, Unplaced)
  }

  /**
   * A double-click `y` pixels below the top of the grid creates a one-hour event that
   * starts at the last quarter hour at or before `y`.
   */
  lemma DoubleClickEvent(y: int)
    requires y >= 0
    ensures Clock.Parse(Clock.Format(Clock.SnapStart(y))).Some?
    ensures Clock.Parse(Clock.Format(Clock.SnapEnd(y))).Some?
    ensures
      var e := Created("New Event", Clock.Format(Clock.SnapStart(y)), Clock.Format(Clock.SnapEnd(y)));
      e.top == y - y % 15 && e.height == 60
  {
    Clock.ParseFormat(Clock.SnapStart(y));
    Clock.ParseFormat(Clock.SnapEnd(y));
    Clock.SnapQuarterHour(y);
  }

  /** The box a pointer at `y` gives the gesture's target, whose box is `current`. */
  function Stepped(g: Gesture, current: Box, y: int): (r: Box)
    requires !g.Idle?
    ensures current.height >= 0 ==> r.height >= 0
  {
    match g
    case Dragging(_, startY, originalTop) => Dragged(current, originalTop, y - startY)
    case Resizing(_, fromTop, startY, originalTop, originalHeight) =>
      if fromTop then ResizedTop(Box(originalTop, originalHeight), y - startY)
      else ResizedBottom(current, originalHeight, y - startY)
  }

  /** One column of the layout pass: every event of `column` gets column `k` of `n`. */
  method PlaceColumn(evs: seq<Event>, column: seq<nat>, k: nat, n: nat) returns (r: seq<Event>)
    requires forall j :: 0 <= j < |column| ==> column[j] < |evs|
    ensures |r| == |evs|
    ensures forall x :: 0 <= x < |evs| ==> r[x] == if x in column then evs[x].(layout := Placed(k, n)) else evs[x]
  {
    r := evs;
    var j := 0;
    while j < |column|
      invariant j <= |column| && |r| == |evs|
      invariant forall x :: 0 <= x < |evs| ==> r[x] == if x in column[..j] then evs[x].(layout := Placed(k, n)) else evs[x]
    {
      r := r[column[j] := r[column[j]].(layout := Placed(k, n))];
      assert column[..j + 1] == column[..j] + [column[j]];
      j := j + 1;
    }
    assert column[..j] == column;
  }

  /** The events of the first `k` columns have their slot of `n`; the others are untouched. */
  predicate LaidUpTo(events: seq<Event>, evs: seq<Event>, columns: seq<seq<nat>>, k: nat, n: nat) {
    |evs| == |events| &&
    forall x :: 0 <= x < |events| ==>
      evs[x] == events[x].(layout := if Lane(columns, x) < k then Placed(Lane(columns, x), n) else events[x].layout)
  }

  /** Every member of column `k` of the packer's output is an event whose lane is `k`. */
  lemma ColumnMembers(spans: seq<Span>, k: nat)
    requires k < |Columns(spans)|
    ensures forall j :: 0 <= j < |Columns(spans)[k]| ==>
      Columns(spans)[k][j] < |spans| && Lane(Columns(spans), Columns(spans)[k][j]) == k
  {
    ColumnsPacked(spans);
    forall j | 0 <= j < |Columns(spans)[k]|
      ensures Columns(spans)[k][j] < |spans| && Lane(Columns(spans), Columns(spans)[k][j]) == k
    {
      assert Columns(spans)[k][j] in Order(spans);
    }
  }

  /** Giving the members of column `k` their slot extends the laid-out prefix by one column. */
  lemma LaidStep(events: seq<Event>, evs: seq<Event>, next: seq<Event>, columns: seq<seq<nat>>, k: nat, n: nat)
    requires LaidUpTo(events, evs, columns, k, n) && k < |columns|
    requires forall j :: 0 <= j < |columns[k]| ==> Lane(columns, columns[k][j]) == k
    requires |next| == |evs|
    requires forall x :: 0 <= x < |evs| ==> next[x] == if x in columns[k] then evs[x].(layout := Placed(k, n)) else evs[x]
    ensures LaidUpTo(events, next, columns, k + 1, n)
  {
    forall x | 0 <= x < |events|
      ensures next[x] == events[x].(layout := if Lane(columns, x) < k + 1 then Placed(Lane(columns, x), n) else events[x].layout)
    {
      if x in columns[k] {
        var j :| 0 <= j < |columns[k]| && columns[k][j] == x;
      }
    }
  }

  /** Once every column is laid out, every event has its lane as its slot. */
  lemma LaidAll(events: seq<Event>, evs: seq<Event>, columns: seq<seq<nat>>)
    requires LaidUpTo(events, evs, columns, |columns|, |columns|)
    requires forall x :: 0 <= x < |events| ==> Lane(columns, x) < |columns|
    ensures evs == Laid(events, columns)
  {
  }

  /**
   * The body of `rearrangeOverlappingEvents`: pack the events into columns, then walk
   * the columns and give every event of column `k` the slot `k` of `n`.
   */
  method ArrangeEvents(events: seq<Event>) returns (evs: seq<Event>)
    ensures evs == Arranged(events)
  {
    var spans := Spans(events);
    var columns := PackColumns(spans);
    var n := |columns|;
    evs := events;
    var k := 0;
    while k < n
      invariant k <= n && LaidUpTo(events, evs, columns, k, n)
    {
      ColumnMembers(spans, k);
      var next := PlaceColumn(evs, columns[k], k, n);
      LaidStep(events, evs, next, columns, k, n);
      evs := next;
      k := k + 1;
    }
    ColumnsPacked(spans);
    LaidAll(events, evs, columns);
  }

  class Calendar {
    /** The event boxes in document order. */
    var events: seq<Event>
    /** `selectedEvent`, as an index into `events`. */
    var selected: Option<nat>
    /** `isDraggingOrResizing`. */
    var busy: bool
    var gesture: Gesture
    var panel: Panel

    ghost predicate Valid()
      reads this
    {
      && (selected.Some? ==> selected.value < |events|)
      && (!gesture.Idle? ==> gesture.target < |events|)
      && (busy <==> !gesture.Idle?)
      && (forall i :: 0 <= i < |events| ==> events[i].height >= 0)
    }

    constructor ()
      ensures Valid()
      ensures events == [] && selected == None && !busy && gesture == Idle
      ensures panel == Panel("", "", "", "")
    {
      events := [];
      selected := None;
      busy := false;
      gesture := Idle;
      panel := Panel("", "", "", "");
    }

    /**
     * `rearrangeOverlappingEvents`: unless a gesture is in progress, pack the events into
     * columns and give every event its column and the column count.
     */
    method Relayout()
      requires Valid()
      modifies this
      ensures Valid()
      ensures events == Relaid(busy, old(events))
      ensures selected == old(selected) && busy == old(busy) && gesture == old(gesture) && panel == old(panel)
    {
      if busy {
        return;
      }
      events := ArrangeEvents(events);
    }

    /** `addEvent`: a new box from the start to the end time, then a relayout. */
    method AddEvent(name: string, start: string, end: string)
      requires Valid()
      requires Clock.Parse(start).Some? && Clock.Parse(end).Some?
      requires Clock.TopOf(Clock.Parse(end).value) >= Clock.TopOf(Clock.Parse(start).value)
      modifies this
      ensures Valid()
      ensures events == Relaid(busy, old(events) + [Created(name, start, end)])
      ensures selected == old(selected) && busy == old(busy) && gesture == old(gesture) && panel == old(panel)
    {
      events := events + [Created(name, start, end)];
      Relayout();
    }

    /** `handleDoubleClick`: a one-hour "New Event" at the quarter hour at or before `y`. */
    method DoubleClick(y: int)
      requires Valid()
      modifies this
      ensures Valid()
      ensures Clock.Parse(Clock.Format(Clock.SnapStart(y))).Some?
      ensures Clock.Parse(Clock.Format(Clock.SnapEnd(y))).Some?
      ensures events == Relaid(busy, old(events) +
        [Created("New Event", Clock.Format(Clock.SnapStart(y)), Clock.Format(Clock.SnapEnd(y)))])
      ensures selected == old(selected) && busy == old(busy) && gesture == old(gesture) && panel == old(panel)
    {
      var start := Clock.SnapStart(y);
      var end := Clock.SnapEnd(y);
      Clock.ParseFormat(start);
      Clock.ParseFormat(end);
      AddEvent("New Event", Clock.Format(start), Clock.Format(end));
    }

    /** `startDragging`: a press on the body of event `i`. */
    method PressBody(i: nat, y: int)
      requires Valid() && i < |events|
      modifies this
      ensures events == old(events) && selected == old(selected) && panel == old(panel)
      ensures Valid() && busy
      ensures gesture == Dragging(i, y, events[i].top)
    {
      busy := true;
      gesture := Dragging(i, y, events[i].top);
    }

    /** `startResizingTop` / `startResizingBottom`: a press on the top or bottom handle of event `i`. */
    method PressHandle(i: nat, fromTop: bool, y: int)
      requires Valid() && i < |events|
      modifies this
      ensures events == old(events) && selected == old(selected) && panel == old(panel)
      ensures Valid() && busy
      ensures gesture == Resizing(i, fromTop, y, events[i].top, events[i].height)
    {
      busy := true;
      gesture := Resizing(i, fromTop, y, events[i].top, events[i].height);
    }

    /** `updateEventDetails`: event `i` becomes the selected one and the panel shows it. */
    method ShowDetails(i: nat)
      requires Valid() && i < |events|
      modifies this
      ensures Valid()
      ensures selected == Some(i) && panel == Details(events[i])
      ensures events == old(events) && busy == old(busy) && gesture == old(gesture)
    {
      selected := Some(i);
      panel := Details(events[i]);
    }

    /**
     * Event `i`'s style takes the box `b` and `updateEventTimes` runs on it: the times
     * follow the box and the panel is refreshed when the event is the selected one.
     */
    method Reshape(i: nat, b: Box)
      requires Valid() && i < |events| && b.height >= 0
      modifies this
      ensures Valid()
      ensures events == old(events)[i := Synced(old(events)[i], b)]
      ensures selected == old(selected) && busy == old(busy) && gesture == old(gesture)
      ensures selected == Some(i) ==> panel == Details(events[i])
      ensures selected != Some(i) ==> panel == old(panel)
    {
      events := events[i := Synced(events[i], b)];
      if selected == Some(i) {
        ShowDetails(i);
      }
    }

    /**
     * `drag` / `resize`: the pointer is at `y`. The target of the gesture in progress takes
     * its new box and its times follow; with no gesture nothing happens. No relayout.
     */
    method Move(y: int)
      requires Valid()
      modifies this
      ensures Valid()
      ensures selected == old(selected) && busy == old(busy) && gesture == old(gesture)
      ensures gesture.Idle? ==> events == old(events) && panel == old(panel)
      ensures !gesture.Idle? ==>
        events == old(events)[gesture.target :=
          Synced(old(events)[gesture.target], Stepped(gesture, BoxOf(old(events)[gesture.target]), y))]
      ensures !gesture.Idle? && selected == Some(gesture.target) ==> panel == Details(events[gesture.target])
      ensures !gesture.Idle? && selected != Some(gesture.target) ==> panel == old(panel)
    {
      if gesture.Idle? {
        return;
      }
      Reshape(gesture.target, Stepped(gesture, BoxOf(events[gesture.target]), y));
    }

    /** `stopDragging` / `stopResizing`: the button is released; the gesture ends and the events are laid out. */
    method Release()
      requires Valid()
      modifies this
      ensures Valid()
      ensures !busy && gesture == Idle
      ensures events == Arranged(old(events))
      ensures selected == old(selected) && panel == old(panel)
    {
      gesture := Idle;
      busy := false;
      Relayout();
    }

    /** A click on event `i`. */
    method Click(i: nat)
      requires Valid() && i < |events|
      modifies this
      ensures Valid()
      ensures selected == Some(i) && panel == Details(events[i])
      ensures events == old(events) && busy == old(busy) && gesture == old(gesture)
    {
      ShowDetails(i);
    }

    /** A click outside every event and the panel clears the selection. */
    method ClickOutside()
      requires Valid()
      modifies this
      ensures Valid()
      ensures selected == None
      ensures events == old(events) && busy == old(busy) && gesture == old(gesture) && panel == old(panel)
    {
      selected := None;
    }

    /** `updateEventFromDetails`: the selected event takes the panel's name and times. */
    method UpdateFromDetails()
      requires Valid()
      modifies this
      ensures Valid()
      ensures old(selected).None? ==> events == old(events)
      ensures old(selected).Some? ==>
        events == Relaid(busy, old(events)[old(selected).value := Edited(old(events)[old(selected).value], panel)])
      ensures selected == old(selected) && busy == old(busy) && gesture == old(gesture) && panel == old(panel)
    {
      if selected.None? {
        return;
      }
      var i := selected.value;
      events := events[i := Edited(events[i], panel)];
      Relayout();
    }

    /** The name, start and end fields are changed to the given text. */
    method ChangeDetails(name: string, start: string, end: string)
      requires Valid()
      modifies this
      ensures Valid()
      ensures panel == old(panel).(name := name, start := start, end := end)
      ensures old(selected).None? ==> events == old(events)
      ensures old(selected).Some? ==>
        events == Relaid(busy, old(events)[old(selected).value := Edited(old(events)[old(selected).value], panel)])
      ensures selected == old(selected) && busy == old(busy) && gesture == old(gesture)
    {
      panel := panel.(name := name, start := start, end := end);
      UpdateFromDetails();
    }

    /** `updateEventFromPresetDuration`: a preset of `d` minutes is picked. */
    method PickPreset(d: int)
      requires Valid()
      modifies this
      ensures Valid()
      ensures old(selected).None? ==> events == old(events) && panel == old(panel)
      ensures old(selected).Some? ==>
        && panel == old(panel).(end := Clock.EndText(old(panel).start, d))
        && events == Relaid(busy, old(events)[old(selected).value := Edited(old(events)[old(selected).value], panel)])
      ensures selected == old(selected) && busy == old(busy) && gesture == old(gesture)
    {
      if selected.None? {
        return;
      }
      panel := panel.(end := Clock.EndText(panel.start, d));
      UpdateFromDetails();
    }

    /**
     * `updateEventFromCustomDuration`: the duration field is changed to `text`. Text the
     * duration pattern does not match throws before anything else changes.
     */
    method EnterDuration(text: string)
      requires Valid()
      modifies this
      ensures Valid()
      ensures old(selected).None? || Duration.Parse(text).None? ==>
        events == old(events) && panel == old(panel).(duration := text)
      ensures old(selected).Some? && Duration.Parse(text).Some? ==>
        && panel == old(panel).(duration := text, end := Clock.EndText(old(panel).start, Duration.Parse(text).value))
        && events == Relaid(busy, old(events)[old(selected).value := Edited(old(events)[old(selected).value], panel)])
      ensures selected == old(selected) && busy == old(busy) && gesture == old(gesture)
    {
      panel := panel.(duration := text);
      if selected.None? {
        return;
      }
      var d := Duration.Parse(text);
      if d.None? {
        return;
      }
      panel := panel.(end := Clock.EndText(panel.start, d.value));
      UpdateFromDetails();
    }
  }
}
