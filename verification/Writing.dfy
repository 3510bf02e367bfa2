/** Which sequences of events the assertions of `PrettyWriter` let through. */
module Writing {
  import opened Bytes
  import opened Sax
  import opened Printing
  import opened History

  /** A level of the writer counts names and values; one with an open child has counted
      that child already. */
  predicate LevelTracks(l: Level, o: Open, busy: bool) {
    if o.isObject then
      && !l.inArray && (busy ==> o.named)
      && l.valueCount == 2 * o.children + (if busy then 2 else if o.named then 1 else 0)
    else
      l.inArray && !o.named && l.valueCount == o.children + (if busy then 1 else 0)
  }

  predicate Tracks(w: Output, r: Replay) {
    && r.Replay? && |w.levels| == |r.open|
    && w.hasRoot == (r.rootDone || r.open != [])
    && forall i :: 0 <= i < |r.open| ==> LevelTracks(w.levels[i], r.open[i], i < |r.open| - 1)
  }

  const FRESH: Output := Output([], [], false)

  /** A well-formed event passes, and the levels keep up with it. */
  lemma StepTracks(f: Style, w: Output, r: Replay, event: Event)
    requires Tracks(w, r) && Next(r, event).Replay?
    ensures Written(f, w, event).Some? && Tracks(Written(f, w, event).value, Next(r, event))
  {
    hide Lead, Trail, LeafText;
  }

  /** Every well-formed sequence of events, finished or not, is written without an
      assertion that fails. */
  lemma {:induction false} WellFormedWritten(f: Style, events: seq<Event>)
    requires ReplayOf(events).Replay?
    ensures var w := WrittenAll(f, FRESH, events);
            w.Some? && Tracks(w.value, ReplayOf(events))
    decreases |events|
  {
    hide Written, Next, Tracks;
    if events == [] {
      FreshTracks();
    } else {
      var before, last := events[..|events| - 1], events[|events| - 1];
      IllStays(ReplayOf(before), last);
      WellFormedWritten(f, before);
      StepTracks(f, WrittenAll(f, FRESH, before).value, ReplayOf(before), last);
    }
  }

  lemma FreshTracks()
    ensures Tracks(FRESH, Replay([], false))
  {
  }

  lemma IllStays(r: Replay, event: Event)
    requires Next(r, event).Replay?
    ensures r.Replay?
  {
  }

  /** What the assertions overlook: a string in place of a name, a name in place of a
      value, a wrong count at the end of a container, and the end of an object whose last
      name has no value. */
  predicate Overlooked(r: Replay, event: Event)
    requires r.Replay?
  {
    var inObject := r.open != [] && r.open[|r.open| - 1].isObject;
    match event
    case String(_) => inObject && !r.open[|r.open| - 1].named
    case Key(_) => if r.open == [] then !r.rootDone else inObject ==> r.open[|r.open| - 1].named
    case EndObject(n) => inObject && (r.open[|r.open| - 1].named || r.open[|r.open| - 1].children != n)
    case EndArray(n) => r.open != [] && !inObject && r.open[|r.open| - 1].children != n
    case _ => false
  }

  /** The first event that is out of place runs into an assertion exactly if it is none of
      these. */
  lemma CaughtExactly(f: Style, events: seq<Event>, event: Event)
    requires ReplayOf(events).Replay? && !ReplayOf(events + [event]).Replay?
    ensures WrittenAll(f, FRESH, events + [event]).None? <==> !Overlooked(ReplayOf(events), event)
  {
    hide Written, Tracks, Next, Overlooked;
    assert (events + [event])[..|events|] == events;
    WellFormedWritten(f, events);
    StepCaught(f, WrittenAll(f, FRESH, events).value, ReplayOf(events), event);
  }

  lemma StepCaught(f: Style, w: Output, r: Replay, event: Event)
    requires Tracks(w, r) && !Next(r, event).Replay?
    ensures Written(f, w, event).None? <==> !Overlooked(r, event)
  {
    hide Lead, Trail, LeafText;
  }

  /** An object whose only member has a name but no value is written. */
  lemma NameWithoutValue(f: Style)
    ensures var events := [StartObject, Key([0x61]), EndObject(1)];
            WrittenAll(f, FRESH, events).Some? && ReplayOf(events).Ill?
  {
    var events := [StartObject, Key([0x61])];
    assert [StartObject][..0] == [] && events[..1] == [StartObject];
    ReplaySnoc(events, EndObject(1));
    assert events + [EndObject(1)] == [StartObject, Key([0x61]), EndObject(1)];
    assert ReplayOf([StartObject]) == Replay([Open(true, 0, false)], false);
    assert ReplayOf(events) == Replay([Open(true, 0, true)], false);
    CaughtExactly(f, events, EndObject(1));
  }
}
