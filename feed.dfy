/** make_cal: the calendar's fixed properties and the order of its components. */
module Feed {
  import opened Common
  import opened Normalize
  import opened TimeZone

  /** TZID, the zone every calendar carries. */
  const Tzid := "Australia/Sydney"
  const Version := "2.0"
  const ProdId := "-//Sentral Calendar Script//ralismark.github.io//"
  const CalName := "Sentral Calendar"

  datatype Component = Zone(zone: VTimezone) | Event(event: CalendarEvent)

  datatype Calendar = Calendar(version: string, prodid: string, calname: string, components: seq<Component>)

  /** The events among the components, in their order. */
  function Events(components: seq<Component>): (r: seq<CalendarEvent>)
    ensures |r| <= |components|
    ensures forall e :: e in r <==> Event(e) in components
  {
    if |components| == 0 then []
    else
      var front, last := components[..|components| - 1], components[|components| - 1];
      assert components == front + [last];
      Events(front) + (if last.Event? then [last.event] else [])
  }

  /** Listing the events of two runs of components lists each run's events, the first run's first. */
  lemma {:induction false} EventsAppend(a: seq<Component>, b: seq<Component>)
    ensures Events(a + b) == Events(a) + Events(b)
    decreases |b|
  {
    if |b| == 0 {
      assert a + b == a;
    } else {
      var front, last := b[..|b| - 1], b[|b| - 1];
      assert (a + b)[..|a + b| - 1] == a + front && (a + b)[|a + b| - 1] == last;
      EventsAppend(a, front);
    }
  }

  /** A zone contributes no event, and an event contributes itself. */
  lemma EventsOfOne(z: VTimezone, e: CalendarEvent)
    ensures Events([Zone(z)]) == [] && Events([Event(e)]) == [e]
  {
    assert [Zone(z)][..0] == [] && [Event(e)][..0] == [];
  }

  lemma PrefixStep(events: seq<CalendarEvent>, i: int)
    requires 0 <= i < |events|
    ensures events[..i + 1] == events[..i] + [events[i]]
  {
  }

  /** The calendar's fixed properties, then the zone, then the events in the order given. */
  method WithEvents(zone: VTimezone, events: seq<CalendarEvent>) returns (cal: Calendar)
    ensures cal.version == Version && cal.prodid == ProdId && cal.calname == CalName
    ensures |cal.components| == |events| + 1 && cal.components[0] == Zone(zone)
    ensures Events(cal.components) == events
  {
    var components := [Zone(zone)];
    var i := 0;
    while i < |events|
      invariant 0 <= i <= |events|
      invariant |components| == i + 1 && components[0] == Zone(zone)
      invariant Events(components) == events[..i]
    {
      var next := components + [Event(events[i])];
      EventsAppend(components, [Event(events[i])]);
      EventsOfOne(zone, events[i]);
      PrefixStep(events, i);
      components := next;
      i := i + 1;
    }
    assert events[..i] == events;
    cal := Calendar(Version, ProdId, CalName, components);
  }

  /**
   * make_cal(seq): the zone generate_vtimezone builds for TZID, as written, followed by the
   * events. A failure to build the zone is the only error.
   */
  method MakeCal(transitions: seq<Transition>, nowYear: int, events: seq<CalendarEvent>) returns (r: Result<Calendar>)
    requires forall t | t in transitions :: ValidTransition(t)
    ensures r.Err? <==> GenerateVTimezoneAsWritten(Tzid, transitions, nowYear).Err?
    ensures r.Err? ==> r.error == GenerateVTimezoneAsWritten(Tzid, transitions, nowYear).error
    ensures r.Ok? ==> (
      && r.value.version == Version && r.value.prodid == ProdId && r.value.calname == CalName
      && |r.value.components| == |events| + 1
      && r.value.components[0] == Zone(GenerateVTimezoneAsWritten(Tzid, transitions, nowYear).value.value)
      && Events(r.value.components) == events)
  {
    var zone := GenerateVTimezoneAsWritten(Tzid, transitions, nowYear);
    if zone.Err? {
      return Err(zone.error);
    }
    var cal := WithEvents(zone.value.value, events);
    r := Ok(cal);
  }

  /** make_cal with the corrected zone, whose DAYLIGHT block always describes the change into daylight time. */
  method MakeCalCorrected(transitions: seq<Transition>, nowYear: int, events: seq<CalendarEvent>) returns (r: Result<Calendar>)
    requires forall t | t in transitions :: ValidTransition(t)
    ensures r.Err? <==> GenerateVTimezone(Tzid, transitions, nowYear).Err?
    ensures r.Err? ==> r.error == GenerateVTimezone(Tzid, transitions, nowYear).error
    ensures r.Ok? ==> (
      && r.value.version == Version && r.value.prodid == ProdId && r.value.calname == CalName
      && |r.value.components| == |events| + 1
      && r.value.components[0] == Zone(GenerateVTimezone(Tzid, transitions, nowYear).value.value)
      && Events(r.value.components) == events)
  {
    var zone := GenerateVTimezone(Tzid, transitions, nowYear);
    if zone.Err? {
      return Err(zone.error);
    }
    var cal := WithEvents(zone.value.value, events);
    r := Ok(cal);
  }
}
