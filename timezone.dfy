/**
 * generate_vtimezone: the VTIMEZONE built from a zone's table of transitions, once as the
 * script writes it and once with the roles of the four transitions fixed.
 */
module TimeZone {
  import opened Common
  import opened Civil

  /** What holds after a transition: the offset from UTC and its daylight part (minutes), and the abbreviation. */
  datatype TransitionInfo = TransitionInfo(utcOffset: int, dst: int, name: string)

  /** One row of the zone's table: the UTC instant of the change and what holds afterwards. */
  datatype Transition = Transition(utc: DateTime, info: TransitionInfo)

  /** A DAYLIGHT or STANDARD sub-component; its times are local wall-clock times in `offsetFrom`. */
  datatype Observance = Observance(dtstart: DateTime, rdates: seq<DateTime>, offsetFrom: int, offsetTo: int, name: string)

  datatype VTimezone = VTimezone(tzid: string, daylight: Observance, standard: Observance)

  /** The four transitions of the window in the roles the two sub-components give them. */
  datatype Roles = Roles(dst1: Transition, std1: Transition, dst2: Transition, std2: Transition)

  /** Every UTC instant in the table is a date-time Python can hold. */
  predicate ValidTransition(t: Transition) {
    ValidDateTime(t.utc) && InRange(t.utc.date)
  }

  predicate InWindow(t: Transition, year: int) {
    t.utc.date.year == year || t.utc.date.year == year + 1
  }

  /** The transitions whose UTC year is the current one or the next, in table order. */
  function Window(ts: seq<Transition>, year: int): (r: seq<Transition>)
    ensures forall t :: t in r <==> t in ts && InWindow(t, year)
    ensures |r| <= |ts|
  {
    if |ts| == 0 then []
    else (if InWindow(ts[0], year) then [ts[0]] else []) + Window(ts[1..], year)
  }

  /** Filtering a table in two parts filters each part and keeps them in order. */
  lemma {:induction false} WindowAppend(a: seq<Transition>, b: seq<Transition>, year: int)
    ensures Window(a + b, year) == Window(a, year) + Window(b, year)
    decreases |a|
  {
    if |a| > 0 {
      assert (a + b)[0] == a[0];
      assert (a + b)[1..] == a[1..] + b;
      WindowAppend(a[1..], b, year);
    } else {
      assert a + b == b;
    }
  }

  /** The window keeps the whole table exactly when every transition falls in it. */
  lemma {:induction false} WindowKeepsAll(ts: seq<Transition>, year: int)
    ensures Window(ts, year) == ts <==> forall t | t in ts :: InWindow(t, year)
    decreases |ts|
  {
    if |ts| > 0 {
      WindowKeepsAll(ts[1..], year);
      if forall t | t in ts :: InWindow(t, year) {
        assert forall t | t in ts[1..] :: InWindow(t, year);
        assert [ts[0]] + ts[1..] == ts;
      }
    }
  }

  /** Dropping whole parts before and after leaves the window of the middle. */
  lemma WindowAround(before: seq<Transition>, kept: seq<Transition>, after: seq<Transition>, year: int)
    requires Window(before, year) == [] && Window(after, year) == []
    ensures Window(before + kept + after, year) == Window(kept, year)
  {
    WindowAppend(before, kept, year);
    WindowAppend(before + kept, after, year);
  }

  /**
   * One sub-component for the transition `on`, repeated by `again` a year later: both instants
   * written in the offset `from` in force before them, which fails when the shift leaves the
   * years Python supports.
   */
  function Block(on: Transition, again: Transition, from: int): (r: Result<Observance>)
    requires ValidTransition(on) && ValidTransition(again)
    ensures r.Ok? <==> AddMinutes(on.utc, from).Some? && AddMinutes(again.utc, from).Some?
    ensures r.Err? ==> r.error == Overflow
    ensures r.Ok? ==> (
      && r.value.offsetFrom == from && r.value.offsetTo == on.info.utcOffset && r.value.name == on.info.name
      && |r.value.rdates| == 2 && r.value.rdates[0] == r.value.dtstart
      && ValidDateTime(r.value.dtstart) && ValidDateTime(r.value.rdates[1])
      && AddMinutes(r.value.dtstart, -from) == Some(on.utc)
      && AddMinutes(r.value.rdates[1], -from) == Some(again.utc))
  {
    match (AddMinutes(on.utc, from), AddMinutes(again.utc, from))
    case (Some(start), Some(next)) =>
      AddMinutesInverse(on.utc, from);
      AddMinutesInverse(again.utc, from);
      Ok(Observance(start, [start, next], from, on.info.utcOffset, on.info.name))
    case _ => Err(Overflow)
  }

  /** The DAYLIGHT block starts at dst1 seen from std1's offset, the STANDARD block at std1 seen from dst1's. */
  function Assemble(tzid: string, roles: Roles): (r: Result<VTimezone>)
    requires ValidTransition(roles.dst1) && ValidTransition(roles.std1)
    requires ValidTransition(roles.dst2) && ValidTransition(roles.std2)
    ensures r.Ok? <==>
      Block(roles.dst1, roles.dst2, roles.std1.info.utcOffset).Ok?
      && Block(roles.std1, roles.std2, roles.dst1.info.utcOffset).Ok?
    ensures r.Err? ==> r.error == Overflow
    ensures r.Ok? ==> (
      && r.value.tzid == tzid
      && r.value.daylight == Block(roles.dst1, roles.dst2, roles.std1.info.utcOffset).value
      && r.value.standard == Block(roles.std1, roles.std2, roles.dst1.info.utcOffset).value)
  {
    match Block(roles.dst1, roles.dst2, roles.std1.info.utcOffset)
    case Err(e) => Err(e)
    case Ok(daylight) =>
      match Block(roles.std1, roles.std2, roles.dst1.info.utcOffset)
      case Err(e) => Err(e)
      case Ok(standard) => Ok(VTimezone(tzid, daylight, standard))
  }

  /** Each block changes to the offset the other changes from. */
  predicate Mirrored(v: VTimezone) {
    v.daylight.offsetFrom == v.standard.offsetTo && v.daylight.offsetTo == v.standard.offsetFrom
  }

  /**
   * generate_vtimezone as written: no zone for an empty id, an unpacking error unless exactly
   * four transitions fall in the window, and the window's transitions taken in table order as
   * daylight onset, return to standard time, and their repeats.
   */
  function GenerateVTimezoneAsWritten(tzid: string, transitions: seq<Transition>, nowYear: int): (r: Result<Option<VTimezone>>)
    requires forall t | t in transitions :: ValidTransition(t)
    ensures |tzid| == 0 <==> r == Ok(None)
    ensures |tzid| > 0 && |Window(transitions, nowYear)| != 4 ==> r == Err(Unpack(|Window(transitions, nowYear)|))
    ensures r.Ok? && r.value.Some? ==> r.value.value.tzid == tzid && Mirrored(r.value.value)
    ensures |tzid| > 0 && |Window(transitions, nowYear)| == 4 ==>
      var w := Window(transitions, nowYear);
      && ValidTransition(w[0]) && ValidTransition(w[1]) && ValidTransition(w[2]) && ValidTransition(w[3])
      && (r.Ok? <==> Assemble(tzid, Roles(w[0], w[1], w[2], w[3])).Ok?)
      && (r.Err? ==> r.error == Overflow)
  {
    if |tzid| == 0 then Ok(None)
    else
      var w := Window(transitions, nowYear);
      if |w| != 4 then Err(Unpack(|w|))
      else
        assert w[0] in w && w[1] in w && w[2] in w && w[3] in w;
        match Assemble(tzid, Roles(w[0], w[1], w[2], w[3]))
        case Err(e) => Err(e)
        case Ok(v) => Ok(Some(v))
  }

  /** The window's transitions in their roles: when the first one returns to standard time, each pair swaps. */
  function PairRoles(w: seq<Transition>): (r: Roles)
    requires |w| == 4
    ensures multiset{r.dst1, r.std1, r.dst2, r.std2} == multiset(w)
    ensures w[0].info.dst != 0 ==> r == Roles(w[0], w[1], w[2], w[3])
  {
    assert w == [w[0], w[1], w[2], w[3]];
    assert multiset{w[1], w[0], w[3], w[2]} == multiset{w[0], w[1], w[2], w[3]};
    if w[0].info.dst != 0 then Roles(w[0], w[1], w[2], w[3]) else Roles(w[1], w[0], w[3], w[2])
  }

  /** generate_vtimezone with each transition placed in the block of its own kind. */
  function GenerateVTimezone(tzid: string, transitions: seq<Transition>, nowYear: int): (r: Result<Option<VTimezone>>)
    requires forall t | t in transitions :: ValidTransition(t)
    ensures |tzid| == 0 <==> r == Ok(None)
    ensures |tzid| > 0 && |Window(transitions, nowYear)| != 4 ==> r == Err(Unpack(|Window(transitions, nowYear)|))
    ensures r.Ok? && r.value.Some? ==> r.value.value.tzid == tzid && Mirrored(r.value.value)
    ensures |tzid| > 0 && |Window(transitions, nowYear)| == 4 ==>
      var w := Window(transitions, nowYear);
      var roles := PairRoles(w);
      && ValidTransition(roles.dst1) && ValidTransition(roles.std1)
      && ValidTransition(roles.dst2) && ValidTransition(roles.std2)
      && (r.Ok? <==> Assemble(tzid, roles).Ok?)
      && (r.Err? ==> r.error == Overflow)
  {
    if |tzid| == 0 then Ok(None)
    else
      var w := Window(transitions, nowYear);
      if |w| != 4 then Err(Unpack(|w|))
      else
        assert w[0] in w && w[1] in w && w[2] in w && w[3] in w;
        match Assemble(tzid, PairRoles(w))
        case Err(e) => Err(e)
        case Ok(v) => Ok(Some(v))
  }

  /** Consecutive transitions of the window alternate between daylight and standard time. */
  predicate Alternating(w: seq<Transition>) {
    forall i :: 0 <= i < |w| - 1 ==> (w[i].info.dst == 0 <==> w[i + 1].info.dst != 0)
  }

  /** A block describes the change at `t`: its target offset and name, and its start read back in UTC. */
  predicate Describes(b: Observance, t: Transition) {
    && b.offsetTo == t.info.utcOffset && b.name == t.info.name
    && ValidDateTime(b.dtstart) && AddMinutes(b.dtstart, -b.offsetFrom) == Some(t.utc)
  }

  /** An assembled zone's DAYLIGHT block describes dst1 and its STANDARD block std1. */
  lemma AssembledDescribes(tzid: string, roles: Roles)
    requires ValidTransition(roles.dst1) && ValidTransition(roles.std1)
    requires ValidTransition(roles.dst2) && ValidTransition(roles.std2)
    requires Assemble(tzid, roles).Ok?
    ensures Describes(Assemble(tzid, roles).value.daylight, roles.dst1)
    ensures Describes(Assemble(tzid, roles).value.standard, roles.std1)
  {
  }

  /** In an alternating window of four, the first two transitions are of opposite kinds. */
  lemma FirstPairAlternates(w: seq<Transition>)
    requires |w| == 4 && Alternating(w)
    ensures w[0].info.dst == 0 <==> w[1].info.dst != 0
  {
  }

  /** A corrected zone is the four transitions of the window assembled in their paired roles. */
  lemma CorrectedAssembles(tzid: string, transitions: seq<Transition>, nowYear: int)
    requires forall t | t in transitions :: ValidTransition(t)
    requires GenerateVTimezone(tzid, transitions, nowYear).Ok? && |tzid| > 0
    ensures var w := Window(transitions, nowYear);
      && |w| == 4 && (forall t | t in w :: ValidTransition(t))
      && Assemble(tzid, PairRoles(w)) == Ok(GenerateVTimezone(tzid, transitions, nowYear).value.value)
  {
  }

  /** As written, the zone is the four transitions of the window assembled in table order. */
  lemma AsWrittenAssembles(tzid: string, transitions: seq<Transition>, nowYear: int)
    requires forall t | t in transitions :: ValidTransition(t)
    requires GenerateVTimezoneAsWritten(tzid, transitions, nowYear).Ok? && |tzid| > 0
    ensures var w := Window(transitions, nowYear);
      && |w| == 4 && (forall t | t in w :: ValidTransition(t))
      && Assemble(tzid, Roles(w[0], w[1], w[2], w[3])) == Ok(GenerateVTimezoneAsWritten(tzid, transitions, nowYear).value.value)
  {
  }

  /**
   * With an alternating window, the corrected DAYLIGHT block describes a change into daylight
   * time and the STANDARD block a change back to standard time, each from the other's offset.
   */
  lemma BlocksMatchTheirKind(tzid: string, transitions: seq<Transition>, nowYear: int)
    requires forall t | t in transitions :: ValidTransition(t)
    requires GenerateVTimezone(tzid, transitions, nowYear).Ok? && |tzid| > 0
    requires Alternating(Window(transitions, nowYear))
    ensures var v := GenerateVTimezone(tzid, transitions, nowYear).value.value;
      var w := Window(transitions, nowYear);
      && (exists t :: t in w && t.info.dst != 0 && Describes(v.daylight, t))
      && (exists t :: t in w && t.info.dst == 0 && Describes(v.standard, t))
  {
    var w := Window(transitions, nowYear);
    CorrectedAssembles(tzid, transitions, nowYear);
    FirstPairAlternates(w);
    assert w[0] in w && w[1] in w && w[2] in w && w[3] in w;
    var roles := PairRoles(w);
    AssembledDescribes(tzid, roles);
    assert roles.dst1 in w && roles.dst1.info.dst != 0;
    assert roles.std1 in w && roles.std1.info.dst == 0;
  }

  /**
   * As written, a window that opens with a return to standard time puts that standard-time
   * change in the DAYLIGHT block and the daylight onset in the STANDARD block.
   */
  lemma AsWrittenSwapsKinds(tzid: string, transitions: seq<Transition>, nowYear: int)
    requires forall t | t in transitions :: ValidTransition(t)
    requires GenerateVTimezoneAsWritten(tzid, transitions, nowYear).Ok? && |tzid| > 0
    requires Alternating(Window(transitions, nowYear)) && Window(transitions, nowYear)[0].info.dst == 0
    ensures var v := GenerateVTimezoneAsWritten(tzid, transitions, nowYear).value.value;
      var w := Window(transitions, nowYear);
      && (exists t :: t in w && t.info.dst == 0 && Describes(v.daylight, t))
      && (exists t :: t in w && t.info.dst != 0 && Describes(v.standard, t))
  {
    var w := Window(transitions, nowYear);
    AsWrittenAssembles(tzid, transitions, nowYear);
    FirstPairAlternates(w);
    assert w[0] in w && w[1] in w && w[2] in w && w[3] in w;
    AssembledDescribes(tzid, Roles(w[0], w[1], w[2], w[3]));
  }

  /** Both instants of each block, shifted into the offset in force before them, stay in years 1..9999. */
  predicate ShiftsFit(roles: Roles)
    requires ValidTransition(roles.dst1) && ValidTransition(roles.std1)
    requires ValidTransition(roles.dst2) && ValidTransition(roles.std2)
  {
    && AddMinutes(roles.dst1.utc, roles.std1.info.utcOffset).Some?
    && AddMinutes(roles.dst2.utc, roles.std1.info.utcOffset).Some?
    && AddMinutes(roles.std1.utc, roles.dst1.info.utcOffset).Some?
    && AddMinutes(roles.std2.utc, roles.dst1.info.utcOffset).Some?
  }

  /**
   * As written, a zone with an id and four transitions in the window is built exactly when the
   * shifts fit; otherwise the datetime arithmetic overflows.
   */
  lemma AsWrittenBuilt(tzid: string, transitions: seq<Transition>, nowYear: int)
    requires forall t | t in transitions :: ValidTransition(t)
    requires |tzid| > 0 && |Window(transitions, nowYear)| == 4
    ensures var r := GenerateVTimezoneAsWritten(tzid, transitions, nowYear);
      var w := Window(transitions, nowYear);
      && (r.Ok? <==> ShiftsFit(Roles(w[0], w[1], w[2], w[3])))
      && (r.Ok? ==> r.value.Some?)
      && (r.Err? ==> r.error == Overflow)
  {
  }

  /** The corrected zone likewise is built exactly when the shifts of its paired roles fit. */
  lemma CorrectedBuilt(tzid: string, transitions: seq<Transition>, nowYear: int)
    requires forall t | t in transitions :: ValidTransition(t)
    requires |tzid| > 0 && |Window(transitions, nowYear)| == 4
    ensures var r := GenerateVTimezone(tzid, transitions, nowYear);
      var w := Window(transitions, nowYear);
      && (r.Ok? <==> ShiftsFit(PairRoles(w)))
      && (r.Ok? ==> r.value.Some?)
      && (r.Err? ==> r.error == Overflow)
  {
  }

  /** When the window opens with a daylight onset, the corrected version builds what the script builds. */
  lemma AgreesWhenDaylightFirst(tzid: string, transitions: seq<Transition>, nowYear: int)
    requires forall t | t in transitions :: ValidTransition(t)
    requires |Window(transitions, nowYear)| == 4 && Window(transitions, nowYear)[0].info.dst != 0
    ensures GenerateVTimezone(tzid, transitions, nowYear) == GenerateVTimezoneAsWritten(tzid, transitions, nowYear)
  {
  }

  const Aest := TransitionInfo(600, 0, "AEST")
  const Aedt := TransitionInfo(660, 60, "AEDT")

  /** Australia/Sydney around 2024: daylight time ends in early April and starts in early October (UTC instants). */
  const SydneyTable := [
    Transition(DateTime(Date(2023, 9, 30), 16, 0), Aedt),
    Transition(DateTime(Date(2024, 4, 6), 16, 0), Aest),
    Transition(DateTime(Date(2024, 10, 5), 16, 0), Aedt),
    Transition(DateTime(Date(2025, 4, 5), 16, 0), Aest),
    Transition(DateTime(Date(2025, 10, 4), 16, 0), Aedt),
    Transition(DateTime(Date(2026, 4, 4), 16, 0), Aest)]

  lemma SydneyValid()
    ensures forall t | t in SydneyTable :: ValidTransition(t)
  {
  }

  lemma SydneyParts()
    ensures Window(SydneyTable[..1], 2024) == [] && Window(SydneyTable[5..], 2024) == []
    ensures SydneyTable[..1] + SydneyTable[1..5] + SydneyTable[5..] == SydneyTable
  {
  }

  lemma SydneyKept()
    ensures Window(SydneyTable[1..5], 2024) == SydneyTable[1..5]
  {
    assert forall t | t in SydneyTable[1..5] :: InWindow(t, 2024);
    WindowKeepsAll(SydneyTable[1..5], 2024);
  }

  /** The window for 2024 drops the 2023 and 2026 changes and keeps the four between them. */
  lemma SydneyWindow()
    ensures Window(SydneyTable, 2024) == SydneyTable[1..5]
  {
    SydneyParts();
    SydneyKept();
    WindowAround(SydneyTable[..1], SydneyTable[1..5], SydneyTable[5..], 2024);
  }

  /** It alternates, and opens with April's return to standard time. */
  lemma SydneyAlternates()
    ensures Alternating(SydneyTable[1..5]) && SydneyTable[1].info.dst == 0
  {
  }

  /** 16:00 UTC on 5 October 2024 is 2am on the 6th at +10:00. */
  lemma OctoberChange()
    ensures AddMinutes(DateTime(Date(2024, 10, 5), 16, 0), 600) == Some(DateTime(Date(2024, 10, 6), 2, 0))
  {
    AddDaysLastStep(Date(2024, 10, 5), 1);
  }

  /** The other three changes of the window, each read in the offset in force before it. */
  lemma OtherChanges()
    ensures AddMinutes(DateTime(Date(2024, 4, 6), 16, 0), 660) == Some(DateTime(Date(2024, 4, 7), 3, 0))
    ensures AddMinutes(DateTime(Date(2025, 4, 5), 16, 0), 660) == Some(DateTime(Date(2025, 4, 6), 3, 0))
    ensures AddMinutes(DateTime(Date(2025, 10, 4), 16, 0), 600) == Some(DateTime(Date(2025, 10, 5), 2, 0))
  {
    AddDaysLastStep(Date(2024, 4, 6), 1);
    AddDaysLastStep(Date(2025, 4, 5), 1);
    AddDaysLastStep(Date(2025, 10, 4), 1);
  }

  /** As written, Sydney's DAYLIGHT block carries standard time (AEST, +10:00) and its STANDARD block daylight time. */
  lemma SydneyAsWritten()
    ensures forall t | t in SydneyTable :: ValidTransition(t)
    ensures var r := GenerateVTimezoneAsWritten("Australia/Sydney", SydneyTable, 2024);
      && r.Ok? && r.value.Some?
      && r.value.value.daylight.name == "AEST" && r.value.value.daylight.offsetTo == 600
      && r.value.value.standard.name == "AEDT" && r.value.value.standard.offsetTo == 660
  {
    SydneyValid();
    SydneyWindow();
    OctoberChange();
    OtherChanges();
    var w := SydneyTable[1..5];
    assert Block(w[0], w[2], 660).Ok? && Block(w[1], w[3], 600).Ok?;
  }

  /** Sydney's window opens with a return to standard time, so its pairs swap. */
  lemma SydneyRoles()
    ensures PairRoles(SydneyTable[1..5]) == Roles(SydneyTable[2], SydneyTable[1], SydneyTable[4], SydneyTable[3])
  {
    var w := SydneyTable[1..5];
    assert w[0].info.dst == 0;
  }

  /** Sydney's corrected blocks: April's change seen from +11:00, October's from +10:00. */
  lemma SydneyCorrectedBlocks()
    ensures ValidTransition(SydneyTable[1]) && ValidTransition(SydneyTable[2])
    ensures ValidTransition(SydneyTable[3]) && ValidTransition(SydneyTable[4])
    ensures Block(SydneyTable[2], SydneyTable[4], 600).Ok?
    ensures Block(SydneyTable[2], SydneyTable[4], 600).value.dtstart == DateTime(Date(2024, 10, 6), 2, 0)
    ensures Block(SydneyTable[1], SydneyTable[3], 660).Ok?
  {
    SydneyValid();
    OctoberChange();
    OtherChanges();
  }

  /** Corrected, Sydney's DAYLIGHT block is AEDT at +11:00, starting 2am local on 6 October 2024. */
  lemma SydneyCorrected()
    ensures forall t | t in SydneyTable :: ValidTransition(t)
    ensures var r := GenerateVTimezone("Australia/Sydney", SydneyTable, 2024);
      && r.Ok? && r.value.Some?
      && r.value.value.daylight.name == "AEDT" && r.value.value.daylight.offsetTo == 660
      && r.value.value.daylight.offsetFrom == 600
      && r.value.value.daylight.dtstart == DateTime(Date(2024, 10, 6), 2, 0)
      && r.value.value.standard.name == "AEST" && r.value.value.standard.offsetTo == 600
  {
    SydneyValid();
    SydneyWindow();
    SydneyRoles();
    SydneyCorrectedBlocks();
  }
}
