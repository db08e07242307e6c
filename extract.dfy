/**
 * The text-to-record part of get_events and process_event. The scraped page enters as a
 * sequence of day cells: each cell's raw date label and, for each `.event` node in it, the
 * node's text fragments in document order.
 */
module Extract {
  import opened Common

  /** A Python dict from key to text, as process_event and get_events build them. */
  type Record = map<string, string>

  /** One day cell: its raw label and the text fragments of each of its event nodes. */
  type Cell = (string, seq<seq<string>>)

  const Nbsp := '\U{A0}'

  /**
   * process_event: with several fragments the first is the time text and the second the
   * title; with one fragment the event is all-day; with none, strings[0] raises IndexError.
   */
  function ProcessEvent(strings: seq<string>): (r: Result<Record>)
    ensures r.Err? <==> |strings| == 0
    ensures r.Err? ==> r.error == IndexError
    ensures r.Ok? ==> r.value.Keys <= {"time", "event"} && "event" in r.value
    ensures r.Ok? ==> ("time" in r.value <==> |strings| > 1)
    ensures r.Ok? && |strings| > 1 ==> r.value["time"] == strings[0] && r.value["event"] == strings[1]
    ensures r.Ok? && |strings| == 1 ==> r.value["event"] == strings[0]
  {
    if |strings| > 1 then Ok(map["time" := strings[0], "event" := strings[1]])
    else if |strings| == 1 then Ok(map["event" := strings[0]])
    else Err(IndexError)
  }

  /** Fragments after the second never reach the record. */
  lemma LaterFragmentsIgnored(strings: seq<string>, extra: seq<string>)
    requires |strings| >= 2
    ensures ProcessEvent(strings + extra) == ProcessEvent(strings[..2])
  {
  }

  /** label.replace('\xa0', ' ') */
  function ReplaceNbsp(s: string): (r: string)
    ensures |r| == |s|
    ensures forall i :: 0 <= i < |s| ==> r[i] == (if s[i] == Nbsp then ' ' else s[i])
  {
    if s == [] then [] else [if s[0] == Nbsp then ' ' else s[0]] + ReplaceNbsp(s[1..])
  }

  /** The replaced label holds no no-break space, and replacing again changes nothing. */
  lemma ReplaceNbspClears(s: string)
    ensures Nbsp !in ReplaceNbsp(s)
    ensures ReplaceNbsp(ReplaceNbsp(s)) == ReplaceNbsp(s)
    ensures Nbsp !in s ==> ReplaceNbsp(s) == s
  {
    var r := ReplaceNbsp(s);
    assert forall i :: 0 <= i < |r| ==> r[i] != Nbsp;
    assert ReplaceNbsp(r) == r;
  }

  /** entry = dict(day=label); entry.update(event) */
  function Entry(dayLabel: string, event: Record): (r: Record)
    ensures r.Keys == {"day"} + event.Keys
    ensures forall k :: k in event ==> r[k] == event[k]
    ensures "day" !in event ==> r["day"] == dayLabel
  {
    map["day" := dayLabel] + event
  }

  /** An event record from process_event never overwrites the cell's day. */
  lemma EntryKeepsDay(dayLabel: string, strings: seq<string>)
    requires |strings| > 0
    ensures var e := Entry(dayLabel, ProcessEvent(strings).value);
      e.Keys == {"day"} + ProcessEvent(strings).value.Keys && e["day"] == dayLabel
      && forall k :: k in ProcessEvent(strings).value ==> e[k] == ProcessEvent(strings).value[k]
  {
    assert "day" !in ProcessEvent(strings).value;
  }

  predicate AllNonEmpty(cells: seq<Cell>) {
    forall i, j :: 0 <= i < |cells| && 0 <= j < |cells[i].1| ==> |cells[i].1[j]| > 0
  }

  /** The lists one after another. */
  function Concat<T>(xss: seq<seq<T>>): seq<T> {
    if xss == [] then [] else xss[0] + Concat(xss[1..])
  }

  /** Where list i starts in Concat(xss): the total length of the lists before it. */
  function Offset<T>(xss: seq<seq<T>>, i: int): (r: int)
    requires 0 <= i <= |xss|
    ensures r >= 0
  {
    if i == 0 then 0 else Offset(xss, i - 1) + |xss[i - 1]|
  }

  lemma {:induction false} ConcatAppend<T>(xss: seq<seq<T>>, ys: seq<T>)
    ensures Concat(xss + [ys]) == Concat(xss) + ys
  {
    if xss == [] {
      assert xss + [ys] == [ys];
    } else {
      assert (xss + [ys])[1..] == xss[1..] + [ys];
      ConcatAppend(xss[1..], ys);
    }
  }

  lemma {:induction false} OffsetPrefix<T>(xss: seq<seq<T>>, k: int, i: int)
    requires 0 <= i <= k <= |xss|
    ensures Offset(xss[..k], i) == Offset(xss, i)
  {
    if i > 0 {
      OffsetPrefix(xss, k, i - 1);
    }
  }

  /** Element j of list i sits at Offset(i) + j: lists in order, elements in order within a list. */
  lemma {:induction false} ConcatAt<T>(xss: seq<seq<T>>, i: int, j: int)
    requires 0 <= i < |xss| && 0 <= j < |xss[i]|
    ensures |Concat(xss)| == Offset(xss, |xss|)
    ensures Offset(xss, i) + j < |Concat(xss)| && Concat(xss)[Offset(xss, i) + j] == xss[i][j]
  {
    var n := |xss|;
    var front := xss[..n - 1];
    assert xss == front + [xss[n - 1]];
    ConcatAppend(front, xss[n - 1]);
    OffsetPrefix(xss, n - 1, n - 1);
    if n > 1 {
      var i', j' := if i < n - 1 then i else 0, if i < n - 1 then j else 0;
      if |front[i']| == 0 {
        // fall back on a list that is not empty, or on the length alone
        ConcatLength(front);
      } else {
        ConcatAt(front, i', j');
      }
      if i < n - 1 {
        OffsetPrefix(xss, n - 1, i);
        assert front[i] == xss[i];
      }
    } else {
      assert Concat(front) == [];
    }
  }

  lemma {:induction false} ConcatLength<T>(xss: seq<seq<T>>)
    ensures |Concat(xss)| == Offset(xss, |xss|)
  {
    if xss != [] {
      var n := |xss|;
      var front := xss[..n - 1];
      assert xss == front + [xss[n - 1]];
      ConcatAppend(front, xss[n - 1]);
      OffsetPrefix(xss, n - 1, n - 1);
      ConcatLength(front);
    }
  }

  /** The event_list comprehension for one cell: IndexError on the first node with no text. */
  function ProcessCell(events: seq<seq<string>>): (r: Result<seq<Record>>)
    ensures r.Ok? <==> forall j :: 0 <= j < |events| ==> |events[j]| > 0
    ensures r.Err? ==> r.error == IndexError
    ensures r.Ok? ==> |r.value| == |events| && forall j :: 0 <= j < |events| ==> r.value[j] == ProcessEvent(events[j]).value
  {
    if events == [] then Ok([])
    else
      match ProcessEvent(events[0])
      case Err(e) => Err(e)
      case Ok(first) =>
        match ProcessCell(events[1..])
        case Err(e) =>
          assert forall j :: 1 <= j < |events| ==> events[j] == events[1..][j - 1];
          Err(e)
        case Ok(rest) =>
          assert forall j :: 1 <= j < |events| ==> events[j] == events[1..][j - 1];
          Ok([first] + rest)
  }

  /** The event_list comprehension over all cells. */
  function ProcessCells(cells: seq<Cell>): (r: Result<seq<seq<Record>>>)
    ensures r.Ok? <==> AllNonEmpty(cells)
    ensures r.Err? ==> r.error == IndexError
    ensures r.Ok? ==> |r.value| == |cells| && forall c :: 0 <= c < |cells| ==> r.value[c] == ProcessCell(cells[c].1).value
  {
    if cells == [] then Ok([])
    else
      match ProcessCell(cells[0].1)
      case Err(e) => Err(e)
      case Ok(first) =>
        match ProcessCells(cells[1..])
        case Err(e) =>
          assert forall c :: 1 <= c < |cells| ==> cells[c] == cells[1..][c - 1];
          Err(e)
        case Ok(rest) =>
          assert forall c :: 1 <= c < |cells| ==> cells[c] == cells[1..][c - 1];
          Ok([first] + rest)
  }

  /** Each record of one cell labelled with the cell's day. */
  function Labelled(dayLabel: string, events: seq<Record>): (r: seq<Record>)
    ensures |r| == |events| && forall j :: 0 <= j < |events| ==> r[j] == Entry(dayLabel, events[j])
    ensures forall j :: 0 <= j < |events| ==> r[j].Keys == {"day"} + events[j].Keys
    ensures forall j, k :: 0 <= j < |events| && k in events[j] ==> r[j][k] == events[j][k]
    ensures forall j :: 0 <= j < |events| && "day" !in events[j] ==> r[j]["day"] == dayLabel
  {
    seq(|events|, j requires 0 <= j < |events| => Entry(dayLabel, events[j]))
  }

  /** Per cell, the labelled records of its event nodes. */
  function CellEntries(cells: seq<Cell>): (r: Result<seq<seq<Record>>>)
    ensures r.Ok? <==> AllNonEmpty(cells)
  {
    match ProcessCells(cells)
    case Err(e) => Err(e)
    case Ok(lists) => Ok(seq(|cells|, c requires 0 <= c < |cells| => Labelled(ReplaceNbsp(cells[c].0), lists[c])))
  }

  /**
   * Record Offset(i) + j of get_events' list is the j-th event node of cell i, read by
   * process_event and labelled with that cell's day (no-break spaces replaced).
   */
  lemma FlattenOrder(cells: seq<Cell>, i: int, j: int)
    requires AllNonEmpty(cells)
    requires 0 <= i < |cells| && 0 <= j < |cells[i].1|
    ensures var entries := CellEntries(cells).value;
      |entries| == |cells|
      && Offset(entries, i) + j < |Concat(entries)|
      && Concat(entries)[Offset(entries, i) + j] == Entry(ReplaceNbsp(cells[i].0), ProcessEvent(cells[i].1[j]).value)
  {
    var entries := CellEntries(cells).value;
    assert |entries[i]| == |cells[i].1|;
    ConcatAt(entries, i, j);
  }

  /** Every record carries its cell's day label, free of no-break spaces. */
  lemma EveryRecordHasItsDay(cells: seq<Cell>, i: int, j: int)
    requires AllNonEmpty(cells)
    requires 0 <= i < |cells| && 0 <= j < |cells[i].1|
    ensures var entries := CellEntries(cells).value;
      |entries| == |cells| && Offset(entries, i) + j < |Concat(entries)|
      && var e := Concat(entries)[Offset(entries, i) + j];
      "day" in e && e["day"] == ReplaceNbsp(cells[i].0) && Nbsp !in e["day"]
  {
    FlattenOrder(cells, i, j);
    EntryKeepsDay(ReplaceNbsp(cells[i].0), cells[i].1[j]);
    ReplaceNbspClears(cells[i].0);
  }

  /**
   * get_events for one calendar page: the day labels, the event records of every cell, and
   * then the nested loop that labels each record with its day and appends it.
   */
  method GetEvents(cells: seq<Cell>) returns (r: Result<seq<Record>>)
    ensures r.Err? <==> !AllNonEmpty(cells)
    ensures r.Err? ==> r.error == IndexError
    ensures r.Ok? ==> r.value == Concat(CellEntries(cells).value)
  {
    var dayNames := seq(|cells|, c requires 0 <= c < |cells| => ReplaceNbsp(cells[c].0));
    var listed := ProcessCells(cells);
    if listed.Err? {
      return Err(listed.error);
    }
    var eventList := listed.value;
    ghost var entries := CellEntries(cells).value;
    assert |entries| == |dayNames| == |eventList| && forall c :: 0 <= c < |cells| ==> entries[c] == Labelled(dayNames[c], eventList[c]);
    var events := LabelAndAppend(dayNames, eventList, entries);
    r := Ok(events);
  }

  /** The nested loop of get_events: entry = dict(day=...); entry.update(event); events.append(entry). */
  method LabelAndAppend(dayNames: seq<string>, eventList: seq<seq<Record>>, ghost entries: seq<seq<Record>>)
    returns (events: seq<Record>)
    requires |dayNames| == |eventList| == |entries|
    requires forall c :: 0 <= c < |entries| ==> entries[c] == Labelled(dayNames[c], eventList[c])
    ensures events == Concat(entries)
  {
    events := [];
    var i := 0;
    while i < |eventList|
      invariant 0 <= i <= |eventList|
      invariant events == Concat(entries[..i])
    {
      var j := 0;
      while j < |eventList[i]|
        invariant 0 <= j <= |eventList[i]|
        invariant events == Concat(entries[..i]) + entries[i][..j]
      {
        var entry := map["day" := dayNames[i]];
        entry := entry + eventList[i][j];
        assert entry == entries[i][j];
        events := events + [entry];
        assert entries[i][..j + 1] == entries[i][..j] + [entry];
        j := j + 1;
      }
      assert entries[i][..j] == entries[i];
      assert entries[..i + 1] == entries[..i] + [entries[i]];
      ConcatAppend(entries[..i], entries[i]);
      i := i + 1;
    }
    assert entries[..i] == entries;
  }
}
