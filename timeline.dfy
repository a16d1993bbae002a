/**
 * The day view of `renderEventTimeline`: one row per hour of the day,
 * each holding the events of the selected date whose start time falls in
 * that hour.
 */
module Timeline {

  import opened Wrappers
  import opened Text
  import opened Records
  import opened Events

  /** One row of the day view: its "HH:00" label and its events. */
  datatype Row = Row(heading: string, events: seq<Event>)

  predicate NotColon(c: char)
  {
    c != ':'
  }

  /** `parseInt(event.startTime.split(':')[0])`: the numeral before the
      first colon, or the whole start time when it has none. */
  function HourOf(e: Event): (hour: Option<int>)
  {
    ParseInt(TakeWhile(e.startTime, NotColon))
  }

  /** `hour.toString().padStart(2, '0') + ':00'`, also the start time the
      row's "add" button proposes. */
  function HourLabel(hour: nat): (heading: string)
  {
    PadDigits(hour, 2) + ":00"
  }

  /** `dayEvents.filter(event => eventHour === hour)`. */
  function HourEvents(dayEvents: seq<Event>, hour: int): (row: seq<Event>)
  {
    Filter(dayEvents, (e: Event) => HourOf(e) == Some(hour))
  }

  /** The 24 rows, for the hours 0 to 23 in order. */
  function Timeline(dayEvents: seq<Event>): (rows: seq<Row>)
    ensures |rows| == 24
  {
    seq(24, h requires 0 <= h < 24 => Row(HourLabel(h), HourEvents(dayEvents, h)))
  }

  /** The row of hour `h` is labelled with the hour and holds exactly the
      day's events whose start time parses to `h`, each as often as the day
      has it, in the day's order. */
  lemma TimelineRow(dayEvents: seq<Event>, h: int)
    requires 0 <= h < 24
    ensures Timeline(dayEvents)[h].heading == HourLabel(h)
    ensures forall e :: e in Timeline(dayEvents)[h].events <==> e in dayEvents && HourOf(e) == Some(h)
    ensures IsSubsequence(Timeline(dayEvents)[h].events, dayEvents)
    ensures forall e ::
              multiset(Timeline(dayEvents)[h].events)[e] == if HourOf(e) == Some(h) then multiset(dayEvents)[e] else 0
  {
    forall e ensures e in Timeline(dayEvents)[h].events <==> e in dayEvents && HourOf(e) == Some(h) {
      FilterContains(dayEvents, (e: Event) => HourOf(e) == Some(h), e);
    }
    FilterIsSubsequence(dayEvents, (e: Event) => HourOf(e) == Some(h));
    forall e
      ensures multiset(Timeline(dayEvents)[h].events)[e] == if HourOf(e) == Some(h) then multiset(dayEvents)[e] else 0
    {
      FilterCount(dayEvents, (e: Event) => HourOf(e) == Some(h), e);
    }
  }

  /** Every event of the day lands in the row of its start hour and in no
      other; an event whose hour does not parse, or parses outside 0..23,
      lands in no row at all. */
  lemma EventRows(dayEvents: seq<Event>, e: Event)
    requires e in dayEvents
    ensures forall h :: 0 <= h < 24 ==> (e in Timeline(dayEvents)[h].events <==> HourOf(e) == Some(h))
    ensures (HourOf(e).None? || !(0 <= HourOf(e).value < 24)) ==>
      forall h :: 0 <= h < 24 ==> e !in Timeline(dayEvents)[h].events
  {
    forall h | 0 <= h < 24 ensures e in Timeline(dayEvents)[h].events <==> HourOf(e) == Some(h) {
      TimelineRow(dayEvents, h);
    }
  }

  /** A start time "HH:MM" (two digits, then a colon) has hour HH. */
  lemma HourOfTime(e: Event)
    requires |e.startTime| >= 3 && IsDigit(e.startTime[0]) && IsDigit(e.startTime[1]) && e.startTime[2] == ':'
    ensures HourOf(e) == Some(DecimalValue(e.startTime[..2]))
  {
    var s := e.startTime;
    var before := TakeWhile(s, NotColon);
    assert before == s[..2] by {
      assert NotColon(s[0]) && NotColon(s[1]) && !NotColon(s[2]);
    }
    ParseIntDecimal(s[..2]);
  }

  /** An event created from a row's "add" button, which proposes the row's
      label as start time, is shown in that row. */
  lemma LabelHour(e: Event, h: nat)
    requires h < 24 && e.startTime == HourLabel(h)
    ensures HourOf(e) == Some(h)
  {
    PadDigitsLength(h, 2);
    PadDigitsValue(h, 2);
    assert e.startTime[..2] == PadDigits(h, 2);
    HourOfTime(e);
  }

  /** An event starting at 09:15 is listed under
      09:00 and under no other hour. */
  lemma NineFifteen(dayEvents: seq<Event>, e: Event)
    requires e in dayEvents && e.startTime == "09:15"
    ensures e in Timeline(dayEvents)[9].events
    ensures forall h :: 0 <= h < 24 && h != 9 ==> e !in Timeline(dayEvents)[h].events
  {
    assert e.startTime[..2] == "09";
    assert DecimalValue("09") == 9 by {
      assert "09"[..1] == "0";
    }
    HourOfTime(e);
    EventRows(dayEvents, e);
  }

  /** `renderEventTimeline`'s loop over the hours of the selected date:
      the rows it builds are the day view. */
  method RenderEventTimeline(events: EventMap, selectedDate: string) returns (rows: seq<Row>)
    ensures rows == Timeline(EventsOn(events, selectedDate))
  {
    var dayEvents := EventsOn(events, selectedDate);
    rows := [];
    for hour := 0 to 24
      invariant |rows| == hour
      invariant forall h :: 0 <= h < hour ==> rows[h] == Timeline(dayEvents)[h]
    {
      var hourStr := HourLabel(hour);
      var hourEvents := HourEvents(dayEvents, hour);
      rows := rows + [Row(hourStr, hourEvents)];
    }
  }
}
