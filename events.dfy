/**
 * The calendar's event store: events grouped by ISO date key, and the
 * effect of `saveEvent` and `deleteEvent` on that map.
 */
module Events {

  import opened Wrappers
  import opened Records
  import opened Text

  /** `{id, name, startTime, endTime, location, notes}`, the times "HH:MM". */
  datatype Event = Event(id: int, name: string, startTime: string, endTime: string,
                         location: string, notes: string)

  function EventId(e: Event): int
  {
    e.id
  }

  function StartTime(e: Event): string
  {
    e.startTime
  }

  /** Events by "YYYY-MM-DD" date key. */
  type EventMap = map<string, seq<Event>>

  /** `this.events[date] || []`. */
  function EventsOn(events: EventMap, date: string): (list: seq<Event>)
  {
    if date in events then events[date] else []
  }

  /** What the store keeps true of its map: no date keeps an empty list,
      and every date's list is in ascending start-time order. */
  ghost predicate WellFormed(events: EventMap)
  {
    forall date :: date in events ==> events[date] != [] && SortedBy(events[date], StartTime, LexLess)
  }

  /** The in-place `sort` by `startTime.localeCompare`, as a stable sort. */
  function ByStartTime(list: seq<Event>): (r: seq<Event>)
  {
    SortBy(list, StartTime, LexLess)
  }

  /** The sort keeps the events, orders them by start time, and keeps
      events that start at the same time in their previous order. */
  lemma ByStartTimeOrdered(list: seq<Event>)
    ensures multiset(ByStartTime(list)) == multiset(list)
    ensures SortedBy(ByStartTime(list), StartTime, LexLess)
    ensures forall t :: WithKey(ByStartTime(list), StartTime, t) == WithKey(list, StartTime, t)
  {
    LexLessIsStrictTotalOrder();
    SortBySorted(list, StartTime, LexLess);
    forall t ensures WithKey(ByStartTime(list), StartTime, t) == WithKey(list, StartTime, t) {
      SortByStable(list, StartTime, LexLess, t);
    }
  }

  /** The edit branch of `saveEvent`: the edited event takes the new fields
      and keeps its id; no other event of the list changes. */
  function Redone(list: seq<Event>, id: int, name: string, startTime: string, endTime: string,
                  location: string, notes: string): (r: seq<Event>)
    ensures |r| == |list|
    ensures forall j :: 0 <= j < |list| ==>
      r[j] == (if FirstIndex(list, EventId, id) == Some(j)
               then Event(list[j].id, name, startTime, endTime, location, notes) else list[j])
  {
    UpdateFirst(list, EventId, id,
      (e: Event) => e.(name := name, startTime := startTime, endTime := endTime,
                       location := location, notes := notes))
  }

  /** The day's list before sorting: the new event pushed at the end, or
      the edited one rewritten. */
  function Changed(list: seq<Event>, editing: Option<int>, freshId: int, name: string,
                   startTime: string, endTime: string, location: string, notes: string): (changed: seq<Event>)
  {
    match editing
    case None => list + [Event(freshId, name, startTime, endTime, location, notes)]
    case Some(id) => Redone(list, id, name, startTime, endTime, location, notes)
  }

  /** `saveEvent` on the map, with the fields already read and trimmed.
      A missing name, start or end time leaves the map as it is (no key is
      created); otherwise the date's list gains the new event, or has the
      edited one changed, and is left sorted by start time. No other date
      is touched. */
  function Saved(events: EventMap, date: string, editing: Option<int>, freshId: int,
                 name: string, startTime: string, endTime: string,
                 location: string, notes: string): (r: EventMap)
    ensures name == [] || startTime == [] || endTime == [] ==> r == events
    ensures name != [] && startTime != [] && endTime != [] ==>
      && date in r
      && SortedBy(r[date], StartTime, LexLess)
      && multiset(r[date]) == (match editing
           case None => multiset(EventsOn(events, date)) + multiset{Event(freshId, name, startTime, endTime, location, notes)}
           case Some(id) => multiset(Redone(EventsOn(events, date), id, name, startTime, endTime, location, notes)))
    ensures forall d :: d != date ==> (d in r <==> d in events) && (d in r ==> r[d] == events[d])
  {
    if name == [] || startTime == [] || endTime == [] then events
    else
      var changed := Changed(EventsOn(events, date), editing, freshId, name, startTime, endTime, location, notes);
      assert SortedBy(ByStartTime(changed), StartTime, LexLess) && multiset(ByStartTime(changed)) == multiset(changed) by {
        ByStartTimeOrdered(changed);
      }
      events[date := ByStartTime(changed)]
  }

  /** Creating an event grows the date's list by one; editing keeps its length. */
  lemma SavedLength(events: EventMap, date: string, editing: Option<int>, freshId: int,
                    name: string, startTime: string, endTime: string, location: string, notes: string)
    requires name != [] && startTime != [] && endTime != []
    ensures var r := Saved(events, date, editing, freshId, name, startTime, endTime, location, notes);
      |r[date]| == |EventsOn(events, date)| + (if editing.None? then 1 else 0)
  {
    var r := Saved(events, date, editing, freshId, name, startTime, endTime, location, notes);
    assert |r[date]| == |multiset(r[date])|;
  }

  /** Saving keeps the store well formed, unless an edit names a date that
      has no list: the source then stores an empty list for it. */
  lemma SavedWellFormed(events: EventMap, date: string, editing: Option<int>, freshId: int,
                        name: string, startTime: string, endTime: string, location: string, notes: string)
    requires WellFormed(events)
    requires editing.None? || date in events
    ensures WellFormed(Saved(events, date, editing, freshId, name, startTime, endTime, location, notes))
  {
    var r := Saved(events, date, editing, freshId, name, startTime, endTime, location, notes);
    if name != [] && startTime != [] && endTime != [] {
      assert r[date] != [] by {
        SavedLength(events, date, editing, freshId, name, startTime, endTime, location, notes);
      }
      forall d | d in r ensures r[d] != [] && SortedBy(r[d], StartTime, LexLess) {
        if d != date {
          assert d in events && r[d] == events[d];
        }
      }
    }
  }

  /** `deleteEvent(id)` for the selected date: nothing happens when the
      date has no list; otherwise the events with the id are filtered out
      and the key is deleted when no event is left. No other date is
      touched, and the date never keeps an empty list. */
  function Deleted(events: EventMap, date: string, id: int): (r: EventMap)
    ensures date !in events ==> r == events
    ensures date in events ==>
      && (date in r <==> RemoveId(events[date], EventId, id) != [])
      && (date in r ==> r[date] == RemoveId(events[date], EventId, id))
    ensures date in r ==> r[date] != []
    ensures forall d :: d != date ==> (d in r <==> d in events) && (d in r ==> r[d] == events[d])
  {
    if date !in events then events
    else
      var rest := RemoveId(events[date], EventId, id);
      if rest == [] then events - {date} else events[date := rest]
  }

  /** Deleting keeps the store well formed. */
  lemma DeletedWellFormed(events: EventMap, date: string, id: int)
    requires WellFormed(events)
    ensures WellFormed(Deleted(events, date, id))
  {
    if date in events {
      RemoveIdSorted(events[date], EventId, id, StartTime, LexLess);
    }
  }

  /** Deleting the last event of a date removes the date: a later lookup
      gives the empty list. */
  lemma DeleteLastEvent(events: EventMap, date: string, e: Event)
    requires date in events && events[date] == [e]
    ensures date !in Deleted(events, date, e.id)
    ensures EventsOn(Deleted(events, date, e.id), date) == []
  {
    assert RemoveId([e], EventId, e.id) == [];
  }

  /** Adding the first event of a day and deleting it again leaves the map
      as it was: no empty list is left behind for the day. */
  lemma SaveThenDeleteFirstEvent(events: EventMap, date: string, freshId: int,
                                 name: string, startTime: string, endTime: string, location: string, notes: string)
    requires date !in events
    requires name != [] && startTime != [] && endTime != []
    ensures Deleted(Saved(events, date, None, freshId, name, startTime, endTime, location, notes), date, freshId) == events
  {
    var e := Event(freshId, name, startTime, endTime, location, notes);
    assert ByStartTime([] + [e]) == [e];
    var saved := Saved(events, date, None, freshId, name, startTime, endTime, location, notes);
    assert saved == events[date := [e]];
    DeleteLastEvent(saved, date, e);
    assert saved - {date} == events;
  }

  /** "Math Class" at 09:00 and then "Lunch" at 08:00
      on the same day leave the day's list as [Lunch, Math Class]. */
  lemma SaveTwoEvents()
    ensures var math := Event(1, "Math Class", "09:00", "10:00", "", "");
      var lunch := Event(2, "Lunch", "08:00", "08:30", "", "");
      var once := Saved(map[], "2025-08-20", None, 1, "Math Class", "09:00", "10:00", "", "");
      Saved(once, "2025-08-20", None, 2, "Lunch", "08:00", "08:30", "", "")["2025-08-20"] == [lunch, math]
  {
    var math := Event(1, "Math Class", "09:00", "10:00", "", "");
    var lunch := Event(2, "Lunch", "08:00", "08:30", "", "");
    assert ByStartTime([math]) == [math];
    assert LexLess("08:00", "09:00");
    assert InsertBy(lunch, [], StartTime, LexLess) == [lunch];
    assert ByStartTime([lunch]) == [lunch];
    assert InsertBy(math, [lunch], StartTime, LexLess) == [lunch, math];
  }
}
