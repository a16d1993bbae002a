/**
 * `ProductivityApp`'s store: the four collections it owns and the ten
 * operations that change them in place. Form fields arrive as parameters,
 * untrimmed, exactly as the form holds them; `editing` is the id of the
 * entry the open form edits (none when it creates one) and `freshId` the id
 * `Date.now()` would give a new entry.
 */
module App {

  import opened Wrappers
  import opened Text
  import opened Records
  import opened Todos
  import opened Assignments
  import opened Websites
  import opened Events

  class ProductivityApp {

    var todos: seq<Todo>
    var assignments: seq<Assignment>
    var websites: seq<Website>
    var events: EventMap

    /** Each collection is the stored snapshot, or the seed data (an empty
        map for events) when nothing was stored. */
    constructor(storedTodos: Option<seq<Todo>>, storedAssignments: Option<seq<Assignment>>,
                storedWebsites: Option<seq<Website>>, storedEvents: Option<EventMap>)
      ensures todos == (if storedTodos.Some? then storedTodos.value else SeedTodos())
      ensures assignments == (if storedAssignments.Some? then storedAssignments.value else SeedAssignments())
      ensures websites == (if storedWebsites.Some? then storedWebsites.value else SeedWebsites())
      ensures events == (if storedEvents.Some? then storedEvents.value else map[])
    {
      todos := if storedTodos.Some? then storedTodos.value else SeedTodos();
      assignments := if storedAssignments.Some? then storedAssignments.value else SeedAssignments();
      websites := if storedWebsites.Some? then storedWebsites.value else SeedWebsites();
      events := if storedEvents.Some? then storedEvents.value else map[];
    }

    /** `saveTodo`: a blank text changes nothing; an edit renames the
        edited to-do; otherwise one open to-do is appended, ranked after as
        many to-dos as the list holds. */
    method SaveTodo(rawText: string, editing: Option<int>, freshId: int)
      modifies this
      ensures Trim(rawText) == [] ==> todos == old(todos)
      ensures Trim(rawText) != [] && editing.Some? ==> todos == Renamed(old(todos), editing.value, Trim(rawText))
      ensures Trim(rawText) != [] && editing.None? ==>
        todos == old(todos) + [Todo(freshId, Trim(rawText), false, |old(todos)| + 1)]
      ensures assignments == old(assignments) && websites == old(websites) && events == old(events)
    {
      var text := Trim(rawText);
      if text == [] {
        return;
      }
      PutTodo(text, editing, freshId);
    }

    /** The writing half of `saveTodo`, once the text is read: an edit
        renames the edited to-do, otherwise a new one is appended. */
    method PutTodo(text: string, editing: Option<int>, freshId: int)
      modifies this
      ensures editing.Some? ==> todos == Renamed(old(todos), editing.value, text)
      ensures editing.None? ==> todos == old(todos) + [Todo(freshId, text, false, |old(todos)| + 1)]
      ensures assignments == old(assignments) && websites == old(websites) && events == old(events)
    {
      match editing {
        case Some(id) =>
          var found := Find(todos, TodoId, id);
          if found.Some? {
            var k := found.value;
            todos := todos[k := todos[k].(text := text)];
          }
        case None =>
          todos := todos + [Todo(freshId, text, false, |todos| + 1)];
      }
    }

    /** `toggleTodo`: the to-do with the id flips its completion. */
    method ToggleTodo(id: int)
      modifies this
      ensures todos == Toggled(old(todos), id)
      ensures assignments == old(assignments) && websites == old(websites) && events == old(events)
    {
      var found := Find(todos, TodoId, id);
      if found.Some? {
        var k := found.value;
        todos := todos[k := todos[k].(completed := !todos[k].completed)];
      }
    }

    /** `deleteTodo`: the to-dos with the id are filtered out. */
    method DeleteTodo(id: int)
      modifies this
      ensures todos == RemoveId(old(todos), TodoId, id)
      ensures assignments == old(assignments) && websites == old(websites) && events == old(events)
    {
      todos := RemoveId(todos, TodoId, id);
    }

    /** `reorderTodos`: the dragged and the target to-do exchange their
        priorities, when both are found. */
    method ReorderTodos(draggedId: int, targetId: int)
      modifies this
      ensures todos == Swapped(old(todos), draggedId, targetId)
      ensures assignments == old(assignments) && websites == old(websites) && events == old(events)
    {
      var dragged := Find(todos, TodoId, draggedId);
      var target := Find(todos, TodoId, targetId);
      if dragged.None? || target.None? {
        return;
      }
      var i, k := dragged.value, target.value;
      var draggedPriority := todos[i].priority;
      var targetPriority := todos[k].priority;
      todos := todos[i := todos[i].(priority := targetPriority)];
      todos := todos[k := todos[k].(priority := draggedPriority)];
    }

    /** `saveAssignment`: a blank name or an empty due date changes nothing;
        an edit rewrites the edited assignment; otherwise one is appended. */
    method SaveAssignment(rawName: string, dueDate: string, editing: Option<int>, freshId: int)
      modifies this
      ensures Trim(rawName) == [] || dueDate == [] ==> assignments == old(assignments)
      ensures Trim(rawName) != [] && dueDate != [] && editing.Some? ==>
        assignments == Assignments.Reworded(old(assignments), editing.value, Trim(rawName), dueDate)
      ensures Trim(rawName) != [] && dueDate != [] && editing.None? ==>
        assignments == old(assignments) + [Assignment(freshId, Trim(rawName), dueDate)]
      ensures todos == old(todos) && websites == old(websites) && events == old(events)
    {
      var name := Trim(rawName);
      if name == [] || dueDate == [] {
        return;
      }
      PutAssignment(name, dueDate, editing, freshId);
    }

    /** The writing half of `saveAssignment`, once the fields are read: an
        edit rewrites the edited assignment, otherwise one is appended. */
    method PutAssignment(name: string, dueDate: string, editing: Option<int>, freshId: int)
      modifies this
      ensures editing.Some? ==> assignments == Assignments.Reworded(old(assignments), editing.value, name, dueDate)
      ensures editing.None? ==> assignments == old(assignments) + [Assignment(freshId, name, dueDate)]
      ensures todos == old(todos) && websites == old(websites) && events == old(events)
    {
      match editing {
        case Some(id) =>
          var found := Find(assignments, AssignmentId, id);
          if found.Some? {
            var k := found.value;
            assignments := assignments[k := assignments[k].(name := name, dueDate := dueDate)];
          }
        case None =>
          assignments := assignments + [Assignment(freshId, name, dueDate)];
      }
    }

    /** `deleteAssignment`: the assignments with the id are filtered out. */
    method DeleteAssignment(id: int)
      modifies this
      ensures assignments == RemoveId(old(assignments), AssignmentId, id)
      ensures todos == old(todos) && websites == old(websites) && events == old(events)
    {
      assignments := RemoveId(assignments, AssignmentId, id);
    }

    /** `saveWebsite`: a blank name or URL changes nothing; the icon stored
        is the trimmed one, or the globe when it is blank. */
    method SaveWebsite(rawName: string, rawUrl: string, rawIcon: string, editing: Option<int>, freshId: int)
      modifies this
      ensures Trim(rawName) == [] || Trim(rawUrl) == [] ==> websites == old(websites)
      ensures Trim(rawName) != [] && Trim(rawUrl) != [] && editing.Some? ==>
        websites == Websites.Reworded(old(websites), editing.value, Trim(rawName), Trim(rawUrl), StoredIcon(rawIcon))
      ensures Trim(rawName) != [] && Trim(rawUrl) != [] && editing.None? ==>
        websites == old(websites) + [Website(freshId, Trim(rawName), Trim(rawUrl), StoredIcon(rawIcon))]
      ensures todos == old(todos) && assignments == old(assignments) && events == old(events)
    {
      var name := Trim(rawName);
      var url := Trim(rawUrl);
      var icon := Trim(rawIcon);
      if name == [] || url == [] {
        return;
      }
      PutWebsite(name, url, if icon == [] then DefaultIcon else icon, editing, freshId);
    }

    /** The writing half of `saveWebsite`, once the fields are read: an edit
        rewrites the edited website, otherwise one is appended. */
    method PutWebsite(name: string, url: string, icon: string, editing: Option<int>, freshId: int)
      modifies this
      ensures editing.Some? ==> websites == Websites.Reworded(old(websites), editing.value, name, url, icon)
      ensures editing.None? ==> websites == old(websites) + [Website(freshId, name, url, icon)]
      ensures todos == old(todos) && assignments == old(assignments) && events == old(events)
    {
      match editing {
        case Some(id) =>
          var found := Find(websites, WebsiteId, id);
          if found.Some? {
            var k := found.value;
            websites := websites[k := websites[k].(name := name, url := url, icon := icon)];
          }
        case None =>
          websites := websites + [Website(freshId, name, url, icon)];
      }
    }

    /** `deleteWebsite`: the websites with the id are filtered out. */
    method DeleteWebsite(id: int)
      modifies this
      ensures websites == RemoveId(old(websites), WebsiteId, id)
      ensures todos == old(todos) && assignments == old(assignments) && events == old(events)
    {
      websites := RemoveId(websites, WebsiteId, id);
    }

    /** `saveEvent` for the selected date: the name, location and notes are
        trimmed, the times are taken as they are; the new map is `Saved`, and
        a well-formed map stays well formed unless an edit names a date
        without a list. */
    method SaveEvent(selectedDate: string, editing: Option<int>, freshId: int, rawName: string,
                     startTime: string, endTime: string, rawLocation: string, rawNotes: string)
      modifies this
      ensures events == Saved(old(events), selectedDate, editing, freshId, Trim(rawName),
                              startTime, endTime, Trim(rawLocation), Trim(rawNotes))
      ensures old(WellFormed(events)) && (editing.None? || selectedDate in old(events)) ==> WellFormed(events)
      ensures todos == old(todos) && assignments == old(assignments) && websites == old(websites)
    {
      var name := Trim(rawName);
      var location := Trim(rawLocation);
      var notes := Trim(rawNotes);
      if name == [] || startTime == [] || endTime == [] {
        return;
      }
      PutEvent(selectedDate, editing, freshId, name, startTime, endTime, location, notes);
    }

    /** The writing half of `saveEvent`, once the fields are read and found
        present: the date gets a list if it has none, the event is appended
        or the edited one rewritten, and the list is sorted by start time. */
    method PutEvent(selectedDate: string, editing: Option<int>, freshId: int, name: string,
                    startTime: string, endTime: string, location: string, notes: string)
      requires name != [] && startTime != [] && endTime != []
      modifies this
      ensures events == Saved(old(events), selectedDate, editing, freshId, name, startTime, endTime, location, notes)
      ensures old(WellFormed(events)) && (editing.None? || selectedDate in old(events)) ==> WellFormed(events)
      ensures todos == old(todos) && assignments == old(assignments) && websites == old(websites)
    {
      ghost var before := events;
      if selectedDate !in events {
        events := events[selectedDate := []];
      }
      var list := events[selectedDate];
      assert list == EventsOn(before, selectedDate);
      match editing {
        case Some(id) =>
          var found := Find(list, EventId, id);
          if found.Some? {
            var k := found.value;
            list := list[k := list[k].(name := name, startTime := startTime, endTime := endTime,
                                       location := location, notes := notes)];
          }
          assert list == Redone(EventsOn(before, selectedDate), id, name, startTime, endTime, location, notes);
        case None =>
          list := list + [Event(freshId, name, startTime, endTime, location, notes)];
      }
      ghost var changed := Changed(EventsOn(before, selectedDate), editing, freshId, name, startTime, endTime, location, notes);
      assert list == changed;
      events := events[selectedDate := ByStartTime(list)];
      assert events == before[selectedDate := ByStartTime(changed)] by {
        if selectedDate !in before {
          OverwriteKey(before, selectedDate, [], ByStartTime(changed));
        }
      }
      assert WellFormed(before) && (editing.None? || selectedDate in before) ==> WellFormed(events) by {
        if WellFormed(before) && (editing.None? || selectedDate in before) {
          SavedWellFormed(before, selectedDate, editing, freshId, name, startTime, endTime, location, notes);
        }
      }
    }

    /** `deleteEvent` for the selected date: the new map is `Deleted`, and
        a well-formed map stays well formed. */
    method DeleteEvent(selectedDate: string, id: int)
      modifies this
      ensures events == Deleted(old(events), selectedDate, id)
      ensures old(WellFormed(events)) ==> WellFormed(events)
      ensures todos == old(todos) && assignments == old(assignments) && websites == old(websites)
    {
      ghost var before := events;
      if selectedDate !in events {
        return;
      }
      events := events[selectedDate := RemoveId(events[selectedDate], EventId, id)];
      if |events[selectedDate]| == 0 {
        events := events - {selectedDate};
      }
      assert events == Deleted(before, selectedDate, id);
      assert WellFormed(before) ==> WellFormed(events) by {
        if WellFormed(before) {
          DeletedWellFormed(before, selectedDate, id);
        }
      }
    }
  }
}
