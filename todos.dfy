/**
 * The to-do list: entries, the seed list, and the pure effect of each
 * to-do operation of `ProductivityApp` on the stored sequence.
 */
module Todos {

  import opened Wrappers
  import opened Records

  /** `{id, text, completed, priority}`; `priority` only orders the display. */
  datatype Todo = Todo(id: int, text: string, completed: bool, priority: int)

  function TodoId(t: Todo): int
  {
    t.id
  }

  function TodoPriority(t: Todo): int
  {
    t.priority
  }

  /** The list used when nothing is stored yet. */
  function SeedTodos(): seq<Todo>
  {
    [Todo(1, "完成專案報告", false, 1), Todo(2, "準備明天的簡報", false, 2)]
  }

  function Flip(t: Todo): Todo
  {
    t.(completed := !t.completed)
  }

  /** `toggleTodo(id)`: the first to-do with the id changes its `completed`
      and nothing else; every other to-do is left as it is. */
  function Toggled(todos: seq<Todo>, id: int): (r: seq<Todo>)
    ensures |r| == |todos|
    ensures forall j :: 0 <= j < |todos| ==>
      && r[j].id == todos[j].id && r[j].text == todos[j].text && r[j].priority == todos[j].priority
      && (r[j].completed != todos[j].completed <==> FirstIndex(todos, TodoId, id) == Some(j))
  {
    UpdateFirst(todos, TodoId, id, Flip)
  }

  /** Toggling twice restores the list. */
  lemma ToggleTwice(todos: seq<Todo>, id: int)
    ensures Toggled(Toggled(todos, id), id) == todos
  {
    UpdateFirstTwice(todos, TodoId, id, Flip);
  }

  /** The edit branch of `saveTodo`: the edited to-do takes the new text and
      keeps its id, completion and priority; no other to-do changes. */
  function Renamed(todos: seq<Todo>, id: int, text: string): (r: seq<Todo>)
    ensures |r| == |todos|
    ensures forall j :: 0 <= j < |todos| ==>
      && r[j].id == todos[j].id && r[j].completed == todos[j].completed && r[j].priority == todos[j].priority
      && r[j].text == (if FirstIndex(todos, TodoId, id) == Some(j) then text else todos[j].text)
  {
    UpdateFirst(todos, TodoId, id, (t: Todo) => t.(text := text))
  }

  function Priorities(todos: seq<Todo>): (p: seq<int>)
    ensures |p| == |todos| && forall j :: 0 <= j < |todos| ==> p[j] == todos[j].priority
  {
    seq(|todos|, j requires 0 <= j < |todos| => todos[j].priority)
  }

  /** `reorderTodos(draggedId, targetId)`: when both ids are found, the two
      to-dos exchange priorities; nothing else changes, and nothing at all
      when either id is missing. */
  function Swapped(todos: seq<Todo>, draggedId: int, targetId: int): (r: seq<Todo>)
    ensures |r| == |todos|
    ensures forall j :: 0 <= j < |todos| ==>
      r[j].id == todos[j].id && r[j].text == todos[j].text && r[j].completed == todos[j].completed
    ensures FirstIndex(todos, TodoId, draggedId).None? || FirstIndex(todos, TodoId, targetId).None? ==> r == todos
    ensures FirstIndex(todos, TodoId, draggedId).Some? && FirstIndex(todos, TodoId, targetId).Some? ==>
      var i, k := FirstIndex(todos, TodoId, draggedId).value, FirstIndex(todos, TodoId, targetId).value;
      && r[i].priority == todos[k].priority
      && r[k].priority == todos[i].priority
      && forall j :: 0 <= j < |todos| && j != i && j != k ==> r[j] == todos[j]
  {
    match (FirstIndex(todos, TodoId, draggedId), FirstIndex(todos, TodoId, targetId))
    case (Some(i), Some(k)) =>
      todos[i := todos[i].(priority := todos[k].priority)][k := todos[k].(priority := todos[i].priority)]
    case _ => todos
  }

  /** Swapping the same pair again restores every priority. */
  lemma SwapTwice(todos: seq<Todo>, draggedId: int, targetId: int)
    ensures Swapped(Swapped(todos, draggedId, targetId), draggedId, targetId) == todos
  {
    var once := Swapped(todos, draggedId, targetId);
    FirstIndexSameIds(todos, once, TodoId, draggedId);
    FirstIndexSameIds(todos, once, TodoId, targetId);
  }

  /** A swap only permutes the priorities: it can neither create a duplicate
      priority nor lose one. */
  lemma SwapKeepsPriorities(todos: seq<Todo>, draggedId: int, targetId: int)
    ensures multiset(Priorities(Swapped(todos, draggedId, targetId))) == multiset(Priorities(todos))
  {
    var i, k := FirstIndex(todos, TodoId, draggedId), FirstIndex(todos, TodoId, targetId);
    var p := Priorities(todos);
    var q := Priorities(Swapped(todos, draggedId, targetId));
    if i.Some? && k.Some? && i.value != k.value {
      assert q == p[i.value := p[k.value]][k.value := p[i.value]];
      SwapPositionsMultiset(p, i.value, k.value);
    } else {
      assert q == p;
    }
  }

  lemma SwapPositionsMultiset(p: seq<int>, a: nat, b: nat)
    requires a < |p| && b < |p| && a != b
    ensures multiset(p[a := p[b]][b := p[a]]) == multiset(p)
  {
    var mid := p[a := p[b]];
    calc {
      multiset(mid[b := p[a]]);
      multiset(mid) - multiset{mid[b]} + multiset{p[a]};
      multiset(mid) - multiset{p[b]} + multiset{p[a]};
      (multiset(p) - multiset{p[a]} + multiset{p[b]}) - multiset{p[b]} + multiset{p[a]};
      multiset(p);
    }
  }

  /** The display order of `renderTodos`: a stable sort of a copy by
      ascending priority. */
  function ByPriority(todos: seq<Todo>): (r: seq<Todo>)
  {
    SortBy(todos, TodoPriority, IntLess)
  }

  /** The display holds the same to-dos, in ascending priority, and to-dos
      of equal priority appear in their stored order. */
  lemma ByPriorityOrdered(todos: seq<Todo>)
    ensures multiset(ByPriority(todos)) == multiset(todos)
    ensures forall i, j :: 0 <= i < j < |ByPriority(todos)| ==>
      ByPriority(todos)[i].priority <= ByPriority(todos)[j].priority
    ensures forall p :: WithKey(ByPriority(todos), TodoPriority, p) == WithKey(todos, TodoPriority, p)
  {
    IntLessIsStrictTotalOrder();
    SortBySorted(todos, TodoPriority, IntLess);
    forall p ensures WithKey(ByPriority(todos), TodoPriority, p) == WithKey(todos, TodoPriority, p) {
      SortByStable(todos, TodoPriority, IntLess, p);
    }
  }

  /** Two to-dos in descending priority are displayed the other way round. */
  lemma ByPriorityPair(x: Todo, y: Todo)
    requires y.priority < x.priority
    ensures ByPriority([x, y]) == [y, x]
  {
    assert [x, y][1..] == [y];
    assert SortBy([y], TodoPriority, IntLess) == [y];
    assert InsertBy(x, [y], TodoPriority, IntLess) == [y, x];
  }

  /** Swapping the two to-dos of a two-entry list moves the second one to
      the front of the display. */
  lemma SwapPairDisplay(a: Todo, b: Todo)
    requires a.id != b.id && a.priority < b.priority
    ensures var r := Swapped([a, b], a.id, b.id);
      && r == [a.(priority := b.priority), b.(priority := a.priority)]
      && ByPriority(r) == [r[1], r[0]]
  {
    var x, y := a.(priority := b.priority), b.(priority := a.priority);
    assert Swapped([a, b], a.id, b.id) == [x, y] by {
      assert FirstIndex([a, b], TodoId, a.id) == Some(0);
      assert FirstIndex([a, b], TodoId, b.id) == Some(1);
    }
    ByPriorityPair(x, y);
  }

  /** Swapping the two seed to-dos shows the second
      one first. */
  lemma ReorderSeed()
    ensures var r := Swapped(SeedTodos(), 1, 2);
      && r[0].priority == 2 && r[1].priority == 1
      && ByPriority(r) == [r[1], r[0]]
  {
    var a, b := SeedTodos()[0], SeedTodos()[1];
    assert SeedTodos() == [a, b];
    SwapPairDisplay(a, b);
  }

  /** Priorities can repeat, though not through `reorderTodos`: after the
      first seed to-do is deleted, a new to-do gets priority `length + 1`,
      which is the priority the remaining seed to-do already has. */
  lemma DeleteThenAddRepeatsPriority(freshId: int, text: string)
    ensures var kept := RemoveId(SeedTodos(), TodoId, 1);
      var after := kept + [Todo(freshId, text, false, |kept| + 1)];
      |after| == 2 && after[0].priority == 2 && after[1].priority == 2
  {
    var seed := SeedTodos();
    RemoveIdFirst(seed, TodoId, 1);
    RemoveIdFirst(seed[1..], TodoId, 1);
    assert seed[1..][1..] == [];
  }
}
