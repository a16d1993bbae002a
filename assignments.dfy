/**
 * The assignment tracker: entries, the seed list, the edit applied by
 * `saveAssignment` and the due-date order of `renderAssignments`.
 */
module Assignments {

  import opened Wrappers
  import opened Records
  import opened Text

  /** `{id, name, dueDate}`, the due date an ISO "YYYY-MM-DD" string. */
  datatype Assignment = Assignment(id: int, name: string, dueDate: string)

  function AssignmentId(a: Assignment): int
  {
    a.id
  }

  function DueDate(a: Assignment): string
  {
    a.dueDate
  }

  /** The list used when nothing is stored yet. */
  function SeedAssignments(): seq<Assignment>
  {
    [Assignment(1, "數學作業", "2025-08-20"), Assignment(2, "英文報告", "2025-08-25")]
  }

  /** The edit branch of `saveAssignment`: the edited assignment takes the
      new name and due date and keeps its id; no other assignment changes. */
  function Reworded(assignments: seq<Assignment>, id: int, name: string, dueDate: string): (r: seq<Assignment>)
    ensures |r| == |assignments|
    ensures forall j :: 0 <= j < |assignments| ==>
      && r[j].id == assignments[j].id
      && r[j] == (if FirstIndex(assignments, AssignmentId, id) == Some(j)
                  then Assignment(assignments[j].id, name, dueDate) else assignments[j])
  {
    UpdateFirst(assignments, AssignmentId, id, (a: Assignment) => a.(name := name, dueDate := dueDate))
  }

  /** The display order of `renderAssignments`: a stable sort of a copy by
      due date. */
  function ByDueDate(assignments: seq<Assignment>): (r: seq<Assignment>)
  {
    SortBy(assignments, DueDate, LexLess)
  }

  /** The display holds the same assignments, and one due on an earlier
      date is always shown before one due on a later date. */
  lemma ByDueDateOrdered(assignments: seq<Assignment>)
    ensures multiset(ByDueDate(assignments)) == multiset(assignments)
    ensures forall i, j ::
      0 <= i < |ByDueDate(assignments)| && 0 <= j < |ByDueDate(assignments)| &&
      LexLess(ByDueDate(assignments)[i].dueDate, ByDueDate(assignments)[j].dueDate)
      ==> i < j
  {
    LexLessIsStrictTotalOrder();
    SortBySorted(assignments, DueDate, LexLess);
    var r := ByDueDate(assignments);
    forall i, j | 0 <= i < |r| && 0 <= j < |r| && LexLess(r[i].dueDate, r[j].dueDate) ensures i < j {
      if i == j {
        LexLessIrreflexive(r[i].dueDate);
      }
    }
  }
}
