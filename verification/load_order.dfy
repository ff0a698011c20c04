/**
 * The ordering `load()` applies to the decoded list: tasks with a due date
 * first, earliest date first, tasks without a due date last.
 */
module LoadOrder {
  import opened Wrappers
  import opened Tasks

  /** The closure `load()` hands to `tasks.sort`: true when `a` is to be placed
      before `b`. Its `(_, nil)` case also answers true when neither task has a
      due date, so the closure is not a strict order and the `default` case
      after it is never reached. */
  predicate DueBefore(a: Task, b: Task) {
    match (a.dueDate, b.dueDate)
    case (Some(x), Some(y)) => x < y
    case (_, None) => true
    case (None, _) => false
  }

  /** `a` may stand before `b` in the loaded list: a dated task before an
      undated one, two dated tasks in date order, two undated tasks either way. */
  predicate MayPrecede(a: Task, b: Task) {
    match (a.dueDate, b.dueDate)
    case (Some(x), Some(y)) => x <= y
    case (_, None) => true
    case (None, Some(_)) => false
  }

  /** Every pair of positions is in load order. */
  predicate InLoadOrder(tasks: seq<Task>) {
    forall i, j :: 0 <= i < j < |tasks| ==> MayPrecede(tasks[i], tasks[j])
  }

  /** The closure says "before" for an undated task and itself: it is not
      irreflexive, so it is not the strict weak ordering `sort` asks for. */
  lemma DueBeforeIsReflexiveOnUndated(a: Task)
    requires a.dueDate.None?
    ensures DueBefore(a, a)
  {
  }

  /** On dated tasks the closure is a strict order: irreflexive and transitive. */
  lemma DueBeforeStrictOnDated(a: Task, b: Task, c: Task)
    requires a.dueDate.Some? && b.dueDate.Some? && c.dueDate.Some?
    ensures !DueBefore(a, a)
    ensures DueBefore(a, b) && DueBefore(b, c) ==> DueBefore(a, c)
  {
  }

  /** Load order means: no later task is one the closure would have put strictly
      before an earlier one, except between two undated tasks, where the closure
      contradicts itself. */
  lemma MayPrecedeMatchesClosure(a: Task, b: Task)
    ensures MayPrecede(a, b) <==> !DueBefore(b, a) || (a.dueDate.None? && b.dueDate.None?)
  {
  }

  /** Load order, stated as the two properties `load()` is after: every dated
      task precedes every undated one, and dates never decrease. */
  lemma InLoadOrderMeans(tasks: seq<Task>)
    requires InLoadOrder(tasks)
    ensures forall i, j :: 0 <= i < j < |tasks| && tasks[j].dueDate.Some? ==> tasks[i].dueDate.Some?
    ensures forall i, j :: 0 <= i < j < |tasks| && tasks[i].dueDate.Some? && tasks[j].dueDate.Some? ==>
              tasks[i].dueDate.value <= tasks[j].dueDate.value
  {
  }

  /** Load order may be chained: it is transitive. */
  lemma MayPrecedeTransitive(a: Task, b: Task, c: Task)
    requires MayPrecede(a, b) && MayPrecede(b, c)
    ensures MayPrecede(a, c)
  {
  }

  /** A task that may precede every task of a list in load order may be put
      in front of it. */
  lemma PrependKeepsOrder(t: Task, sorted: seq<Task>)
    requires InLoadOrder(sorted)
    requires forall k :: 0 <= k < |sorted| ==> MayPrecede(t, sorted[k])
    ensures InLoadOrder([t] + sorted)
  {
  }

  /** Places `t` into a list already in load order, before the first task it
      may precede. */
  function Insert(t: Task, sorted: seq<Task>): (r: seq<Task>)
    requires InLoadOrder(sorted)
    ensures InLoadOrder(r)
    ensures multiset(r) == multiset(sorted) + multiset{t}
    ensures forall k :: 0 <= k < |r| ==> r[k] == t || r[k] in sorted
  {
    if sorted == [] then [t]
    else if MayPrecede(t, sorted[0]) then
      forall k | 0 <= k < |sorted| ensures MayPrecede(t, sorted[k]) {
        if k > 0 {
          MayPrecedeTransitive(t, sorted[0], sorted[k]);
        }
      }
      PrependKeepsOrder(t, sorted);
      [t] + sorted
    else
      var head := sorted[0];
      var rest := Insert(t, sorted[1..]);
      assert sorted == [head] + sorted[1..];
      forall k | 0 <= k < |rest| ensures MayPrecede(head, rest[k]) {
        if rest[k] != t {
          var m :| 0 <= m < |sorted[1..]| && sorted[1..][m] == rest[k];
          assert sorted[m + 1] == rest[k];
        }
      }
      PrependKeepsOrder(head, rest);
      [head] + rest
  }

  /** `tasks.sort { … }` in `load()`: a rearrangement of the decoded list in
      load order. */
  function SortForLoad(tasks: seq<Task>): (r: seq<Task>)
    ensures InLoadOrder(r)
    ensures multiset(r) == multiset(tasks)
  {
    if tasks == [] then []
    else
      assert tasks == [tasks[0]] + tasks[1..];
      Insert(tasks[0], SortForLoad(tasks[1..]))
  }

  /** What reading `tasks.json` gave: no data at all, data that is not a JSON
      list of tasks, or the decoded list. */
  datatype SavedFile = Unreadable | Malformed | Decoded(tasks: seq<Task>)

  /** `load()`: an unreadable file returns early and keeps the current list
      (unsorted); a malformed one yields the empty list; a decoded one is
      sorted into load order. */
  function Load(current: seq<Task>, file: SavedFile): (r: seq<Task>)
    ensures file.Unreadable? ==> r == current
    ensures file.Malformed? ==> r == []
    ensures file.Decoded? ==> multiset(r) == multiset(file.tasks) && InLoadOrder(r)
  {
    match file
    case Unreadable => current
    case Malformed => SortForLoad([])
    case Decoded(tasks) => SortForLoad(tasks)
  }
}
