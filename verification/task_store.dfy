/**
 * The in-memory task list of `TaskStore` and its four mutations. The store is a
 * plain sequence of tasks and every mutation is a function from the old list to
 * the new one; the `save()` that follows each mutation writes the list to disk
 * and does not change it.
 */
module TaskStore {
  import opened Wrappers
  import opened Text
  import opened Tasks

  // ---------------------------------------------------------------------------
  // Lookup by id

  /** True iff position `i` holds the first task whose id is `id`. */
  predicate IsFirstWithId(tasks: seq<Task>, i: int, id: TaskId) {
    && 0 <= i < |tasks|
    && tasks[i].id == id
    && forall j :: 0 <= j < i ==> tasks[j].id != id
  }

  /** `tasks.firstIndex(where: { $0.id == id })`. */
  function FirstIndex(tasks: seq<Task>, id: TaskId): (r: Option<nat>)
    ensures r.Some? ==> IsFirstWithId(tasks, r.value, id)
    ensures r.None? <==> forall j :: 0 <= j < |tasks| ==> tasks[j].id != id
  {
    if |tasks| == 0 then None
    else if tasks[0].id == id then Some(0)
    else
      match FirstIndex(tasks[1..], id)
      case None => None
      case Some(k) => Some(k + 1)
  }

  /** The first task with a given id is the same in two lists whose ids agree
      position by position: an operation that keeps every id finds the same
      task again. */
  lemma FirstIndexFollowsIds(a: seq<Task>, b: seq<Task>, id: TaskId)
    requires Ids(a) == Ids(b)
    ensures FirstIndex(a, id) == FirstIndex(b, id)
  {
  }

  // ---------------------------------------------------------------------------
  // Store invariants

  /** Every stored title has something besides whitespace. */
  predicate TitlesNonBlank(tasks: seq<Task>) {
    forall i :: 0 <= i < |tasks| ==> !AllWhitespace(tasks[i].title)
  }

  /** No two stored titles are equal once lower-cased. */
  predicate DistinctTitles(tasks: seq<Task>) {
    forall i, j :: 0 <= i < j < |tasks| ==> Lower(tasks[i].title) != Lower(tasks[j].title)
  }

  // ---------------------------------------------------------------------------
  // add

  /** The duplicate test of `add`: some stored title, lower-cased as it is
      (without trimming), equals the lower-cased `trimmed` title. */
  predicate HasTitle(tasks: seq<Task>, trimmed: string) {
    exists i :: 0 <= i < |tasks| && Lower(tasks[i].title) == Lower(trimmed)
  }

  /** The task `add` appends: same id and completion flag, the trimmed title and
      no due date. */
  function Cleaned(task: Task): (t: Task)
    ensures t.id == task.id && t.isCompleted == task.isCompleted
    ensures t.title == Trim(task.title) && IsTrimmed(t.title)
    ensures t.dueDate.None?
  {
    NewTask(task.id, Trim(task.title), task.isCompleted)
  }

  /** The two guards of `add`: the trimmed title is not empty and no stored
      title matches it. */
  predicate Accepts(tasks: seq<Task>, task: Task) {
    !AllWhitespace(task.title) && !HasTitle(tasks, Trim(task.title))
  }

  /** `add(_:)`: a blank title or a title already present (ignoring case) is
      silently dropped; otherwise the cleaned task is appended at the end. */
  function Add(tasks: seq<Task>, task: Task): (r: seq<Task>)
    ensures AllWhitespace(task.title) ==> r == tasks
    ensures HasTitle(tasks, Trim(task.title)) ==> r == tasks
    ensures Accepts(tasks, task) ==>
              && |r| == |tasks| + 1
              && r[..|tasks|] == tasks
              && r[|tasks|] == Cleaned(task)
              && !AllWhitespace(r[|tasks|].title)
  {
    var trimmed := Trim(task.title);
    if trimmed == [] then tasks
    else if HasTitle(tasks, trimmed) then tasks
    else
      TrimmedNonEmptyIsNotBlank(task.title);
      tasks + [Cleaned(task)]
  }

  /** Adding keeps every stored title non-blank. */
  lemma AddKeepsTitlesNonBlank(tasks: seq<Task>, task: Task)
    requires TitlesNonBlank(tasks)
    ensures TitlesNonBlank(Add(tasks, task))
  {
  }

  /** Adding keeps the lower-cased titles pairwise distinct. */
  lemma AddKeepsDistinctTitles(tasks: seq<Task>, task: Task)
    requires DistinctTitles(tasks)
    ensures DistinctTitles(Add(tasks, task))
  {
  }

  /** Adding a task whose id is not yet stored keeps ids unique; `add` itself
      does not check ids, it relies on `UUID()` being fresh. */
  lemma AddKeepsUniqueIds(tasks: seq<Task>, task: Task)
    requires UniqueIds(tasks)
    requires forall i :: 0 <= i < |tasks| ==> tasks[i].id != task.id
    ensures UniqueIds(Add(tasks, task))
  {
  }

  /** Once a title is stored, adding any task whose trimmed title matches it
      case-insensitively is a no-op; in particular adding the same task twice
      has the effect of adding it once. */
  lemma AddRejectsSameTitleIgnoringCase(tasks: seq<Task>, first: Task, second: Task)
    ensures Lower(Trim(first.title)) == Lower(Trim(second.title)) ==>
              Add(Add(tasks, first), second) == Add(tasks, first)
  {
    var r := Add(tasks, first);
    if Lower(Trim(first.title)) == Lower(Trim(second.title)) {
      if |r| == |tasks| + 1 {
        assert Lower(r[|tasks|].title) == Lower(Trim(second.title));
        assert HasTitle(r, Trim(second.title));
      } else if !AllWhitespace(first.title) {
        var k :| 0 <= k < |tasks| && Lower(tasks[k].title) == Lower(Trim(first.title));
        assert HasTitle(tasks, Trim(second.title));
      } else {
        assert Trim(first.title) == [];
        assert Trim(second.title) == [];
      }
    }
  }

  /** Adding the same task twice stores it once. */
  lemma AddTwiceIsAddOnce(tasks: seq<Task>, task: Task)
    ensures Add(Add(tasks, task), task) == Add(tasks, task)
  {
  }

  // ---------------------------------------------------------------------------
  // toggleCompletion(of:)

  /** `toggleCompletion(of:)`: flips `isCompleted` of the first task with the
      given id; an unknown id leaves the list as it is. */
  function ToggleCompletion(tasks: seq<Task>, id: TaskId): (r: seq<Task>)
    ensures |r| == |tasks|
    ensures (forall j :: 0 <= j < |tasks| ==> tasks[j].id != id) ==> r == tasks
    ensures Ids(r) == Ids(tasks)
    ensures forall i :: 0 <= i < |tasks| ==>
              && r[i].id == tasks[i].id
              && r[i].title == tasks[i].title
              && r[i].dueDate == tasks[i].dueDate
    ensures forall i :: 0 <= i < |tasks| ==>
              (r[i].isCompleted != tasks[i].isCompleted <==> IsFirstWithId(tasks, i, id))
  {
    match FirstIndex(tasks, id)
    case None => tasks
    case Some(i) => tasks[i := tasks[i].(isCompleted := !tasks[i].isCompleted)]
  }

  /** Toggling the same task twice restores the list. */
  lemma ToggleTwiceRestores(tasks: seq<Task>, id: TaskId)
    ensures ToggleCompletion(ToggleCompletion(tasks, id), id) == tasks
  {
  }

  /** Toggling keeps all three store invariants. */
  lemma ToggleKeepsInvariants(tasks: seq<Task>, id: TaskId)
    ensures TitlesNonBlank(tasks) ==> TitlesNonBlank(ToggleCompletion(tasks, id))
    ensures DistinctTitles(tasks) ==> DistinctTitles(ToggleCompletion(tasks, id))
    ensures UniqueIds(tasks) ==> UniqueIds(ToggleCompletion(tasks, id))
  {
  }

  // ---------------------------------------------------------------------------
  // delete(at:)

  /** True iff every offset names a position of a list of length `n`. */
  predicate OffsetsInRange(offsets: set<int>, n: nat) {
    forall o :: o in offsets ==> 0 <= o < n
  }

  /** The positions below `n` that are not in `offsets`, in increasing order:
      the positions whose tasks survive `delete(at: offsets)`. */
  function Survivors(n: nat, offsets: set<int>): (ks: seq<nat>)
    requires OffsetsInRange(offsets, n)
    ensures |ks| == n - |offsets|
    ensures forall j :: 0 <= j < |ks| ==> ks[j] < n && ks[j] !in offsets
    ensures forall j, k :: 0 <= j < k < |ks| ==> ks[j] < ks[k]
    ensures forall i :: 0 <= i < n && i !in offsets ==> i in ks
  {
    if n == 0 then
      NoOffsetsInEmpty(offsets);
      []
    else
      var last := n - 1;
      var rest := offsets - {last};
      if last in offsets then
        assert offsets == rest + {last};
        Survivors(last, rest)
      else
        assert rest == offsets;
        Survivors(last, rest) + [last]
  }

  /** `delete(at:)`: removes, in one step, every task whose position is in
      `offsets`; Swift's `remove(atOffsets:)` traps on an offset outside the
      list, so every offset must be a valid position. */
  function Delete(tasks: seq<Task>, offsets: set<int>): (r: seq<Task>)
    requires OffsetsInRange(offsets, |tasks|)
    ensures |r| == |tasks| - |offsets|
  {
    if tasks == [] then
      NoOffsetsInEmpty(offsets);
      []
    else
      var last := |tasks| - 1;
      var kept := Delete(tasks[..last], offsets - {last});
      if last in offsets then kept else kept + [tasks[last]]
  }

  /** The tasks `delete(at:)` keeps are exactly those at the surviving
      positions, in increasing order of position. */
  lemma {:induction false} DeleteKeepsSurvivors(tasks: seq<Task>, offsets: set<int>)
    requires OffsetsInRange(offsets, |tasks|)
    ensures var ks := Survivors(|tasks|, offsets);
            var r := Delete(tasks, offsets);
            |r| == |ks| && forall j :: 0 <= j < |ks| ==> r[j] == tasks[ks[j]]
  {
    if tasks != [] {
      var last := |tasks| - 1;
      DeleteKeepsSurvivors(tasks[..last], offsets - {last});
    }
  }

  /** An empty list has no valid offsets. */
  lemma NoOffsetsInEmpty(offsets: set<int>)
    requires OffsetsInRange(offsets, 0)
    ensures offsets == {}
  {
    assert forall o :: o !in offsets;
  }

  /** Deleting nothing keeps the list. */
  lemma {:induction false} DeleteNothingKeepsAll(tasks: seq<Task>)
    ensures Delete(tasks, {}) == tasks
  {
    if tasks != [] {
      var last := |tasks| - 1;
      assert {} - {last} == {};
      DeleteNothingKeepsAll(tasks[..last]);
      assert tasks[..last] + [tasks[last]] == tasks;
    }
  }

  /** Deleting from a non-empty list: the last task goes exactly when its
      position is an offset, and the rest of the list is handled on its own. */
  lemma DeleteLast(tasks: seq<Task>, offsets: set<int>)
    requires tasks != [] && OffsetsInRange(offsets, |tasks|)
    ensures var last := |tasks| - 1;
            var kept := Delete(tasks[..last], offsets - {last});
            Delete(tasks, offsets) == if last in offsets then kept else kept + [tasks[last]]
  {
  }

  /** Deleting one position `i` leaves the tasks before and after it, joined. */
  lemma {:induction false} DeleteOne(tasks: seq<Task>, i: nat)
    requires i < |tasks|
    ensures Delete(tasks, {i}) == tasks[..i] + tasks[i + 1..]
  {
    var last := |tasks| - 1;
    var init := tasks[..last];
    DeleteLast(tasks, {i});
    if i == last {
      assert {i} - {last} == {};
      DeleteNothingKeepsAll(init);
      assert tasks[i + 1..] == [];
    } else {
      assert {i} - {last} == {i};
      DeleteOne(init, i);
      JoinAroundBeforeLast(tasks, i);
    }
  }

  /** Removing position `i` before the last one and then appending the last
      element is removing `i` from the whole list. */
  lemma JoinAroundBeforeLast(tasks: seq<Task>, i: nat)
    requires i < |tasks| - 1
    ensures var init := tasks[..|tasks| - 1];
            init[..i] + init[i + 1..] + [tasks[|tasks| - 1]] == tasks[..i] + tasks[i + 1..]
  {
    var init := tasks[..|tasks| - 1];
    assert init[..i] == tasks[..i];
    assert init[i + 1..] + [tasks[|tasks| - 1]] == tasks[i + 1..];
  }

  /** Every task left after a deletion was in the list before, and deletion
      keeps the three store invariants. */
  lemma DeleteKeepsInvariants(tasks: seq<Task>, offsets: set<int>)
    requires OffsetsInRange(offsets, |tasks|)
    ensures var r := Delete(tasks, offsets);
            forall j :: 0 <= j < |r| ==> r[j] in tasks
    ensures UniqueIds(tasks) ==> UniqueIds(Delete(tasks, offsets))
    ensures DistinctTitles(tasks) ==> DistinctTitles(Delete(tasks, offsets))
    ensures TitlesNonBlank(tasks) ==> TitlesNonBlank(Delete(tasks, offsets))
  {
    var ks := Survivors(|tasks|, offsets);
    var r := Delete(tasks, offsets);
    DeleteKeepsSurvivors(tasks, offsets);
    assert forall j, k :: 0 <= j < k < |r| ==> ks[j] < ks[k] && r[j] == tasks[ks[j]] && r[k] == tasks[ks[k]];
  }

  // ---------------------------------------------------------------------------
  // update(_:newTitle:newDueDate:)

  /** `update(_:newTitle:newDueDate:)`: when `newTitle` is not blank, the first
      task with the given id gets `newTitle` exactly as passed (untrimmed) and
      `newDueDate`; a blank title or an unknown id changes nothing. */
  function Update(tasks: seq<Task>, id: TaskId, newTitle: string, newDueDate: Option<Date>): (r: seq<Task>)
    ensures |r| == |tasks|
    ensures AllWhitespace(newTitle) ==> r == tasks
    ensures (forall j :: 0 <= j < |tasks| ==> tasks[j].id != id) ==> r == tasks
    ensures Ids(r) == Ids(tasks)
    ensures forall i :: 0 <= i < |tasks| ==>
              r[i] == if IsFirstWithId(tasks, i, id) && !AllWhitespace(newTitle)
                      then Task(tasks[i].id, newTitle, tasks[i].isCompleted, newDueDate)
                      else tasks[i]
  {
    if Trim(newTitle) == [] then tasks
    else
      match FirstIndex(tasks, id)
      case None => tasks
      case Some(i) => tasks[i := tasks[i].(title := newTitle, dueDate := newDueDate)]
  }

  /** Repeating an update changes nothing more. */
  lemma UpdateIdempotent(tasks: seq<Task>, id: TaskId, newTitle: string, newDueDate: Option<Date>)
    ensures var once := Update(tasks, id, newTitle, newDueDate);
            Update(once, id, newTitle, newDueDate) == once
  {
  }

  /** Updating keeps titles non-blank and ids unique. */
  lemma UpdateKeepsInvariants(tasks: seq<Task>, id: TaskId, newTitle: string, newDueDate: Option<Date>)
    ensures TitlesNonBlank(tasks) ==> TitlesNonBlank(Update(tasks, id, newTitle, newDueDate))
    ensures UniqueIds(tasks) ==> UniqueIds(Update(tasks, id, newTitle, newDueDate))
  {
  }
}
