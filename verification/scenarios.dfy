/**
 * Concrete runs of the store: the behaviour the unit tests of the app pin
 * down, and the quirks of the store's code shown on small inputs.
 */
module Scenarios {
  import opened Wrappers
  import opened Text
  import opened Tasks
  import opened TaskStore
  import opened LoadOrder

  // ---------------------------------------------------------------------------
  // The unit tests

  /** Adding "Buy milk" to an empty store stores one open task with that title. */
  lemma AddingTaskIncreasesCount(id: TaskId)
    ensures var r := Add([], NewTask(id, "Buy milk"));
            |r| == 1 && r[0].title == "Buy milk" && !r[0].isCompleted
  {
    assert !HasTitle([], "Buy milk");
    assert !IsWhitespace('B');
  }

  /** An empty title and a spaces-only title are both dropped. */
  lemma AddingBlankTitlesKeepsStoreEmpty(a: TaskId, b: TaskId)
    ensures Add(Add([], NewTask(a, "")), NewTask(b, "     ")) == []
  {
  }

  /** Adding the same task twice stores one task. */
  lemma AddingDuplicateKeepsOne(id: TaskId)
    ensures |Add(Add([], NewTask(id, "Buy milk")), NewTask(id, "Buy milk"))| == 1
  {
  }

  /** "buy milk" is a duplicate of "Buy milk". */
  lemma CaseInsensitiveDuplicateIsDropped(a: TaskId, b: TaskId)
    ensures |Add(Add([], NewTask(a, "Buy milk")), NewTask(b, "buy milk"))| == 1
  {
    assert !IsWhitespace('B') && !IsWhitespace('k') && !IsWhitespace('b');
    assert Lower("Buy milk") == Lower("buy milk");
    AddRejectsSameTitleIgnoringCase([], NewTask(a, "Buy milk"), NewTask(b, "buy milk"));
    AddingTaskIncreasesCount(a);
  }

  /** Toggling a freshly added open task completes it; toggling it again
      reopens it. */
  lemma ToggleCompletesThenReopens(id: TaskId)
    ensures var added := Add([], NewTask(id, "Walk the dog", false));
            var once := ToggleCompletion(added, id);
            && |once| == 1 && once[0].isCompleted
            && !ToggleCompletion(once, id)[0].isCompleted
  {
  }

  /** Deleting position 1 of [A, B, C] leaves [A, C]. */
  lemma DeleteMiddle(a: Task, b: Task, c: Task)
    ensures Delete([a, b, c], {1}) == [a, c]
  {
    DeleteOne([a, b, c], 1);
  }

  /** Renaming "Old" to "New" stores "New"; renaming to "" keeps "Walk the dog". */
  lemma UpdateRenamesOrKeeps(id: TaskId)
    ensures Update([NewTask(id, "Old")], id, "New", None)[0].title == "New"
    ensures Update([NewTask(id, "Walk the dog")], id, "", None)[0].title == "Walk the dog"
  {
  }

  // ---------------------------------------------------------------------------
  // Quirks of the code as written

  /** `update` checks the trimmed title but stores the one it was given. */
  lemma UpdateStoresUntrimmedTitle(id: TaskId)
    ensures Update([NewTask(id, "Old")], id, "  New  ", None)[0].title == "  New  "
  {
  }

  /** `add` drops the due date of the task it is given. */
  lemma AddDropsDueDate(id: TaskId)
    ensures Add([], Task(id, "Pay rent", false, Some(5)))[0].dueDate == None
  {
  }

  /** `update` does not repeat the duplicate check of `add`: renaming "Bread"
      to "milk" next to "Milk" leaves two titles equal up to case. */
  lemma UpdateCanDuplicateTitle(a: TaskId, b: TaskId)
    requires a != b
    ensures DistinctTitles([NewTask(a, "Milk"), NewTask(b, "Bread")])
    ensures !DistinctTitles(Update([NewTask(a, "Milk"), NewTask(b, "Bread")], b, "milk", None))
  {
    var tasks := [NewTask(a, "Milk"), NewTask(b, "Bread")];
    assert Lower("Milk")[0] != Lower("Bread")[0];
    assert IsFirstWithId(tasks, 1, b);
    assert !AllWhitespace("milk") by { assert !IsWhitespace("milk"[0]); }
    var r := Update(tasks, b, "milk", None);
    assert Lower(r[0].title) == Lower(r[1].title) by {
      assert Lower("Milk") == Lower("milk");
    }
  }

  /** `update` of a one-task list stores a non-blank title exactly as given. */
  lemma UpdateStoresTitleVerbatim(a: TaskId, previous: string, title: string)
    requires !AllWhitespace(title)
    ensures Update([NewTask(a, previous)], a, title, None) == [Task(a, title, false, None)]
  {
    assert IsFirstWithId([NewTask(a, previous)], 0, a);
  }

  /** A stored title with a leading whitespace character does not stop `add`
      from taking the same title without it. */
  lemma PaddedTitleIsNoDuplicate(a: TaskId, b: TaskId, c: char, title: string)
    requires IsWhitespace(c)
    requires title != [] && IsTrimmed(title)
    ensures Accepts([Task(a, [c] + title, false, None)], NewTask(b, title))
  {
    var stored := [Task(a, [c] + title, false, None)];
    assert Trim(title) == title;
    assert !HasTitle(stored, title) by {
      assert |Lower(stored[0].title)| == |title| + 1;
    }
    assert !AllWhitespace(title) by { assert !IsWhitespace(title[0]); }
  }

  /** The duplicate check lower-cases the stored titles without trimming them.
      Once `update` has stored a title with a leading whitespace character,
      `add` accepts the same title without it, and the store then holds two
      titles that trim and lower-case to the same text. */
  lemma PaddedTitleEscapesDuplicateCheck(a: TaskId, b: TaskId, previous: string, c: char, title: string)
    requires IsWhitespace(c)
    requires title != [] && IsTrimmed(title)
    ensures var stored := Update([NewTask(a, previous)], a, [c] + title, None);
            var r := Add(stored, NewTask(b, title));
            && stored[0].title == [c] + title
            && |r| == 2
            && Lower(Trim(r[0].title)) == Lower(Trim(r[1].title))
  {
    var padded := [c] + title;
    assert !AllWhitespace(padded) by { assert !IsWhitespace(padded[1]); }
    UpdateStoresTitleVerbatim(a, previous, padded);
    PaddedTitleIsNoDuplicate(a, b, c, title);
    TrimSkipsLeadingWhitespace(c, title);
  }

  /** The model's sort keeps two undated tasks in their input order. */
  lemma LoadKeepsUndatedOrder(u1: Task, u2: Task)
    requires u1.dueDate.None? && u2.dueDate.None?
    ensures Load([], Decoded([u1, u2])) == [u1, u2]
  {
  }

  /** Loading sorts [undated, due 7, due 3] to [due 3, due 7, undated]. */
  lemma LoadSortsByDueDate(x: TaskId, y: TaskId, z: TaskId)
    ensures var u := Task(x, "u", false, None);
            var late := Task(y, "late", false, Some(7));
            var early := Task(z, "early", false, Some(3));
            Load([], Decoded([u, late, early])) == [early, late, u]
  {
  }
}
