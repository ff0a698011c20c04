# TaskStore model

A Dafny model of the data layer of a single-screen to-do list app: the
in-memory task list of `TaskStore` and the `Task` record it holds.

The store is a plain `seq<Task>`. Each store operation is a pure function
from the old list to the new one:

- `add` trims the title and drops a blank one. It also drops a title already
  stored, ignoring case. Otherwise it appends a cleaned copy of the task.
- `toggleCompletion(of:)` flips the completion flag of the first task with the
  given id.
- `delete(at:)` removes every task whose position is in an offset set.
- `update(_:newTitle:newDueDate:)` overwrites the title and due date of the
  first task with the given id, unless the new title is blank.
- `load()` sorts the decoded list: dated tasks first, by ascending date, then
  the undated ones.

The `save()` after each mutation only writes the list to disk, so the model
leaves it out.

Modules, one per concern:

- `Wrappers` (`wrappers.dfy`): `Option`, for Swift optionals.
- `Text` (`text.dfy`): `trimmingCharacters(in: .whitespacesAndNewlines)` and
  `lowercased()`. Whitespace is the Unicode White_Space set.
- `Tasks` (`task.dfy`): the `Task` record and its initialiser. A `UUID` is an
  opaque `TaskId`, and a `Date` is an `int`. `Task` in `ToDoListApp/Task.swift`
  has no `dueDate` field, but the store reads and writes one, so the model's
  `Task` has `dueDate: Option<Date>` and the initialiser leaves it empty.
- `TaskStore` (`task_store.dfy`): `add`, `toggleCompletion`, `delete`,
  `update`, and the invariants they keep or break.
- `LoadOrder` (`load_order.dfy`): the sort closure of `load()`, the order it
  aims for, and `load()` itself.
- `Scenarios` (`scenarios.dfy`): the app's unit tests as concrete lemmas, and
  small inputs that show the quirks listed below.

Quirks of the code, modelled as written:

- `update` checks that the trimmed title is non-empty, but stores the
  untrimmed `newTitle`.
- The duplicate check in `add` lower-cases each stored title without trimming
  it. It compares the result with the lower-cased trimmed new title. After an
  update has stored " milk", `add` therefore accepts "milk" as a new title.
- `add` builds the stored task without a due date, so any due date passed in
  is dropped.
- The sort closure answers `true` for two undated tasks, because its
  `(_, nil)` case comes before `default`. So it is not a strict ordering, and
  its `default` branch is unreachable. The model promises only a permutation
  in date order, not stability.
- `update` does not repeat the duplicate check, so it can create two titles
  that are equal up to case.

## Model

| member | source | states |
|---|---|---|
| Text.IsWhitespace | ToDoListApp/TaskStore.swift:75 | defines the character set `.whitespacesAndNewlines`: the Unicode White_Space code points (tab to carriage return, space, next line, no-break space, ogham space mark, the spaces U+2000 to U+200A, line and paragraph separators, narrow no-break space, medium mathematical space, ideographic space) |
| Text.Trim | ToDoListApp/TaskStore.swift:75-76 | the trimmed title is the slice of the title between a whitespace run at its start and one at its end; it is empty exactly when the title is all whitespace; it has no whitespace at either end; an already trimmed string comes back unchanged |
| Text.TrimSkipsLeadingWhitespace | ToDoListApp/TaskStore.swift:75 | a leading whitespace character makes no difference to the trimmed result |
| Text.TrimIdempotent | ToDoListApp/TaskStore.swift:75 | trimming twice gives the same result as trimming once |
| Text.TrimmedNonEmptyIsNotBlank | ToDoListApp/TaskStore.swift:75-82 | a title that passes the emptiness guard trims to a title that is not blank |
| Text.Lower | ToDoListApp/TaskStore.swift:79 | lower-casing keeps the length and maps each character on its own |
| Text.LowerIdempotent | ToDoListApp/TaskStore.swift:79 | lower-casing a lower-cased string changes nothing |
| Tasks.NewTask | ToDoListApp/Task.swift:15-18 | the initialiser stores the id and the title verbatim, with no trimming or validation; the completion flag is as given; there is no due date |
| Tasks.NewTaskDefaultsToOpen | ToDoListApp/Task.swift:15 | `Task(title:)` is not completed |
| TaskStore.FirstIndex | ToDoListApp/TaskStore.swift:89 | the result is the position of the first task with the id; it is `None` exactly when no task has that id |
| TaskStore.FirstIndexFollowsIds | ToDoListApp/TaskStore.swift:89-103 | two lists with the same ids in the same positions find the same first task for every id |
| TaskStore.HasTitle | ToDoListApp/TaskStore.swift:79 | defines the duplicate test of `add`: some stored title, lower-cased without trimming, equals the lower-cased trimmed new title |
| TaskStore.Accepts | ToDoListApp/TaskStore.swift:75-79 | defines when `add` appends: the title is not blank (so its trimmed form is not empty) and the duplicate test fails |
| TaskStore.Cleaned | ToDoListApp/TaskStore.swift:82 | the appended task keeps the id and the completion flag, has the trimmed title, and has no due date |
| TaskStore.Add | ToDoListApp/TaskStore.swift:74-85 | a blank title leaves the list unchanged; so does a title already stored (ignoring case); otherwise the list grows by one, the old tasks stay as they were, and the cleaned task is last |
| TaskStore.AddKeepsTitlesNonBlank | ToDoListApp/TaskStore.swift:75-83 | if no stored title is blank before `add`, none is blank after it |
| TaskStore.AddKeepsDistinctTitles | ToDoListApp/TaskStore.swift:79-83 | if no two stored titles are equal after lower-casing before `add`, the same holds after it |
| TaskStore.AddKeepsUniqueIds | ToDoListApp/TaskStore.swift:82-83 | given a fresh id, `add` keeps ids unique; `add` itself never checks ids |
| TaskStore.AddRejectsSameTitleIgnoringCase | ToDoListApp/TaskStore.swift:79 | once a title is stored, a second task whose trimmed title equals it up to case is dropped |
| TaskStore.AddTwiceIsAddOnce | ToDoListApp/TaskStore.swift:79 | adding the same task twice has the same effect as adding it once |
| TaskStore.ToggleCompletion | ToDoListApp/TaskStore.swift:88-92 | an unknown id leaves the list unchanged; otherwise the completion flag flips exactly at the first task with the id; length, order, ids, titles and due dates are untouched |
| TaskStore.ToggleTwiceRestores | ToDoListApp/TaskStore.swift:90 | toggling the same id twice gives back the original list |
| TaskStore.ToggleKeepsInvariants | ToDoListApp/TaskStore.swift:88-92 | toggling keeps titles non-blank, keeps titles distinct up to case, and keeps ids unique |
| TaskStore.Survivors | ToDoListApp/TaskStore.swift:94-95 | the surviving positions are exactly the in-range positions not in the offset set, in increasing order; there are length minus the number of offsets of them |
| TaskStore.Delete | ToDoListApp/TaskStore.swift:94-97 | with every offset in range, the new length is the old length minus the number of offsets |
| TaskStore.DeleteKeepsSurvivors | ToDoListApp/TaskStore.swift:95 | the remaining tasks are the tasks at the surviving positions, in their original order |
| TaskStore.DeleteNothingKeepsAll | ToDoListApp/TaskStore.swift:95 | deleting an empty offset set leaves the list as it was |
| TaskStore.DeleteOne | ToDoListApp/TaskStore.swift:95 | deleting the single offset i removes the task at i and keeps the tasks before and after it |
| TaskStore.DeleteKeepsInvariants | ToDoListApp/TaskStore.swift:94-95 | every remaining task was in the list before; deletion keeps titles non-blank, titles distinct up to case, and ids unique |
| TaskStore.Update | ToDoListApp/TaskStore.swift:99-109 | a blank new title or an unknown id leaves the list unchanged; otherwise only the first task with the id changes, to the untrimmed new title and the new due date; ids and completion flags stay |
| TaskStore.UpdateIdempotent | ToDoListApp/TaskStore.swift:103-106 | repeating the same update changes nothing more |
| TaskStore.UpdateKeepsInvariants | ToDoListApp/TaskStore.swift:100-106 | updating keeps titles non-blank and ids unique |
| LoadOrder.DueBefore | ToDoListApp/TaskStore.swift:48-65 | defines the sort closure of `load()`: two dated tasks compare by date with `<`; otherwise it is true when the second task is undated and false when only the second is dated |
| LoadOrder.DueBeforeIsReflexiveOnUndated | ToDoListApp/TaskStore.swift:55-56 | the sort closure says an undated task comes before itself, so it is not a strict ordering |
| LoadOrder.DueBeforeStrictOnDated | ToDoListApp/TaskStore.swift:51-52 | on dated tasks the sort closure is irreflexive and transitive |
| LoadOrder.MayPrecedeMatchesClosure | ToDoListApp/TaskStore.swift:48-65 | load order puts a before b exactly when the closure does not put b strictly before a, except for two undated tasks, which may stand either way |
| LoadOrder.InLoadOrderMeans | ToDoListApp/TaskStore.swift:45-60 | in load order every dated task precedes every undated one, and dates never decrease |
| LoadOrder.Insert | ToDoListApp/TaskStore.swift:48-66 | inserting into a list in load order keeps load order and adds exactly that one task |
| LoadOrder.SortForLoad | ToDoListApp/TaskStore.swift:48-66 | the sorted list is a permutation of the input, in load order |
| LoadOrder.Load | ToDoListApp/TaskStore.swift:38-67 | an unreadable file keeps the current list; a malformed one yields the empty list; a decoded one is loaded as a permutation in load order |
| Scenarios.AddingTaskIncreasesCount | ToDoListAppTests/ToDoListAppTests.swift:43-53 | adding "Buy milk" to an empty store stores one open task with that title |
| Scenarios.AddingBlankTitlesKeepsStoreEmpty | ToDoListAppTests/ToDoListAppTests.swift:55-66 | adding "" and then "     " to an empty store leaves it empty |
| Scenarios.AddingDuplicateKeepsOne | ToDoListAppTests/ToDoListAppTests.swift:68-78 | adding the same task twice stores one task |
| Scenarios.CaseInsensitiveDuplicateIsDropped | ToDoListAppTests/ToDoListAppTests.swift:80-88 | "buy milk" after "Buy milk" is dropped |
| Scenarios.ToggleCompletesThenReopens | ToDoListAppTests/ToDoListAppTests.swift:90-116 | one toggle completes a freshly added open task; a second toggle reopens it |
| Scenarios.DeleteMiddle | ToDoListApp/TaskStore.swift:94-95 | deleting offset 1 from [A, B, C] leaves [A, C] |
| Scenarios.UpdateRenamesOrKeeps | ToDoListApp/TaskStore.swift:99-106 | renaming "Old" to "New" stores "New"; renaming to "" keeps the old title |
| Scenarios.UpdateStoresUntrimmedTitle | ToDoListApp/TaskStore.swift:100-105 | the guard checks the trimmed title, but "  New  " is stored with its spaces |
| Scenarios.AddDropsDueDate | ToDoListApp/TaskStore.swift:82 | a task added with a due date is stored without one |
| Scenarios.UpdateCanDuplicateTitle | ToDoListApp/TaskStore.swift:99-106 | renaming "Bread" to "milk" next to "Milk" breaks title distinctness, because `update` does not repeat the duplicate check |
| Scenarios.UpdateStoresTitleVerbatim | ToDoListApp/TaskStore.swift:100-106 | `update` of a one-task list stores any non-blank title exactly as given |
| Scenarios.PaddedTitleIsNoDuplicate | ToDoListApp/TaskStore.swift:79 | a stored title that starts with a whitespace character does not count as a duplicate of the same title without it |
| Scenarios.PaddedTitleEscapesDuplicateCheck | ToDoListApp/TaskStore.swift:79-105 | for every trimmed non-blank title and whitespace character: once `update` has stored the padded title, `add` accepts the bare one, leaving two titles equal after trimming and lower-casing |
| Scenarios.LoadKeepsUndatedOrder | ToDoListApp/TaskStore.swift:55-60 | the model's sort leaves two undated tasks in their input order, a choice Swift's `sort` does not make for this closure (see "Left out") |
| Scenarios.LoadSortsByDueDate | ToDoListApp/TaskStore.swift:48-66 | loading [undated, due 7, due 3] gives [due 3, due 7, undated] |

## Left out

- Disk I/O: the Documents-directory lookup and the reads and writes of `tasks.json` (ToDoListApp/TaskStore.swift:24-44, 69-72). `LoadOrder.Load` takes the outcome of the read as a parameter. `save()` never changes the list, so the mutations do not model it, and a failed write has no effect on the model.
- JSON encoding and decoding through Foundation's `Codable`. Its code is not part of this model, so no round trip through the file is stated.
- The `static let shared` singleton and its private initialiser. The model passes an explicit list value instead.
- `UUID()` generation. Ids are opaque, and their freshness is a hypothesis of `TaskStore.AddKeepsUniqueIds`.
- The `Date` type. Dates are integers, and only `<` on them is used.
- TaskStore.HasTitle: compares titles character by character. Swift's `String ==` at ToDoListApp/TaskStore.swift:79 compares by Unicode canonical equivalence, so a precomposed "Café" and a decomposed "Cafe\u{301}" are duplicates in the app but not in the model.
- TaskStore.Delete: requires every offset to be a valid position. Swift's `remove(atOffsets:)` traps on an offset outside the list, and the model does not model that trap.
- Text.Lower: maps only `A`-`Z` to lower case and leaves every other character alone. Swift's `lowercased()` applies full Unicode case mapping, which can also change a string's length.
- LoadOrder.SortForLoad: claims only that the result is a permutation in load order. Swift's `sort(by:)` promises a stable result only when its closure is a strict weak ordering, and the closure of `load()` is not one (`LoadOrder.DueBeforeIsReflexiveOnUndated`), so Swift promises nothing about the relative order of undated tasks. The model's insertion sort keeps undated tasks in their input order (`Scenarios.LoadKeepsUndatedOrder`). The standard library's sort, given a closure that answers `true` for two undated tasks, can move each undated task in front of the undated ones before it, so the app can reverse them. Dated tasks come first in date order in both.
- `ToDoListApp/ToDoListViewController.swift`: UIKit table, alert and navigation code that only forwards to the store.
- The `testExample` and `testLaunchPerformance` UI tests, which launch the app and measure launch time.
