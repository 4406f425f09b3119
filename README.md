# Task list model

A Dafny model of the task-list core of a browser to-do list page (`script.js`).
The page keeps one ordered list of tasks `{id, text, completed}`. It persists
the whole list to one slot of the browser's key-value storage (key `tasks_v1`)
after every mutation. It renders the list as rows and shows a progress readout.

Modules, leaf first:

- `Wrappers`: the `Option` type.
- `Text`: JavaScript's `String.prototype.trim` over the ECMAScript whitespace
  and line-terminator code points, and the decimal rendering of a number in a
  template literal.
- `TaskList`: the `Task` datatype and what each handler does to the list.
  `AddTask` appends. `RemoveId` is the delete filter. `WithText` and
  `WithCompleted` update the first task with an id, which is what `find` followed
  by a field assignment does. There are lemmas about sequences of these.
- `Progress`: the count of completed tasks, the rounded percentage, the
  readout text and the fill width.
- `Rows`: the row each task renders as.
- `Storage`: `loadFromStorage`'s fallback policy and `saveToStorage`, over a
  `map<string, string>` that stands for the browser storage. JSON is a
  `Codec` parameter.
- `InlineEdit`: the per-row Viewing/Editing state machine of inline editing.
- `Store`: class `TaskStore`. It holds the `tasks` sequence and the `storage`
  map. Its methods are the page's handlers. The source updates its list in
  place (a push when adding, a field write when editing or checking) and
  replaces it only when deleting. The methods instead assign the fields the
  value those updates leave. `Render` builds the rows in a loop and changes
  nothing.

Where the code and its description disagree, the model follows the code:

- Ids are whatever the caller passes (the page uses `Date.now()`). They are not
  guaranteed unique. Uniqueness is proved only when each new id is fresh.
- The checkbox handler does not flip `completed`. It sets it to the checkbox's
  value.
- A non-blank edit commit saves the list even when no task has the id.
- Delete saves even when nothing matched, and it removes every task with the
  id, not just one.
- Loaded data is not validated. A stored list may hold blank texts or
  duplicate ids. The texts stay displayable only through the page's own edits
  (`AddKeepsTextsDisplayable` and its siblings).

## Model

| member | source | states |
|---|---|---|
| `Text.LeadingWhitespace` | script.js:105 | the count of leading whitespace characters: all of them are whitespace and the next one is not |
| `Text.TrailingWhitespace` | script.js:105 | the count of trailing whitespace characters: all of them are whitespace and the one before is not |
| `Text.TrimBounds` | script.js:105 | the slice trim keeps: everything outside it is whitespace, and a non-empty slice starts and ends with non-whitespace |
| `Text.Trim` | script.js:105 | the trimmed text has no whitespace at either end and is empty exactly when the input is all whitespace |
| `Text.TrimOfTrimmed` | script.js:147 | trimming text that has no whitespace at its ends returns it unchanged |
| `Text.TrimIdempotent` | script.js:147 | trimming twice equals trimming once |
| `Text.TrimPadded` | script.js:105 | any whitespace padding around a trimmed non-empty text is exactly what trim removes |
| `Text.Decimal` | script.js:99 | a number is written as at least one digit. The first digit is '0' only for the number 0, and a multi-digit result never starts with '0' |
| `Text.DecimalRoundTrip` | script.js:99 | reading back the written digits gives the number |
| `TaskList.FindIndex` | script.js:154 | `find` by id: an index is the first task with the id, and None means no task has it |
| `TaskList.FirstWithIsUnique` | script.js:184 | only one index can be the first with a given id |
| `TaskList.RemoveId` | script.js:126 | no task with the id is left; a task survives exactly when its id differs; the list does not grow |
| `TaskList.WithText` | script.js:154-155 | the first task with the id gets the new text and keeps its id and completed flag; all others are unchanged; a missing id changes nothing |
| `TaskList.WithCompleted` | script.js:184-186 | the first task with the id gets the checkbox value and keeps its id and text; all others are unchanged; a missing id changes nothing |
| `TaskList.FindIndexByIds` | script.js:154 | lists with the same ids at each position find an id at the same index |
| `TaskList.AddTask` | script.js:105-111 | all-whitespace input leaves the list as it was. Other input yields the old list followed by exactly one task `{id, trim(text), false}` |
| `TaskList.AddAppendsOrRejects` | script.js:104-111 | all-whitespace input leaves the list as it was; other input adds exactly one task `{id, trim(text), false}` at the end, with the earlier tasks unchanged and in order |
| `TaskList.AddFreshKeepsUnique` | script.js:110-111 | adding with an id no task has keeps ids unique |
| `TaskList.RemoveIdDistributes` | script.js:126 | the filter keeps relative order: deleting from a concatenation deletes from each part |
| `TaskList.RemoveAbsentId` | script.js:126 | deleting an id no task has changes nothing |
| `TaskList.DeleteTwice` | script.js:126 | a second delete of the same id is a no-op |
| `TaskList.RemoveIdLength` | script.js:126 | with unique ids, a delete removes exactly one task if the id is present and none otherwise |
| `TaskList.RemoveIdKeepsAbsent` | script.js:126 | deleting cannot introduce an id |
| `TaskList.ConsKeepsUnique` | script.js:126 | a task in front of a unique-id list that lacks its id keeps ids unique |
| `TaskList.RemoveIdKeepsUnique` | script.js:126 | deleting keeps ids unique |
| `TaskList.CompletedLastWins` | script.js:184-186 | two checkbox changes on one id leave only the second value |
| `TaskList.CompletedUnchangedValue` | script.js:186 | setting a task's flag to its current value changes nothing |
| `TaskList.ToggleRestores` | script.js:184-186 | setting the flag to `!c` and then back to `c` restores the original list |
| `TaskList.TextLastWins` | script.js:154-155 | two edit commits on one id leave only the second text |
| `TaskList.UpdatesKeepIds` | script.js:155 | edits and checkbox changes keep ids unique |
| `TaskList.AddKeepsTextsDisplayable` | script.js:105-111 | adding keeps every text non-empty and trimmed |
| `TaskList.RemoveKeepsTextsDisplayable` | script.js:126 | deleting keeps every text non-empty and trimmed |
| `TaskList.UpdatesKeepTextsDisplayable` | script.js:147-155 | checkbox changes and non-blank edit commits keep every text non-empty and trimmed |
| `TaskList.AddAllLength` | script.js:104-111 | after a sequence of adds, the list has grown by the number of requests whose text is not blank |
| `TaskList.AddAllUnique` | script.js:110-111 | a sequence of adds with pairwise distinct fresh ids leaves all ids pairwise distinct |
| `Progress.CountCompleted` | script.js:92 | the completed count is at most the length; it is 0 exactly when none is done and equals the length exactly when all are done |
| `Progress.RoundHalfUp` | script.js:98 | the result is the integer nearest to n/d, with halves rounded up |
| `Progress.ProgressOf` | script.js:91-98 | the empty list is the NoTasks state and only it; otherwise pct is round(100*done/total) and is at most 100 |
| `Progress.PercentAtMost100` | script.js:98 | a rounded share of at most all tasks is at most 100 |
| `Progress.ProgressText` | script.js:93-99 | NoTasks reads "No tasks yet"; a percentage reads "Progress: " followed by its decimal digits and "%". The digits read back as the percentage |
| `Progress.EmptyIsDistinguished` | script.js:93-100 | the empty state's text differs from every percentage's text, while its fill is 0 |
| `Progress.FillWidth` | script.js:95-100 | the bar is 0% wide for the empty list and as wide as the percentage otherwise |
| `Progress.FillWithinBar` | script.js:95-100 | the fill never exceeds 100%, and it is 0 for the empty list |
| `Progress.OneOfFour` | script.js:98 | 1 of 4 tasks done gives 25% |
| `Progress.Extremes` | script.js:98 | on a non-empty list, all done gives 100% and none done gives 0% |
| `Progress.RoundHalfUpUnique` | script.js:98 | the rounding bounds determine the result: two values that meet them for the same n and d are equal |
| `Progress.Pinned` | script.js:98 | rounding t·v over t can only give v, which fixes the 0% and 100% readouts |
| `Progress.CountAppend` | script.js:92 | the completed count is additive over concatenation |
| `Progress.CountUpdate` | script.js:92 | replacing one task changes the count by that task's flag only |
| `Progress.AddKeepsDone` | script.js:111 | adding a task leaves the completed count as it was |
| `Progress.UpdatesAndCount` | script.js:186 | checking never lowers the count, unchecking never raises it, and an edit leaves it unchanged |
| `Rows.RowOf` | script.js:55-65 | a row shows its task's id and text. Its checkbox and its strike-through both follow `completed` |
| `Rows.RowsOf` | script.js:53-65 | there is one row per task, in list order, each with its task's id, text and completion |
| `Rows.RowKeepsTask` | script.js:55-65 | a task is recovered from its row |
| `Rows.RowsDetermineTasks` | script.js:53-65 | two lists that render the same are equal |
| `Rows.RowsOfAppend` | script.js:53 | the rows of an extended list are the old rows plus the new task's row |
| `Storage.GetItem` | script.js:34 | a value is returned exactly when the key is present, and it is the stored value |
| `Storage.Load` | script.js:33-44 | a present, non-empty slot that parses loads as the parsed list. A non-empty load always comes from such a slot |
| `Storage.Save` | script.js:46-48 | the slot holds the serialised list, and every other key is unchanged |
| `Storage.LoadFallback` | script.js:33-44 | an absent slot, an empty slot or unparseable content all load as the empty list |
| `Storage.SaveThenLoad` | script.js:33-48 | if the codec reads back what it writes, saving and then loading returns the same tasks in the same order |
| `Storage.SaveOverwrites` | script.js:46-48 | of two saves only the last list remains |
| `InlineEdit.Step` | script.js:132-170 | commitEdit runs exactly on blur or Enter while editing. A blank input restores the old text, a non-blank one shows its trimmed form. Escape restores the old text. Typing keeps the old text and replaces the buffer. An edit click while editing changes nothing. Viewing leaves exactly on an edit click, with the current text as both the old text and the buffer |
| `InlineEdit.Committed` | script.js:147-161 | a commit always ends in Viewing. Blank input shows the old text, and other input shows its trimmed, non-empty form |
| `InlineEdit.Run` | script.js:132-170 | a run commits at most once per event. A viewing row that gets no edit click stays as it was and commits nothing |
| `InlineEdit.RunAppend` | script.js:164-170 | running two stretches of events in sequence equals running their concatenation |
| `InlineEdit.TypingKeepsShown` | script.js:140 | typing changes only the buffer and commits nothing |
| `InlineEdit.EditThenCancel` | script.js:167-169 | edit, any typing, then Escape brings back the shown text and commits nothing |
| `InlineEdit.EditThenConfirm` | script.js:146-166 | edit, typing, then blur or Enter commits the last input exactly once and shows its trimmed form, or the old text if it is blank |
| `InlineEdit.StepKeepsShownDisplayable` | script.js:146-161 | a row showing non-empty trimmed text keeps doing so after any event |
| `Store.TaskStore.Init` | script.js:199-200 | at start-up the list is what the storage slot loads as, and the storage is untouched |
| `Store.TaskStore.SaveToStorage` | script.js:46-48 | the slot is overwritten with the current list |
| `Store.TaskStore.Add` | script.js:104-116 | blank input is rejected and changes neither the list nor the storage, and the input stays. Other input appends `{id, trim(raw), false}`, saves so that the slot holds the new list, and clears the input |
| `Store.TaskStore.Delete` | script.js:125-129 | the list becomes the old list without the id, and it is saved so that the slot holds it |
| `Store.TaskStore.CommitEdit` | script.js:146-162 | blank input changes nothing and saves nothing. Otherwise the first task with the id gets the trimmed text and the list is saved, so the slot holds it |
| `Store.TaskStore.SetCompleted` | script.js:176-190 | a missing id changes nothing. Otherwise the first matching task takes the checkbox value and the list is saved, so the slot holds it. A quote is signalled exactly when the task became completed |
| `Store.TaskStore.Render` | script.js:51-87 | rows have the same length and order as the tasks, and each row carries its task's id, text and completed flag. The progress is the list's progress. Nothing is modified |
| `Store.TaskStore.OnEditEvent` | script.js:132-170 | the row moves on as `Step` says, and a commit goes through commitEdit. After a non-blank commit, the row shows the text the model holds for the id |
| `Store.FirstSessionLists` | script.js:104-129 | add "Buy milk", check it, rename it, delete it: the list goes from one open task, to checked, to renamed with the flag kept, to empty |
| `Store.FirstSessionProgress` | script.js:90-101 | along that session the readout goes No tasks, 0%, 100%, 100% |
| `Store.FirstSession` | script.js:104-190 | that session, driven through the store's handlers from empty storage, shows NoTasks, 0%, 100%, 100%, NoTasks |

## Left out

- DOM work is not modelled: creating elements, `innerHTML`, `replaceWith`, focus and select, CSS classes, and the event delegation that finds the row (`closest("li")`). Only its effect on `tasks`, on the storage and on the per-row edit view is modelled.
- Quote selection (`Math.random` over a static table) is not modelled. The checkbox handler only returns whether a quote would be shown.
- `Date.now()` id generation is a clock read. The id is a parameter. Uniqueness holds only under the freshness preconditions of `AddFreshKeepsUnique` and `AddAllUnique`.
- `JSON.stringify` and `JSON.parse` are foreign library code and are modelled as a `Codec` of two functions. A parse that succeeds with something that is not a task list (`"null"`, a number) has no counterpart here. The source would store that value as `tasks` unchecked.
- `alert` is modelled as the rejection result of `Add`.
- `Math.round` on floating point is not modelled. The model uses exact integer half-up rounding, which can differ from the float computation at exact .5 boundaries.
- Event-ordering quirks are not modelled. A blur can follow Enter, so `commitEdit` runs twice. Removing the input on Escape may fire a blur. Each event is modelled on its own.
- When a checkbox change, an add or a delete re-renders the list, any row still in Editing is discarded. The per-row machine is not reset by the model.
- Strings are sequences of Unicode scalar values, not UTF-16 code units. This makes no difference to trim, because every whitespace code point it removes is a single code unit.
