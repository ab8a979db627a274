# gitpull: a model of the project manager's state

The program is a small desktop tool that keeps a list of local git clones
("projects"), lets the user tick some of them, and then either deletes the
ticked ones or fast-forwards each of them from its `origin` remote. Every
error or notable outcome is appended as one tagged line to a text log, and
the log is cut back to its last 1000 lines after each error line and once
after all the messages of a batch update.

This project models the in-memory state of the Rust `App` struct in
`src/main.rs` and proves properties of it. There are three modules:

- `LogText` (`log_text.dfy`) covers the log text. `Lines` is Rust's
  `str::lines`. It splits at '\n', drops a '\r' before a line feed, and keeps
  a '\r' at the end of an unterminated last line. It yields no empty piece
  after a final '\n'. `Join` is `join("\n")`. `Capped` is the text that
  `limit_log_buffer` leaves behind. `Terminated` is the text pushed for a
  sequence of messages, each followed by "\n".
- `Sync` (`sync.dfy`) covers one project of a batch update.
  - `GitProbe` holds the answers of the git library for that project, in the
    order the update loop asks for them.
  - `Classify` turns them into an `Outcome` using the nested `if`s of the loop.
  - `Message` is the log line written for that outcome.
  - Each failing `unwrap()` once FETCH_HEAD is found is the outcome
    `Aborted`: the program panics, and the batch goes no further.
- `GitPull` (`app.dfy`) holds the `Project` record, the class `App`, and the
  specification functions for its operations.
  - The class fields are `projects`, `newProject` (the form),
    `selectedProjects` (one flag per project, `Valid()`), `progress` and
    `logBuffer`.
  - Each method is proved against a function of the old state:
    - `AddProject` against `Register` and `RegistrationError`.
    - `UpdateSelectedProjects` against `SelectedIndices`, `RunBatch` and
      `Messages`. The `Report` values record each outcome with its project.
    - `DeleteSelectedProjects` against `Unselected` and `RemoveEach`.
    - `LimitLogBuffer` against `Capped`.
  - Lemmas then relate those functions to what the program promises.

### The log cap and the lost line feed

`limit_log_buffer` rebuilds the buffer with `lines[skip..].join("\n")`.
Rebuilding drops the final line feed. The next message is then pushed with
`push_str`, so it lands on the same line as the last kept line. The glued
line counts as one line.

- `CappedLines` proves what the cap does guarantee:
  - a buffer of at most 1000 lines is left unchanged;
  - at most 1000 lines ever remain;
  - when the buffer has no '\r' and its last line is not empty, exactly the
    last 1000 lines remain, in order.
- `CappedLosesFinalNewline` proves that, when the cap cuts and the last line
  is not empty, the rebuilt buffer no longer ends with a line feed. A buffer
  whose last line is empty (one ending in "\n\n") can still end with one.
- `GlueAfterCap` proves the consequence for a full log of 1000 lines. After
  one more message `a` is pushed and the log is cut, the next message `b` is
  appended as the single line `a + b`. The log then still has 1000 lines, not
  999 old lines plus `a` and `b`.

One would expect a 1000-line cap to keep the last 1000 of 1200 single-line
entries. The code does not do that, because entries after the first cut are
glued together. The model follows the code.

### Failing `unwrap()` ends the batch

One would also expect one project's failure never to stop the later projects
from being attempted. That is true of every error the update loop logs. It is not true of the failing `unwrap()` calls at
`src/main.rs:185-195`. Those panic, and the model reports them as `Aborted`:

- the batch stops at that project;
- no message is appended to the log;
- the flags are not cleared;
- the progress stays where the last completed project left it.

## Model

| member | source | states |
|---|---|---|
| LogText.LinesClean | src/main.rs:250 | no line of `lines()` contains a line feed, and none contains a carriage return when the text has none |
| LogText.CappedLines | src/main.rs:248-255 | a log of at most 1000 lines is kept unchanged; at most 1000 lines remain after the cap; without '\r' and with a non-empty last line, exactly the last 1000 lines remain, in order |
| LogText.CappedLosesFinalNewline | src/main.rs:251-254 | when the cap cuts and the last line is not empty, the rebuilt log (joined with "\n") no longer ends with a line feed |
| LogText.GlueAfterCap | src/main.rs:215-218 | after a full log takes message `a` and is cut, the next message `b` joins `a` on one line: the log keeps the old lines minus the first, plus the single line `a + b`, and needs no further cut |
| LogText.AppendMessages | src/main.rs:215-217 | pushing clean messages, each followed by "\n", onto a log that ends at a line start adds exactly those lines, in order |
| LogText.LinesOfJoin | src/main.rs:253 | clean lines joined with "\n" are read back by `lines()` unchanged when the last one is non-empty |
| LogText.JoinEnds | src/main.rs:253 | a join whose last line is non-empty and free of line feeds does not end with a line feed |
| Sync.Classify | src/main.rs:179-209 | the outcome of a project follows the checks in order: it opens, it has `origin`, the fetch succeeds, FETCH_HEAD exists, then up to date, fast-forward, otherwise a conflict; each outcome holds exactly when the earlier checks pass and its own fails or holds; a failing `unwrap()` gives `Aborted` |
| Sync.Message | src/main.rs:182-208 | the message for an outcome is tagged `[INFO] ` exactly for the up-to-date and fast-forward outcomes and `[ERROR] ` for the rest |
| Sync.MessageIsOneLine | src/main.rs:182-208 | every message is one line of the log (no line feed, no carriage return) when the project's name, its path and the fetch error are |
| GitPull.Register | src/main.rs:93-111 | a candidate is admitted exactly when path and name are non-empty, the path opens as a repository and it has `origin`; each rejection reason holds exactly when the earlier checks pass and its own fails |
| GitPull.RegistrationErrorIsOneLine | src/main.rs:104-110 | each rejection message is one line of the log when the path and the name are |
| GitPull.LogErrorAddsOneLine | src/main.rs:243-246 | `log_error` adds exactly the one line `[ERROR] ` + message to a log that ends at a line start |
| GitPull.SelectedIndices | src/main.rs:168-171 | the selected indices are strictly ascending, each in range with its flag set, and every set flag's index is among them |
| GitPull.UnselectedNoneSelected | src/main.rs:227-241 | deleting with no flag set keeps every project |
| GitPull.UnselectedAt | src/main.rs:227-241 | the projects kept by a deletion are exactly those at the unselected indices, in ascending order of index |
| GitPull.UnselectedFlags | src/main.rs:235-238 | a deletion leaves as many flags as projects, and every remaining flag is clear |
| GitPull.RemoveEachSelected | src/main.rs:235-238 | removing the selected indices one by one, highest first, from either sequence keeps exactly its unselected elements |
| GitPull.DescendingBound | src/main.rs:235-238 | the p-th index removed (highest first) is within the length left after p removals, so every `Vec::remove` is in range |
| GitPull.RunBatch | src/main.rs:177-213 | a batch never makes more reports than it completes, never completes more than the selected indices, and never reports `Aborted` |
| GitPull.RunBatchProgress | src/main.rs:177-213 | the batch is cut short exactly when some selected index with a project has a failing `unwrap()`; it then stops at the first such index, with the reports of the indices before it; otherwise it completes every selected index, including those with no project |
| GitPull.RunBatchStopped | src/main.rs:185-195 | once the batch has been cut short, later indices change nothing |
| GitPull.RunBatchCompletes | src/main.rs:211-212 | a batch that is not cut short completes every index |
| GitPull.RunBatchInOrder | src/main.rs:177-210 | a batch that is not cut short, over indices that all have a project, makes one report per index, in index order, each giving that project and its outcome |
| GitPull.SelectedBatch | src/main.rs:167-213 | a batch over the selected indices that is not cut short completes all of them, and logs one message per selected project, in ascending index order, each the message of its outcome |
| GitPull.IndicesToRemove | src/main.rs:228-233 | the indices to remove are every selected index and nothing else, strictly decreasing |
| GitPull.App.constructor | src/main.rs:31-56 | the projects are those in the configuration file (none if it is missing or unparsable), one clear flag per project, an empty form, progress 0 and an empty log |
| GitPull.App.EditNewProject | src/main.rs:78-91 | typing into the form changes the form only |
| GitPull.App.EditLog | src/main.rs:147-151 | typing into the editable log area replaces the log with the user's text and changes nothing else |
| GitPull.App.SetSelected | src/main.rs:129-131 | a checkbox changes that one flag only |
| GitPull.App.LimitLogBuffer | src/main.rs:248-255 | the log becomes `Capped` of the old log; nothing else changes |
| GitPull.App.LogError | src/main.rs:243-246 | the log becomes the cap of the old log plus `[ERROR] `, the message and a line feed; nothing else changes |
| GitPull.App.AddProject | src/main.rs:93-112 | an admitted candidate is appended with a clear flag and the form is emptied, with the log unchanged; a rejected one changes only the log, which takes one capped `[ERROR]` line with the reason; the flags keep the projects' length |
| GitPull.App.UpdateSelectedProjects | src/main.rs:167-225 | projects and form are unchanged; completed count and abort agree with `RunBatch` over the selected indices; if not cut short, all selected indices are completed, the log takes the capped messages in order and every flag is cleared; if cut short, log and flags are unchanged; progress is completed over selected, or unchanged when nothing was completed |
| GitPull.App.ProcessSelected | src/main.rs:173-213 | the loop computes exactly `RunBatch` of the selected indices, collects `Messages` of its reports, and leaves progress at completed over total |
| GitPull.App.PushMessages | src/main.rs:215-217 | the log gains each message followed by a line feed, in order |
| GitPull.App.ClearSelections | src/main.rs:220-224 | the flags keep their number and are all clear |
| GitPull.App.DeleteSelectedProjects | src/main.rs:227-241 | the projects become exactly the unselected ones in order; one flag per project remains, all clear; form, progress and log are unchanged |
| GitPull.App.RemoveProject | src/main.rs:236-237 | the element at the index is removed from both sequences |
| GitPull.App.RemoveIndices | src/main.rs:235-238 | removing the selected indices from the highest down leaves the unselected projects, in order, each with a clear flag |

## Left out

- The graphical form is not modelled: egui, fonts, window sizing, text styles, labels and the progress bar widget (`update` apart from the effects of the buttons, the checkboxes, the three form fields and the log area, `main`, `load_fallback_font`).
- Git is an oracle. `Repository::open`, `find_remote`, `fetch`, `find_reference`, `merge_analysis`, `set_target`, `set_head` and `checkout_head` are foreign code. They are the fields of `GitProbe`, and `opens`/`hasOrigin` for the add button.
- Fast-forwarding does not change the repository on disk in the model. Only its outcome is recorded.
- The configuration file is not modelled. `save_config`, `save`, `on_exit` and the choice of `config_path` are file I/O. Loading is abstracted as `ConfigFile`, where a missing or unparsable file gives no projects.
- `font_size` and `config_path` are not fields of the model class. They serve only the UI and the file I/O above.
- `progress` is an `f32` in the program. The model keeps it as the exact fraction `Fraction(completed, total)`, so float rounding is not modelled.
- The text of `FetchErr` is whatever the git library's error displays as. The model takes it as a string from the oracle.
- LogText.CappedLines: exactly the last 1000 lines remain only for logs without '\r' whose last line is not empty. Otherwise the contract states only the bound of 1000 lines, because `lines()` drops '\r' and `join` cannot bring back an empty last line.
- GitPull.App.UpdateSelectedProjects: a panic ends the whole program, not only the batch. The model returns `aborted` and leaves the rest of the state as it was at that moment.
- LogText.AppendMessages, GitPull.LogErrorAddsOneLine, LogText.GlueAfterCap: these hold for a log that ends at a line start (and, for GlueAfterCap, has no '\r'). The log area is editable (`EditLog`), so the user can remove the final line feed or add carriage returns, and a cut by the cap also removes the final line feed. The program does not restore either condition.
- LogText.Lines: a '\r' at the end of an unterminated last line is kept, as `str::lines` does in current Rust toolchains. Older toolchains strip it as well, and the model does not cover that behaviour.
