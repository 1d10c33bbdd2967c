# FocusRing core, modelled in Dafny

FocusRing is an Electron overlay with a radial menu and four tools: notes, timers, reminders
and settings. This project models its scheduling and bookkeeping logic and proves properties of
the model:

- **Reminder scheduler** (`Scheduler.dfy`, electron/scheduler.js). The `pending` map takes a
  reminder id to a one-shot handle. The periodic sweep is installed at most once. The module
  also has `scheduleReminder`, `cancelReminder` and `rescheduleAll`. Nothing in the source calls
  `rescheduleAll`: main.js does not import it, and the `onSystemResumed` that Reminder.tsx imports
  is not defined in renderer/src/ipc.ts. So `Scheduler.ReminderScheduler.RescheduleAll` models an
  exported function that never runs on wake-up as things stand. The event loop is made
  explicit: live timeouts are a map from handle to what the timeout will do. The clock is the
  `now` argument. The event loop runs a due timeout through `OnTimeout` and the sweep through `Tick`. Rows
  handed to the sweep's `onFire` callback are appended to a log.
- **Timer engine** (`Timers.dfy`, electron/main.js). It covers `activeTimers`, `scheduleTimer`,
  its timeout callback, `restoreTimers` and the `timer/create|list|cancel|delete` handlers.
  Notifications and `timer/fired` messages go to an event log, one entry per finished timer.
- **Overlay mode machine** (`Overlay.dfy`, electron/main.js). This is the interactive or
  click-through flag with its auto-revert timeout. It also covers `overlay/setAutoTimeout`,
  `overlay/setShortcut`, `overlay/userActivity` and the startup parsing of both settings.
- **Reminder IPC handlers** (`ReminderHandlers.dfy`, electron/main.js). Each handler pairs a
  store call with a scheduler call. Each keeps every live timeout holding its row as stored.
- **Store** (`Db.dfy`, electron/db.js). The five repositories are in-memory tables from id to
  row. Ids follow SQLite's rowid rule. The model includes create defaults, upserts, the
  single-row window table and the reminder status writes. The `notes/*`, `timer/list`,
  `reminder/list` and `settings/*` IPC handlers pass straight through to these repositories.
- **Renderer tools**. `TimerTool.dfy`, `ReminderTool.dfy`, `NotesTool.dfy` and `SettingsTool.dfy`
  cover the four tool components. `RadialMenu.dfy` covers the radial menu. Pure helpers are
  functions. Component state becomes a class whose handlers are methods. IPC results and the
  user's answers to confirmation dialogs are parameters.
- **Shared pieces**. `Js.dfy` holds the JavaScript built-ins the code relies on: `trim`,
  `parseInt`, `padStart`, `filter` and the Node `setTimeout` delay rule. `Sorting.dfy` holds the
  status-then-key sort. `ClockText.dfy` holds the `HH:MM:SS` / `MM:SS` remaining-time text.

The model follows the code where the code and the application's description disagree:

- There is no pause or resume of timers.
- The stored status values are the ones the code writes.

Four mismatches between callers and the store are kept as the code has them:

- `remindersRepo.getAll`, `remindersRepo.update(id, row)`, `remindersRepo.remove` and
  `timersRepo.remove` are called but not defined in electron/db.js. They are modelled as the
  operations their callers assume (`Db.RemindersRepo.GetAll`, `Update`, `Remove`,
  `Timers.TimerTable.Remove`).
- main.js writes timer records as `name/totalSeconds/targetAt/status`. db.js stores
  `label/duration_ms/elapsed_ms/state`. `Timers.TimerTable` is the table as main.js uses it, and
  `Db.TimersRepo` is the table as db.js defines it.
- Nothing ever sets `targetAt`. With the store as main.js assumes it (`Timers.TimerTable`), a
  created timer is stored as running, computes a NaN delay, and Node arms that for 1 ms
  (`Timers.TimerEngine.CreateTimer`). The timer tool shows `NaN:NaN:NaN` for it
  (`TimerTool.FormatRemaining`). With db.js as written the created row has no `status`, so
  scheduleTimer returns at once and nothing is armed (see `Db.TimersRepo.Create` under
  "## Left out").
- A timeout armed by `scheduleReminder` writes the row back as fired but never calls `onFire`.
  Later sweeps skip that row (`Scheduler.TimeoutFiredNotSwept`), so it produces no
  notification.

## Model

| member | source | states |
|---|---|---|
| Js.TrimEmptyIffBlank | electron/main.js:304-305 | `trim()` gives the empty string exactly for a string of white space only |
| Js.TrimIdempotent | electron/main.js:37-38 | trimming a trimmed string changes nothing |
| Js.Pad2 | renderer/src/tools/Timer.tsx:87 | `String(n).padStart(2, '0')` is all digits, exactly two of them below 100, and reads back as n |
| Js.DecimalRoundTrip | electron/main.js:294 | the digits written for n read back as n (the text of `String(n)` below 10^21) |
| Js.ParseDecimal | electron/main.js:29 | `parseInt(String(n), 10)` gives n back for every safe integer n (up to Number.MAX_SAFE_INTEGER) |
| Js.ParseNegativeDecimal | renderer/src/tools/Settings.tsx:149 | `parseInt('-' + String(n), 10)` gives -n for every safe integer n |
| Js.LowerOfUpper | renderer/src/tools/Notes.tsx:144-145 | lower-casing an upper-cased string gives the string lower-cased: case is forgotten |
| Js.Filter | renderer/src/tools/Timer.tsx:75 | `filter` keeps exactly the elements the predicate accepts, none added |
| Js.FilterDropsOne | renderer/src/tools/Timer.tsx:75 | filtering out the only rejected element leaves the others in their order |
| Js.FilterKeepsAll | renderer/src/tools/Timer.tsx:75 | a filter that rejects nothing returns the list unchanged |
| Js.FilterNoRepeats | electron/scheduler.js:10 | filtering a list without repeats gives a list without repeats |
| Js.ArmDelay | electron/scheduler.js:30-32 | Node arms a requested delay in [1, 2^31 - 1] as is, and NaN or anything else as 1 ms |
| Sorting.SortBy | renderer/src/tools/Timer.tsx:91-101 | the sorted list is a permutation of the input, ordered by group and then by key |
| Sorting.GroupsInOrder | renderer/src/tools/Timer.tsx:96-97 | in a sorted list every element of a lower group precedes every element of a higher one |
| Db.NextRowId | electron/db.js:42 | the new row id is fresh, one more than the largest id, and 1 in an empty table |
| Db.Scan | electron/db.js:40 | `all` returns every row of the table exactly once |
| Db.SettingsRepo.Get | electron/db.js:45 | the stored value, or null exactly for an absent key |
| Db.SettingsRepo.Set | electron/db.js:46 | upsert: get(key) gives the value afterwards, every other key reads as before, result true |
| Db.WindowRepo.Get | electron/db.js:49 | row 1, or null exactly when there is none |
| Db.WindowRepo.Set | electron/db.js:50 | the table holds exactly row 1 with the given columns afterwards |
| Db.NewNote | electron/db.js:54 | create stores the given title, content, position and size; '' for a missing title or content; pinned 0/1 by truthiness; position 50/50 and size 200x160 for a missing or 0 value |
| Db.UpdatedNote | electron/db.js:55 | update writes title, content and pinned exactly as create does, and position and size as given (missing stays NULL) |
| Db.NotesRepo.List | electron/db.js:53 | every note once, most recently updated first |
| Db.NotesRepo.Create | electron/db.js:54 | a fresh id holds the defaulted note and nothing else changes |
| Db.NotesRepo.Update | electron/db.js:55 | a known id is rewritten and returned; an unknown or missing id changes nothing and gives null |
| Db.NotesRepo.Remove | electron/db.js:56 | only that row is deleted and the result is true |
| Db.StateOrIdle | electron/db.js:60 | a missing or empty state becomes 'idle', any other is kept |
| Db.TimerRowOf | electron/db.js:60-61 | the given label and durations are stored, '' and 0 when missing; the state is kept unless missing or empty, then 'idle' |
| Db.TimersRepo.List | electron/db.js:59 | every timer row once, most recently updated first |
| Db.TimersRepo.Create | electron/db.js:60 | a fresh id holds the defaulted row and nothing else changes |
| Db.TimersRepo.Update | electron/db.js:61 | a known id is rewritten and returned; otherwise nothing changes and the result is null |
| Db.WithStatus | electron/db.js:66-67 | the status write changes the status of the named rows only |
| Db.RemindersRepo.List | electron/db.js:64 | every reminder once, earliest fire time first |
| Db.RemindersRepo.Create | electron/db.js:65 | a fresh id holds the reminder with status scheduled, whatever the input says |
| Db.RemindersRepo.Cancel | electron/db.js:66 | only that id becomes canceled; an unknown id changes nothing; the result is true |
| Db.RemindersRepo.MarkFired | electron/db.js:67 | only that id becomes fired; an unknown id changes nothing |
| Db.RemindersRepo.GetAll | electron/scheduler.js:10 | every stored reminder once, as stored |
| Db.RemindersRepo.Update | electron/scheduler.js:12 | row id is overwritten if it exists; an unknown id changes nothing |
| Db.RemindersRepo.Remove | electron/main.js:417 | only that row is deleted |
| Db.StatusLeavesScheduledOnly | electron/db.js:66-67 | a fired or canceled reminder never returns to scheduled through a status write |
| Scheduler.ReminderDelay | electron/scheduler.js:29 | `max(0, fire_at - now)`: never negative, the time left when in the future, else 0 |
| Scheduler.DropIds | electron/scheduler.js:19-25 | clearing the handles of some ids leaves exactly the live timeouts of the other ids |
| Scheduler.ReminderScheduler.OneTimeoutPerId | electron/scheduler.js:27-34 | at most one live timeout per reminder id |
| Scheduler.ReminderScheduler.Start | electron/scheduler.js:6-8 | the sweep is installed; a second call changes nothing |
| Scheduler.ReminderScheduler.ClearPending | electron/scheduler.js:19-25 | only the id's handle is cleared and forgotten; an id without one changes nothing |
| Scheduler.ReminderScheduler.ScheduleReminder | electron/scheduler.js:27-34 | the earlier handle for the id is cleared and exactly one fresh handle is pending, due after the clamped delay |
| Scheduler.ReminderScheduler.CancelReminder | electron/scheduler.js:36-38 | only the id's pending entry and its timeout go |
| Scheduler.ReminderScheduler.OnTimeout | electron/scheduler.js:30-32 | the timeout writes its captured row back as fired, calls no onFire, and pending keeps the spent handle |
| Scheduler.ReminderScheduler.SweepOne | electron/scheduler.js:11-15 | one reminder: stored as fired, handed to onFire, its handle cleared |
| Scheduler.ReminderScheduler.SweepList | electron/scheduler.js:11-15 | the loop marks fired, hands to onFire and clears the handle of exactly the listed reminders |
| Scheduler.ReminderScheduler.Tick | electron/scheduler.js:8-16 | a sweep fires exactly the scheduled reminders due at now, each once, and clears their handles |
| Scheduler.ReminderScheduler.RescheduleAll | electron/scheduler.js:40-56 | all handles cleared; scheduled future reminders get one fresh handle each; scheduled past ones become fired; others untouched; no onFire |
| Scheduler.ReminderScheduler.ClearAll | electron/scheduler.js:42-43 | every pending handle is cleared and pending is empty |
| Scheduler.ReminderScheduler.RescheduleList | electron/scheduler.js:48-55 | the loop over the scheduled reminders arms the future ones and fires the past ones |
| Scheduler.ReminderScheduler.RescheduleOne | electron/scheduler.js:49-54 | one scheduled reminder: a future one is armed, a past one is stored as fired |
| Scheduler.SelectedOnce | electron/scheduler.js:10 | the sweep's filter selects each due reminder exactly once, as stored |
| Scheduler.TimeoutFiredNotSwept | electron/scheduler.js:30-32 | a reminder its own timeout fired is never due for a later sweep, so onFire never sees it |
| Timers.TimerTable.Create | electron/main.js:364-368 | a fresh positive id holds the new record, with no target |
| Timers.TimerTable.List | electron/main.js:373-375 | every timer record once, as stored |
| Timers.TimerTable.Update | electron/main.js:163 | the row with the record's id is replaced; an unknown id is ignored |
| Timers.TimerTable.Remove | electron/main.js:399 | only that row is deleted |
| Timers.Delay | electron/main.js:160 | `targetAt - now`, NaN exactly when there is no target |
| Timers.FindById | electron/main.js:380 | a record with that id from the list, or undefined when none has it |
| Timers.FinishOverdue | electron/main.js:198-211 | restoreTimers' writes: a visited running row without a future target becomes done, nothing else changes |
| Timers.RestoreSettles | electron/main.js:198-211 | after restoreTimers a row is running only with a future target, and the only change is running to done |
| Timers.TimerEngine.ClearHandle | electron/main.js:382-386 | the id's handle is cleared and forgotten; nothing else changes |
| Timers.TimerEngine.ScheduleTimer | electron/main.js:157-196 | ignored without a timer, a running status or a truthy id; an expired one is stored done with one event and its entry dropped but not cleared; otherwise one fresh handle replaces the old |
| Timers.TimerEngine.OnTimerTimeout | electron/main.js:178-194 | the timeout stores its record as done, drops the id's entry, and appends exactly one event |
| Timers.TimerEngine.RestoreTimers | electron/main.js:198-211 | running rows with a future target are re-armed with a fresh handle and their old timeout is cleared; other running rows become done without an event; other rows, other ids' handles and every other live timeout are untouched; the next handle does not go back |
| Timers.TimerEngine.RestoreOne | electron/main.js:201-210 | one visited row follows the three cases of restoreTimers, keeping the handles and live timeouts of every other row |
| Timers.TimerEngine.Rearm | electron/main.js:203-204 | re-arming one row clears only its old timeout and keeps the handles and live timeouts of every other row |
| Timers.TimerEngine.CreateTimer | electron/main.js:358-371 | a missing or non-positive duration throws 'invalid duration' and changes nothing; otherwise a running record with the trimmed name is stored and armed for 1 ms |
| Timers.TimerEngine.StartTimer | electron/main.js:364-369 | the created record is stored under a fresh id and scheduled |
| Timers.TimerEngine.CancelTimer | electron/main.js:377-390 | a falsy or unknown id changes nothing; otherwise the handle is cleared and the record is stored and returned as cancelled |
| Timers.TimerEngine.DeleteTimer | electron/main.js:392-401 | a falsy id changes nothing; otherwise the handle is cleared and the row removed |
| Overlay.RevertDelay | electron/main.js:127-130 | the revert is armed for `autoTimeoutSec * 1000` ms when Node can honour it |
| Overlay.HugeTimeoutRevertsAtOnce | electron/main.js:130 | a timeout beyond Node's limit reverts after 1 ms |
| Overlay.AcceptedTimeout | electron/main.js:288-291 | a value is accepted exactly when its parse is a positive number, and then as that number |
| Overlay.AcceptedShortcut | electron/main.js:304-307 | a value is accepted exactly when it is not blank, and then trimmed |
| Overlay.LoadedTimeout | electron/main.js:27-33 | startup takes a stored timeout exactly when its parse is positive, else keeps the default |
| Overlay.LoadedShortcut | electron/main.js:36-39 | startup takes a stored shortcut, trimmed, exactly when it is not blank |
| Overlay.StoredTimeoutReloads | electron/main.js:287-294 | a timeout setAutoTimeout stores is read back at startup as the same number, when it is a safe integer |
| Overlay.StoredShortcutReloads | electron/main.js:303-310 | the shortcut setShortcut stores is read back at startup, and accepted again, unchanged |
| Overlay.OverlayState.LoadSettings | electron/main.js:26-39 | startup sets the timeout and shortcut from the settings and nothing else |
| Overlay.OverlayState.ScheduleAutoRevert | electron/main.js:125-131 | the held handle is cleared and exactly one fresh revert is pending |
| Overlay.OverlayState.ToggleInteract | electron/main.js:133-146 | the flag flips; a revert is pending exactly when the overlay is interactive |
| Overlay.OverlayState.OnRevert | electron/main.js:127-130 | the revert makes the overlay click-through with nothing pending |
| Overlay.OverlayState.SetAutoTimeout | electron/main.js:287-301 | a rejected value changes nothing; an accepted one is taken, stored as text and re-arms an interactive revert |
| Overlay.OverlayState.SetShortcut | electron/main.js:303-314 | a blank value changes nothing; otherwise the trimmed value is taken and stored |
| Overlay.OverlayState.StoreShortcut | electron/main.js:309-310 | the shortcut is set and stored under its key |
| Overlay.OverlayState.UserActivity | electron/main.js:339-343 | an interactive overlay's revert is re-armed; otherwise nothing changes |
| ReminderHandlers.CreateReminder | electron/main.js:406-410 | the reminder is stored as scheduled and exactly one handle is armed for it |
| ReminderHandlers.CancelReminder | electron/main.js:411-414 | the handle is cleared and only that row becomes canceled |
| ReminderHandlers.DeleteReminder | electron/main.js:415-418 | the handle is cleared before only that row is removed |
| ClockText.Split | renderer/src/tools/Timer.tsx:83-86 | hours, minutes below 60 and seconds below 60 that sum back to the total |
| ClockText.SplitUnique | renderer/src/tools/Timer.tsx:84-86 | that split is the only one with minutes and seconds below 60 |
| ClockText.LongReadsBack | renderer/src/tools/Timer.tsx:84-88 | the `HH:MM:SS` text reads back as the count of seconds |
| ClockText.ShortReadsBack | renderer/src/tools/Reminder.tsx:206-211 | below one hour the `MM:SS` text reads back as the count of seconds |
| ClockText.ClockHasColon | renderer/src/tools/Timer.tsx:88 | every clock text holds a colon |
| ClockText.NotAStatusWord | renderer/src/tools/Timer.tsx:79-88 | no clock text is 'Abgebrochen' or 'Fertig' |
| TimerTool.ParseIntSafe | renderer/src/tools/Timer.tsx:38-43 | the result lies in [0, max]: the parse when in range, max above it, 0 for NaN or a negative |
| TimerTool.StartSecondsRange | renderer/src/tools/Timer.tsx:46-50 | the duration lies in [0, 359999], is 0 only for three zero fields, and splits back into them |
| TimerTool.FormatRemainingWords | renderer/src/tools/Timer.tsx:78-82 | 'Abgebrochen' exactly for cancelled; 'Fertig' exactly for done or a passed target |
| TimerTool.FormatRemainingReadsBack | renderer/src/tools/Timer.tsx:83-88 | before the target the `HH:MM:SS` text reads back as the whole seconds left |
| TimerTool.SortedTimers | renderer/src/tools/Timer.tsx:91-101 | a permutation, running timers first, then descending id |
| TimerTool.WithoutTimer | renderer/src/tools/Timer.tsx:75 | exactly the timers with another id stay |
| TimerTool.WithoutOneTimer | renderer/src/tools/Timer.tsx:75 | deleting the one timer with that id keeps the rest in order |
| TimerTool.WithoutNone | renderer/src/tools/Timer.tsx:75 | deleting an id no timer has leaves the list unchanged |
| TimerTool.TimerToolState.HandleStart | renderer/src/tools/Timer.tsx:45-65 | a zero duration sends nothing; otherwise the request carries name and duration, the created timer goes first, and the inputs are reset |
| TimerTool.TimerToolState.ClearInputs | renderer/src/tools/Timer.tsx:58-61 | the name is emptied and the duration fields reset to '0' |
| TimerTool.TimerToolState.HandleDelete | renderer/src/tools/Timer.tsx:67-76 | deleted exactly when not running or confirmed, and then the list loses that id |
| ReminderTool.FormatRemainingWords | renderer/src/tools/Reminder.tsx:200-204 | 'Abgebrochen' exactly for canceled; 'Fertig' exactly for fired or a passed fire time |
| ReminderTool.FormatRemainingShort | renderer/src/tools/Reminder.tsx:205-211 | under one hour the text is `MM:SS` and reads back as the seconds left |
| ReminderTool.FormatRemainingLong | renderer/src/tools/Reminder.tsx:205-210 | from one hour on the text is `HH:MM:SS` and reads back as the seconds left |
| ReminderTool.SortedReminders | renderer/src/tools/Reminder.tsx:214-224 | a permutation, scheduled reminders first, then ascending fire time |
| ReminderTool.MarkFired | renderer/src/tools/Reminder.tsx:56-73 | the entry with the fired id becomes fired at the message's time; others are unchanged; the length is kept |
| ReminderTool.MarkFiredTwice | renderer/src/tools/Reminder.tsx:56-73 | a repeated fired message changes nothing more |
| ReminderTool.MarkFiredShowsDone | renderer/src/tools/Reminder.tsx:56-73 | after the message the entry shows 'Fertig' |
| ReminderTool.WheelMinutes | renderer/src/tools/Reminder.tsx:91-94 | the step stays in [0, 1439]; down goes back one minute and up forward one inside the day; 00:00 down stays 0 and 23:59 up stays 1439 |
| ReminderTool.WheelText | renderer/src/tools/Reminder.tsx:95-97 | `HH:MM` with hour below 24 and minute below 60 that reads back as the minutes |
| ReminderTool.WheelUndo | renderer/src/tools/Reminder.tsx:91-97 | inside the day one step down and one up give back the time |
| ReminderTool.FireTimestamp | renderer/src/tools/Reminder.tsx:142-144 | null exactly for a non-finite instant or one not after now; otherwise the instant |
| ReminderTool.WithoutReminder | renderer/src/tools/Reminder.tsx:179 | exactly the reminders with another id stay |
| ReminderTool.WithoutOneReminder | renderer/src/tools/Reminder.tsx:179 | removing the one reminder with that id keeps the rest in order |
| ReminderTool.ReminderToolState.OnReminder | renderer/src/tools/Reminder.tsx:55-74 | the list becomes the marked list; the message is kept |
| ReminderTool.ReminderToolState.HandleCreate | renderer/src/tools/Reminder.tsx:147-171 | sent exactly for a non-blank message and a truthy future instant; then the created reminder goes first and the message is cleared |
| ReminderTool.ReminderToolState.HandleAction | renderer/src/tools/Reminder.tsx:176-183 | after a successful delete the list loses that id; a failure changes nothing |
| NotesTool.Merge | renderer/src/tools/Notes.tsx:97 | the patch's fields win and the id is kept |
| NotesTool.MergeEmpty | renderer/src/tools/Notes.tsx:97 | an empty patch leaves the note unchanged |
| NotesTool.FindNote | renderer/src/tools/Notes.tsx:22-25 | a note with that id from the list, or undefined when none has it |
| NotesTool.FindNoteIsFirst | renderer/src/tools/Notes.tsx:23 | the note found is the first with that id |
| NotesTool.ReplaceNote | renderer/src/tools/Notes.tsx:100 | every note with the updated id is replaced; others keep place and value |
| NotesTool.ReplaceThenFind | renderer/src/tools/Notes.tsx:97-100 | after the replacement the selected id finds the updated note |
| NotesTool.TogglePin | renderer/src/tools/Notes.tsx:122-123 | pinned 1 or true becomes 0, anything else 1 |
| NotesTool.TogglePinTwice | renderer/src/tools/Notes.tsx:119-125 | toggling 0 or 1 twice restores it; toggling flips whether the note counts as pinned |
| NotesTool.MatchesIgnoresCase | renderer/src/tools/Notes.tsx:144-145 | a note matches a query exactly when its upper-cased copy does |
| NotesTool.UmlautFilterMatches | renderer/src/tools/Notes.tsx:140-145 | the filter "über" finds a note titled "Übersicht" |
| NotesTool.FilteredNotes | renderer/src/tools/Notes.tsx:139-155 | the result is a permutation of the notes (blank filter) or of the notes matching the trimmed, lower-cased query, each kept as often as it occurs; pinned first, then descending id |
| NotesTool.NeedsConfirm | renderer/src/tools/Notes.tsx:76 | confirmation is asked exactly when title or content is not blank |
| NotesTool.NotesToolState.Selected | renderer/src/tools/Notes.tsx:22-25 | the selected note is in the list with the selected id, or no note has that id |
| NotesTool.NotesToolState.UpdateNote | renderer/src/tools/Notes.tsx:95-109 | no selection changes nothing; otherwise the merged note replaces its id and stays selected, and is sent exactly when its id is truthy |
| NotesTool.NotesToolState.HandleTogglePin | renderer/src/tools/Notes.tsx:119-125 | the selected note is replaced by itself with the pin toggled, and `notes/update` is sent exactly when its id is truthy |
| NotesTool.NotesToolState.HandleDelete | renderer/src/tools/Notes.tsx:72-93 | deleted exactly for a selected truthy id, confirmed when needed, and a successful call; then that id leaves the list and the first note left is selected |
| SettingsTool.Modifiers | renderer/src/tools/Settings.tsx:64-68 | each held modifier once, in the order Control, Alt, Shift, Command |
| SettingsTool.KeyName | renderer/src/tools/Settings.tsx:71-73 | ' ' becomes 'Space', one character is upper-cased, a longer name is kept |
| SettingsTool.SplitJoin | renderer/src/tools/Settings.tsx:76 | splitting a '+' join gives the parts back when none holds a '+' |
| SettingsTool.ShortcutReadsBack | renderer/src/tools/Settings.tsx:64-76 | a recorded shortcut reads as its modifiers in order followed by exactly one key |
| SettingsTool.JoinEndsWithLast | renderer/src/tools/Settings.tsx:75-76 | the joined string ends with the last part |
| SettingsTool.KeyNameNotBlank | renderer/src/tools/Settings.tsx:71-73 | the name of a non-blank key is not blank |
| SettingsTool.RecordedShortcutAccepted | renderer/src/tools/Settings.tsx:64-79 | a shortcut recorded from a non-blank key passes setShortcut's check |
| SettingsTool.TimeoutInput | renderer/src/tools/Settings.tsx:149 | NaN or 0 gives 1; any other parse is taken |
| SettingsTool.NumberTextParses | renderer/src/tools/Settings.tsx:102 | the number sent reads back in main.js as itself, when it is a safe integer |
| SettingsTool.TimeoutInputAccepted | renderer/src/tools/Settings.tsx:149 | setAutoTimeout takes the input's number exactly when it is positive, for a safe integer |
| SettingsTool.SaveCalls | renderer/src/tools/Settings.tsx:100-105 | the four calls in order, cut after the first rejection |
| SettingsTool.SettingsToolState.BuildShortcut | renderer/src/tools/Settings.tsx:63-76 | the pushed parts joined with '+' are the modifiers followed by the key's name |
| SettingsTool.SettingsToolState.HandleKeyDown | renderer/src/tools/Settings.tsx:54-80 | a bare modifier or no recording leaves the keys; otherwise they become the one new shortcut |
| SettingsTool.SettingsToolState.StartRecording | renderer/src/tools/Settings.tsx:113-116 | recording starts with no recorded keys |
| SettingsTool.SettingsToolState.StopRecording | renderer/src/tools/Settings.tsx:118-124 | recording stops; the last recorded key becomes the shortcut, if there is one |
| SettingsTool.SettingsToolState.Save | renderer/src/tools/Settings.tsx:86-111 | while recording the last key becomes the shortcut; the calls are made in order; saved exactly when all four resolved |
| SettingsTool.SettingsToolState.SetTimeoutInput | renderer/src/tools/Settings.tsx:149 | the timeout becomes the input's fallback value |
| RadialMenu.WithAlpha | renderer/src/components/RadialMenu.tsx:13-16 | `#RRGGBB` gets the alpha appended; anything else is returned as is |
| RadialMenu.WithAlphaOnce | renderer/src/components/RadialMenu.tsx:13-16 | a colour that already has an alpha is not changed again |
| RadialMenu.MenuColor | renderer/src/components/RadialMenu.tsx:28-29 | active accent when interactive, else the inactive one, falling back to the active one when it is empty |
| RadialMenu.MenuAlphas | renderer/src/components/RadialMenu.tsx:30-32 | 33/CC/AA when interactive, 18/88/55 otherwise |
| RadialMenu.MenuPaintMeaning | renderer/src/components/RadialMenu.tsx:28-32 | a hex accent is painted with the mode's suffixes; anything else is painted as is |
| RadialMenu.AngleCount | renderer/src/components/RadialMenu.tsx:37-43 | one angle per item from two items on, else one |
| RadialMenu.ButtonAt | renderer/src/components/RadialMenu.tsx:83-84 | tab index i + 1 when interactive, -1 and disabled otherwise |
| RadialMenu.Buttons | renderer/src/components/RadialMenu.tsx:73-84 | one button per item in order; with no items the render throws |
| RadialMenu.TabOrder | renderer/src/components/RadialMenu.tsx:84 | interactive buttons have increasing tab indices from 1; click-through ones are all -1 and disabled |

## Left out

- Windows, `webContents.send`, notifications, `saveBounds`, the window position, the IPC
  transport and global shortcut registration. Electron plumbing is reduced to the event logs
  (`fires`, `events`).
- The theme. Its stored JSON, `overlay/setTheme` and the theme editor use a foreign JSON parser.
  `SettingsTool.SaveCalls` records only that the theme call is made.
- Real `setTimeout` and `setInterval`. Handles are map entries and callbacks are methods the
  event loop calls. The 500 ms period of the sweep is only a constant.
- The clock is read once per handler, and the callees get that one `now`. The source reads it
  again in two places. `scheduleTimer` calls `Date.now()` when `restoreTimers` calls it
  (electron/main.js:159). Each `scheduleReminder` that `rescheduleAll` calls reads the clock at
  electron/scheduler.js:29, after `rescheduleAll`'s own read at scheduler.js:47. So
  `Scheduler.ReminderScheduler.RescheduleList` and `RescheduleOne` arm `max(0, fire_at - now)` with
  `rescheduleAll`'s `now`, where the source uses a slightly later instant.
- Db.RemindersRepo.Create: `fire_at` is a number. The `new Date(r.fire_at).getTime()` path of
  electron/db.js:65 for a date string is not modelled. The reminder tool always sends a number.
- sql.js, the SQL text and persistence to disk. ISO `updated_at` strings are instants.
- Date, locale and time-zone handling. This covers `formatTime`, the date and time parsing in
  `buildFireTimestamp` (an instant or NaN is a parameter), the date wheel, and the splitting of
  the time input's text on the wheel.
- Markdown preview through `marked`, float geometry in the radial menu, and all styling.
- The `busy` and `saving` flags and the two-second reset of `saved`.
- `loadNotes`, `loadReminders`, the notes `handleCreate` and the initial `getConfig` load. They
  only copy IPC results into state.
- Non-integral numbers. `NumOrBool` and every count are integers, so `Number(...)` of a fraction
  or of a non-numeric string in `timer/create` is not modelled.
- Js.ToUpper: ASCII and Latin-1 letters only. 'ß' (which JavaScript turns into "SS"), 'ÿ', 'µ' and letters beyond Latin-1 are kept as they are.
- Js.ToLower: ASCII and Latin-1 capitals only, so Ä, Ö and Ü are lowered. Capitals beyond U+00FF are kept as they are.
- NotesTool.FilteredNotes: inherits the Latin-1 limit of Js.ToLower. A query or note holding a capital beyond U+00FF matches only in the same case.
- Js.Decimal: `String(n)` switches to exponent notation from 10^21 ("1e+21"). The model always writes plain digits, and its integers are exact where JavaScript numbers round above 2^53.
- Js.DecimalRoundTrip: is about the plain digits Decimal writes. These are JavaScript's text only below 10^21.
- Js.ParseInt: returns the exact value of the digits. JavaScript rounds a value above Number.MAX_SAFE_INTEGER to the nearest double.
- Js.ParseDecimal: requires a safe integer. Above 2^53 `parseInt` rounds, and from 10^21 it reads "1e+21" as 1.
- Js.ParseNegativeDecimal: requires a safe integer, for the same reason as Js.ParseDecimal.
- Overlay.StoredTimeoutReloads: requires a safe integer. A stored timeout of 10^21 is written as "1e+21" and reloads as 1.
- SettingsTool.NumberTextParses: requires a safe integer, for the same reason as Js.ParseDecimal.
- SettingsTool.TimeoutInputAccepted: requires the input's number to be a safe integer, for the same reason.
- Sorting.SortBy: the sort is stable by construction, but the contract does not state what happens to entries with equal keys.
- ReminderTool.ReminderToolState.OnReminder: a `fire_at` that arrives as a string or is missing is not modelled. The message always carries a number.
- ReminderTool.ReminderToolState.HandleCreate: assumes `reminder/create` resolves. A rejection propagates out of the handler and is not modelled.
- TimerTool.TimerToolState.HandleStart: assumes `timer/create` resolves. A rejection propagates out of the handler and is not modelled.
- TimerTool.TimerToolState.HandleDelete: assumes `timer/delete` resolves.
- Timers.TimerEngine.CreateTimer: the duration is given as a whole number or as missing.
- Timers.TimerEngine.RestoreTimers: the next handle is only stated not to go back, not to grow by exactly the number of re-armed rows; handles are the model's stand-in for Node's timeout objects.
- `overlay/setAutoRevert`: main.js registers no handler for it. The first call of save
  therefore rejects, which is `SettingsTool.SettingsToolState.Save` with `succeeded` 0.
- Db.TimersRepo.Create: with db.js as written, main.js's `create({name, totalSeconds, status})`
  stores an 'idle' row with label '' and 0 durations. `Timers.TimerTable` models the table as
  main.js assumes it instead.
