# Pomodoro timer and task list, modelled in Dafny

This project models the core of a React Native app. The app pairs a
Pomodoro timer with a to-do list. It covers:

- the timer provider's state machine. This includes its three interval
  lengths, start, pause, reset, skip and mode change, the one-second tick,
  natural completion with its pomodoro credit, and the integer part of the
  estimated end time;
- what the timer card derives from that state: the `m:ss` text, the
  progress percentage, the main button's label, and when the reset/skip
  buttons and the focus badge appear;
- the Pomodoro screen's planned-effort sum over the open tasks, and its
  counts and message;
- the task list updaters of the task provider (add with id max+1, remove,
  toggle, edit), and the second copy of three of them (add, remove, toggle)
  in the navigator and the list screen, where add takes a clock-valued id;
- the inline task editor and the add-task form, both with trimming;
- the task counter's counts, message and plural;
- the two storage modules over a key-value store, with their shape checks
  and their load and save contracts.

Each source file has its own module. The parts of the source that change
state step by step are classes: `PomodoroProvider`, `TasksProvider`,
`Navigator`, `Editor`, `AddTaskForm` and `KeyValueStore`. Each of their
methods is proved to produce exactly the state given by a pure function of
the old state, such as `AfterSkip` or `AfterToggle`. The lemmas prove the
source's properties about those pure functions. The rest of the source
is made of expressions and is modelled as functions.

`JSON.stringify` and `JSON.parse` are not modelled. They are a `Codec`
parameter: a pair of functions between a JSON value datatype and strings.
The round-trip lemmas assume `Faithful(codec)`, which says that `parse`
undoes `stringify` and that `stringify` never yields the empty string. The
proofs never assume more than that. AsyncStorage is a map from keys to
strings. Its `failing` flag makes every read and write reject, and the
code swallows those rejections.

Where the code does something a reader might not expect, the model follows the code:
- A timer effect at zero completes the interval even when the timer is
  paused.
- Pausing flips the flag even when the timer is stopped.
- The long break is reachable only by hand.
- While a focus interval runs, the seconds figure behind the estimated end
  grows by one second per tick (the shown end time adds the wall clock to
  it). Starting a focus interval subtracts its remaining time
  (`EstimateDuringFocus`).
- The navigator's ids come from the clock and can collide
  (`AppendMayDuplicateId`).
- The planned total can fall below the number of open tasks when an
  estimate is negative (`NegativeEstimateBelowPending`).

## Model

| member | source | states |
|---|---|---|
| Text.Trim | src/components/EditableTaskText.tsx:40 | `trim()`: the result is a contiguous part of the input, only whitespace is cut on either side, and the result neither starts nor ends with whitespace |
| Text.TrimEmptyIffBlank | src/screens/AddTaskScreen.tsx:31 | the trimmed text is empty exactly when the input is whitespace only (both directions) |
| Text.TrimIdempotent | src/components/EditableTaskText.tsx:40-41 | trimming an already trimmed text changes nothing |
| Text.DecimalString | src/components/PomodoroTimer.tsx:35 | number-to-text conversion: only digits, no leading zero, a single digit exactly for values below 10 |
| Text.DecimalRoundTrip | src/components/PomodoroTimer.tsx:35 | reading the printed digits back gives the number |
| Storage.KeyValueStore.Peek | src/storage/pomodoroStorage.ts:11 | `getItem`: a failing store rejects; otherwise a value is present exactly when the key is stored, and it is the stored string |
| Storage.KeyValueStore.GetItem | src/storage/tasksStorage.ts:9 | the read returns what `Peek` describes and changes nothing |
| Storage.KeyValueStore.SetItem | src/storage/tasksStorage.ts:26 | `setItem` succeeds exactly when the store is not failing; on success only that key changes, and on failure nothing does |
| PomodoroStorage.IsPomodoroStats | src/storage/pomodoroStorage.ts:40-48 | `isPomodoroStats` as defined: an object whose two counters are present and numbers; sign and extra fields are not looked at |
| PomodoroStorage.StatsToJson | src/storage/pomodoroStorage.ts:30 | the object written for any stats record passes `isPomodoroStats` |
| PomodoroStorage.StatsOfJson | src/storage/pomodoroStorage.ts:14-15 | a value that passed the check is read as the record of its two counters (the code keeps the whole parsed object; see Left out) |
| PomodoroStorage.DecodeStats | src/storage/pomodoroStorage.ts:9-23 | a failed read, a missing or empty string gives null; a result is returned exactly when the string parses to a value passing `isPomodoroStats` (both directions), and it carries that value's counters |
| PomodoroStorage.DecodeStatsRejectsShape | src/storage/pomodoroStorage.ts:13-18 | a parsed value that fails `isPomodoroStats` loads as null |
| PomodoroStorage.DecodeStatsAcceptsAnyCounters | src/storage/pomodoroStorage.ts:40-48 | the check looks at neither sign nor anything else: every stats record, negative counters included, loads unchanged |
| PomodoroStorage.StatsRoundTrip | src/storage/pomodoroStorage.ts:9-15 | loading what saving a stats pair wrote gives that pair back |
| PomodoroStorage.LoadPomodoroStats | src/storage/pomodoroStorage.ts:9-23 | `loadPomodoroStats` returns `DecodeStats` of the stored string and never fails |
| PomodoroStorage.SavePomodoroStats | src/storage/pomodoroStorage.ts:28-35 | the key holds the serialised stats afterwards; on a failing store nothing changes and nothing is reported |
| PomodoroStorage.SaveThenLoad | src/storage/pomodoroStorage.ts:28-31 | on a working store, saving then loading returns exactly the saved stats |
| TasksStorage.TaskToJson | src/storage/tasksStorage.ts:25 | every task is written as an object that passes `isTask`; an absent estimate is left out |
| TasksStorage.IsTask | src/storage/tasksStorage.ts:32-40 | `isTask` as defined: an object whose `id` is a number, `text` a string and `completed` a boolean; the estimate is not looked at |
| TasksStorage.TaskOfJson | src/storage/tasksStorage.ts:32-40 | a value that passed `isTask` is read as the task with its id, text and completed flag (the code keeps the whole parsed object; see Left out) |
| TasksStorage.TaskOfJsonInverts | src/storage/tasksStorage.ts:25 | reading back the object written for a task gives the same task, estimate included |
| TasksStorage.TasksToJson | src/storage/tasksStorage.ts:25 | the saved array has one element per task, in order |
| TasksStorage.KeepTasks | src/storage/tasksStorage.ts:14 | `parsed.filter(isTask)`: never more tasks than elements; `KeepTasksAppend` and `KeepTasksSingle` pin it down as the in-order survivors |
| TasksStorage.KeepTasksAppend | src/storage/tasksStorage.ts:14 | the filter distributes over concatenation, so it keeps the survivors in their original order |
| TasksStorage.KeepTasksSingle | src/storage/tasksStorage.ts:14 | one element survives exactly when it passes `isTask` |
| TasksStorage.KeepTasksOfSaved | src/storage/tasksStorage.ts:12-14 | filtering an array of saved tasks keeps every one of them, unchanged |
| TasksStorage.DecodeTasks | src/storage/tasksStorage.ts:7-21 | null for a failed read, a missing or empty string, a parse failure or a non-array; for an array, exactly the filtered array (both directions) |
| TasksStorage.TasksRoundTrip | src/storage/tasksStorage.ts:7-14 | loading what saving a task list wrote gives the same list |
| TasksStorage.LoadTasks | src/storage/tasksStorage.ts:7-21 | `loadTasks` returns `DecodeTasks` of the stored string and never fails |
| TasksStorage.SaveTasks | src/storage/tasksStorage.ts:23-30 | the key holds the serialised list afterwards; a failing write is swallowed and changes nothing |
| PomodoroContext.Duration | src/context/PomodoroContext.tsx:10-14 | 1500 s of focus, 300 s of short break, 900 s of long break |
| PomodoroContext.Initial | src/context/PomodoroContext.tsx:40-47 | the state on mount, a stopped full focus interval with zero stats, is within the bounds every operation keeps |
| PomodoroContext.AfterSetMode | src/context/PomodoroContext.tsx:83-88 | `setMode(m)`: mode m, full duration of m, stopped and unpaused, stats unchanged |
| PomodoroContext.AfterStart | src/context/PomodoroContext.tsx:136-139 | `startTimer`: active and unpaused; mode, time and stats unchanged |
| PomodoroContext.AfterPause | src/context/PomodoroContext.tsx:142-144 | `pauseTimer` flips only the paused flag, whether or not the timer runs |
| PomodoroContext.AfterReset | src/context/PomodoroContext.tsx:147-151 | `resetTimer` is `setMode` of the current mode: mode and stats kept, full time, stopped |
| PomodoroContext.AfterSkip | src/context/PomodoroContext.tsx:154-163 | `skipTimer` ends in the state `setMode` of the next mode in the skip order gives; no credit |
| PomodoroContext.AfterComplete | src/context/PomodoroContext.tsx:91-116 | completion stops the timer, adds one completed pomodoro after focus and none after a break, never touches the total, and moves to the short break after focus and to focus after either break |
| PomodoroContext.AfterEffect | src/context/PomodoroContext.tsx:119-133 | one run of the timer effect: a stopped timer never changes, the total is kept, and the completed count rises by one exactly when an active focus interval is at zero |
| PomodoroContext.EffectNotice | src/context/PomodoroContext.tsx:95-98 | a notification is raised exactly when the effect run completes the interval; it is the focus one exactly after a focus interval |
| PomodoroContext.AfterSetTotal | src/context/PomodoroContext.tsx:166-171 | `setTotalPomodoros` overwrites the total and keeps everything else, completed count included |
| PomodoroContext.TickDecrements | src/context/PomodoroContext.tsx:120-123 | a tick of a running, unpaused timer above zero takes exactly one second off and changes nothing else |
| PomodoroContext.EffectIdleWhenStopped | src/context/PomodoroContext.tsx:119-133 | a stopped timer, or a paused one away from zero, does not change and raises nothing |
| PomodoroContext.EffectCompletion | src/context/PomodoroContext.tsx:124-126 | an active timer at zero completes on the next effect run, paused or not, with the credit, total and next mode of `AfterComplete` |
| PomodoroContext.PauseTwice | src/context/PomodoroContext.tsx:142-144 | pausing twice restores the state |
| PomodoroContext.SkipCycle | src/context/PomodoroContext.tsx:156-162 | skip always changes the mode, three skips return to the starting mode, and skip keeps the stats |
| PomodoroContext.ApplyKeepsBounded | src/context/PomodoroContext.tsx:83-171 | every operation and the tick keep 0 <= timeLeft <= duration of the current mode |
| PomodoroContext.RunKeepsBounded | src/context/PomodoroContext.tsx:41 | any sequence of operations and ticks from a bounded state stays bounded |
| PomodoroContext.RunNeverLowersCompleted | src/context/PomodoroContext.tsx:101-106 | no sequence of operations and ticks lowers the completed count; the stats load effect, which replaces the counters with whatever was stored, is the one exception and is not an action |
| PomodoroContext.RunKeepsTotal | src/context/PomodoroContext.tsx:166-171 | without `setTotalPomodoros` the total never changes |
| PomodoroContext.RunWithoutEffectKeepsCompleted | src/context/PomodoroContext.tsx:154-163 | only natural completion credits a pomodoro: without tick runs (skips included) the completed count stays |
| PomodoroContext.LongBreakOnlyByHand | src/context/PomodoroContext.tsx:108-115 | starting outside the long break, no sequence of start, pause, reset, total updates and ticks reaches it |
| PomodoroContext.CountDown | src/context/PomodoroContext.tsx:120-123 | n ticks of a running timer take exactly n seconds off |
| PomodoroContext.TicksSplit | src/context/PomodoroContext.tsx:119-133 | a + b tick runs are a runs followed by b runs |
| PomodoroContext.FocusIntervalCredits | src/context/PomodoroContext.tsx:91-133 | a started focus interval left alone ends after 1500 ticks plus the completing one, stopped in a full short break with exactly one more completed pomodoro |
| PomodoroContext.CurrentIntervalSeconds | src/context/PomodoroContext.tsx:179 | `currentTimeInSeconds`: non-zero only as the time left of an active focus interval, and within one focus interval in a bounded state |
| PomodoroContext.EstimatedEnd | src/context/PomodoroContext.tsx:174-181 | the `--:--` sentinel exactly when total <= completed; otherwise the remaining pomodoros at 1500 s less the running focus interval's time left |
| PomodoroContext.EstimateBounds | src/context/PomodoroContext.tsx:179-181 | within bounds, the estimate is non-negative and at most the remaining pomodoros at full length |
| PomodoroContext.EstimateDuringFocus | src/context/PomodoroContext.tsx:179-181 | as written, starting focus subtracts the time left, and each tick of a running focus interval adds one second to the figure |
| PomodoroContext.EstimateExample | src/context/PomodoroContext.tsx:174-181 | 4 planned, 1 done, focus running with 600 s left gives 3900 s; 0 of 0 gives the sentinel |
| PomodoroContext.PomodoroProvider.constructor | src/context/PomodoroContext.tsx:40-47 | the provider starts in the initial state |
| PomodoroContext.PomodoroProvider.SetMode | src/context/PomodoroContext.tsx:83-88 | the new state is `AfterSetMode` of the old one, bounds kept |
| PomodoroContext.PomodoroProvider.HandleTimerComplete | src/context/PomodoroContext.tsx:91-116 | the new state is `AfterComplete` of the old one; the toast is the focus one exactly after focus |
| PomodoroContext.PomodoroProvider.EstimatedEndTime | src/context/PomodoroContext.tsx:174-181 | the provider's `estimatedEndTime` in seconds: `--:--` exactly when total <= completed; during a running focus interval the figure plus its time left is the remaining pomodoros at 1500 s |
| PomodoroContext.PomodoroProvider.RunTimerEffect | src/context/PomodoroContext.tsx:119-133 | one effect run moves to `AfterEffect` of the old state and raises `EffectNotice` |
| PomodoroContext.PomodoroProvider.StartTimer | src/context/PomodoroContext.tsx:136-139 | the new state is `AfterStart` of the old one |
| PomodoroContext.PomodoroProvider.PauseTimer | src/context/PomodoroContext.tsx:142-144 | the new state is `AfterPause` of the old one |
| PomodoroContext.PomodoroProvider.ResetTimer | src/context/PomodoroContext.tsx:147-151 | the new state is `AfterReset` of the old one |
| PomodoroContext.PomodoroProvider.SkipTimer | src/context/PomodoroContext.tsx:154-163 | reset followed by `setMode` of the next mode ends in `AfterSkip` of the old state |
| PomodoroContext.PomodoroProvider.SetTotalPomodoros | src/context/PomodoroContext.tsx:166-171 | the new state is `AfterSetTotal` of the old one |
| PomodoroContext.PomodoroProvider.LoadStatsEffect | src/context/PomodoroContext.tsx:54-67 | stored stats that load replace the counters; otherwise nothing changes |
| PomodoroContext.PomodoroProvider.SaveStatsEffect | src/context/PomodoroContext.tsx:70-80 | the stats key holds the current stats afterwards, unless the store fails |
| PomodoroTimer.SplitTime | src/components/PomodoroTimer.tsx:33-34 | minutes * 60 + seconds gives back the input, with seconds < 60 |
| PomodoroTimer.SecondsField | src/components/PomodoroTimer.tsx:35 | always two digits, led by '0' exactly when seconds < 10, and reading the same number |
| PomodoroTimer.FormatTime | src/components/PomodoroTimer.tsx:32-36 | digits, a colon, then exactly two digits; the digits before the colon read as `seconds / 60` and the two after it as `seconds % 60`; the minutes are not zero-padded, so a leading '0' means exactly zero minutes ("0:ss") |
| PomodoroTimer.FormatTimeRoundTrip | src/components/PomodoroTimer.tsx:32-36 | reading the `m:ss` text back gives the seconds it was made from |
| PomodoroTimer.TotalSeconds | src/components/PomodoroTimer.tsx:53-64 | the card's interval table agrees with the provider's for every mode |
| PomodoroTimer.Progress | src/components/PomodoroTimer.tsx:118-119 | the percentage stays within [0, 100]; it is 0 at the full interval and 100 at zero |
| PomodoroTimer.ProgressMonotone | src/components/PomodoroTimer.tsx:119 | less time left never shows less progress |
| PomodoroTimer.ControlButton | src/components/PomodoroTimer.tsx:67-95 | INICIAR exactly when stopped; CONTINUAR exactly when running and paused; PAUSAR exactly when running and unpaused |
| PomodoroTimer.PressControl | src/components/PomodoroTimer.tsx:76-90 | the main button's press: the timer ends up active with time, mode and stats kept; from stopped it starts unpaused, while active it flips the pause flag |
| PomodoroTimer.PressControlCycle | src/components/PomodoroTimer.tsx:76-90 | pressing the main button leads INICIAR and CONTINUAR to PAUSAR and PAUSAR to CONTINUAR, without touching time or mode |
| PomodoroTimer.ShowsResetAndSkip | src/components/PomodoroTimer.tsx:225 | reset and skip are rendered exactly while the timer is active |
| PomodoroTimer.ResetAndSkipHideThemselves | src/components/PomodoroTimer.tsx:225-244 | reset and skip are offered only while active, and using either one stops the timer, which hides both and shows INICIAR |
| PomodoroTimer.FindTask | src/components/PomodoroTimer.tsx:29 | `find` returns the first task with the id, and nothing exactly when no task has it |
| PomodoroTimer.SelectedTask | src/components/PomodoroTimer.tsx:29 | a missing, null or 0 id selects nothing; a selected task is in the list and has that id |
| PomodoroTimer.ShowsFocusBadge | src/components/PomodoroTimer.tsx:176 | the badge shows exactly when a task is selected and the mode is focus |
| PomodoroTimer.FocusBadgeForListedTask | src/components/PomodoroTimer.tsx:176 | for a listed task with a non-zero id the badge shows exactly in focus mode |
| TaskCounter.PendingTasks | src/components/TaskCounter.tsx:11 | keeps exactly the tasks that are not completed |
| TaskCounter.CompletedTasks | src/components/TaskCounter.tsx:12 | keeps exactly the completed tasks |
| TaskCounter.PendingAppend | src/components/TaskCounter.tsx:11 | the pending filter distributes over concatenation |
| TaskCounter.CountsAddUp | src/components/TaskCounter.tsx:11-13 | pending + completed = total |
| TaskCounter.PluralSuffix | src/components/TaskCounter.tsx:23 | the suffix is "s" exactly when the count is not 1 |
| TaskCounter.CounterMessage | src/components/TaskCounter.tsx:21-24 | the all-done message exactly when nothing is pending; otherwise "Você tem N tarefa(s) pendente(s)", where N is a numeral with no leading zero whose value is the pending count and both suffixes are "s" exactly when that count is not 1 |
| TaskCounter.EmptyListAllDone | src/components/TaskCounter.tsx:21-22 | an empty list shows the all-done message |
| TaskCounter.CompletedFigure | src/components/TaskCounter.tsx:27-36 | the completed/total figure exists exactly for a non-empty list; the total is the list length and total minus completed is the pending count |
| PomodoroScreen.EffectiveEstimate | src/screens/PomodoroScreen.tsx:22 | the logical-or default: an absent or 0 estimate counts as 1, any other counts as itself |
| PomodoroScreen.PlannedTotal | src/screens/PomodoroScreen.tsx:20-22 | `totalEstimatedPomodoros`: zero when no task is open; `PlannedTotalAppend`, `PlannedTotalSingle` and `CompletingLowersPlanned` give its value |
| PomodoroScreen.SumAppend | src/screens/PomodoroScreen.tsx:22 | the left-fold sum distributes over concatenation |
| PomodoroScreen.PlannedTotalAppend | src/screens/PomodoroScreen.tsx:20-22 | the planned total of a list is the sum of its parts' totals |
| PomodoroScreen.PlannedTotalSingle | src/screens/PomodoroScreen.tsx:20-22 | one task adds its effective estimate when open and nothing when completed |
| PomodoroScreen.CompletingLowersPlanned | src/screens/PomodoroScreen.tsx:21-22 | marking an open task completed lowers the total by exactly its effective estimate |
| PomodoroScreen.ToggleLowersPlanned | src/screens/PomodoroScreen.tsx:19-24 | with unique ids, toggling an open task in the provider lowers the planned total by its effective estimate |
| PomodoroScreen.PlannedAtLeastPending | src/screens/PomodoroScreen.tsx:20-22 | with no negative estimate, the planned total is at least the number of open tasks |
| PomodoroScreen.NegativeEstimateBelowPending | src/screens/PomodoroScreen.tsx:22 | a negative estimate can pull the total below the number of open tasks |
| PomodoroScreen.TaskCounts | src/screens/PomodoroScreen.tsx:26-27 | the screen's pending and completed counts add up to the list length |
| PomodoroScreen.ShowsSummary | src/screens/PomodoroScreen.tsx:64 | the summary box is rendered exactly for a non-empty list |
| PomodoroScreen.SummaryShowsFigure | src/screens/PomodoroScreen.tsx:64 | the summary box shows exactly for a non-empty list, the same lists for which the completed/total figure inside it exists |
| PomodoroScreen.PendingMessage | src/screens/PomodoroScreen.tsx:70-72 | the all-done message exactly when nothing is pending; otherwise "N tarefa(s) pendente(s)", where N is a numeral with no leading zero whose value is the pending count and both suffixes are "s" exactly when that count is not 1 |
| PomodoroScreen.NoFocusBadgeOnScreen | src/screens/PomodoroScreen.tsx:92 | the timer on this screen has no selected task, so the focus badge never shows |
| PomodoroScreen.SyncPlannedTotal | src/screens/PomodoroScreen.tsx:19-24 | after the effect the timer's total is the planned total of the tasks, and nothing else changes |
| TasksContext.MaxId | src/context/TasksContext.tsx:75 | the maximum is at least every id and is one of them |
| TasksContext.NextId | src/context/TasksContext.tsx:75 | the new id is greater than every existing id: the maximum plus one, or 1 for an empty list |
| TasksContext.AfterAdd | src/context/TasksContext.tsx:73-80 | exactly one open task without an estimate is appended, with the given text and the next id; the earlier tasks are unchanged |
| TasksContext.AfterRemove | src/context/TasksContext.tsx:82-85 | a task is kept exactly when it was in the list and its id differs |
| TasksContext.RemoveAppend | src/context/TasksContext.tsx:83 | removal distributes over concatenation, so the survivors keep their order |
| TasksContext.RemoveAbsent | src/context/TasksContext.tsx:83 | removing an id that no task has changes nothing |
| TasksContext.RemoveTwice | src/context/TasksContext.tsx:83 | removing twice is removing once |
| TasksContext.AfterToggle | src/context/TasksContext.tsx:87-93 | same length and order; only tasks with the id have `completed` flipped; ids, texts and estimates stay |
| TasksContext.ToggleTwice | src/context/TasksContext.tsx:88-92 | toggling the same id twice restores the list |
| TasksContext.AfterEdit | src/context/TasksContext.tsx:95-102 | only tasks with the id get the new text; ids, flags and estimates stay |
| TasksContext.EditLastWins | src/context/TasksContext.tsx:96-100 | two edits of one id leave the second text |
| TasksContext.AddKeepsUnique | src/context/TasksContext.tsx:75 | adding keeps ids unique |
| TasksContext.RemoveKeepsUnique | src/context/TasksContext.tsx:83 | removing keeps ids unique |
| TasksContext.ToggleKeepsUnique | src/context/TasksContext.tsx:89 | toggling keeps ids unique |
| TasksContext.EditKeepsUnique | src/context/TasksContext.tsx:97 | editing keeps ids unique |
| TasksContext.ToggleUniqueIsUpdate | src/context/TasksContext.tsx:88-92 | with unique ids, toggling a task's id flips that one task and nothing else |
| TasksContext.TasksProvider.constructor | src/context/TasksContext.tsx:32-37 | an empty list, loading, first mount |
| TasksContext.TasksProvider.LoadEffect | src/context/TasksContext.tsx:40-60 | a loaded list replaces the current one, and loading ends; after unmount nothing changes |
| TasksContext.TasksProvider.SaveEffect | src/context/TasksContext.tsx:63-71 | a save happens exactly when this is not the first run and loading has ended; the first run only clears the flag |
| TasksContext.TasksProvider.AddTask | src/context/TasksContext.tsx:73-80 | the list becomes `AfterAdd` of the old one |
| TasksContext.TasksProvider.RemoveTask | src/context/TasksContext.tsx:82-85 | the list becomes `AfterRemove` of the old one |
| TasksContext.TasksProvider.ToggleTask | src/context/TasksContext.tsx:87-93 | the list becomes `AfterToggle` of the old one |
| TasksContext.TasksProvider.EditTask | src/context/TasksContext.tsx:95-102 | the list becomes `AfterEdit` of the old one |
| AppNavigator.DefaultTasks | src/navigation/AppNavigator.tsx:19-23 | three tasks with ids 1, 2, 3, no estimates, two pending and one completed |
| AppNavigator.AfterAppend | src/navigation/AppNavigator.tsx:74-81 | exactly one open task is appended, with the given text and the clock value as id; the earlier tasks are unchanged |
| AppNavigator.AppendAddsPending | src/navigation/AppNavigator.tsx:74-81 | adding raises the pending count by one and keeps the completed count |
| AppNavigator.AppendFreshKeepsUnique | src/navigation/AppNavigator.tsx:76 | ids stay unique when the clock value is not already an id |
| AppNavigator.AppendMayDuplicateId | src/navigation/AppNavigator.tsx:76 | nothing prevents a clock value from equalling an existing id |
| AppNavigator.Navigator.constructor | src/navigation/AppNavigator.tsx:24-25 | before hydration the list is the three default tasks |
| AppNavigator.Navigator.HydrateEffect | src/navigation/AppNavigator.tsx:27-39 | a loaded array, even an empty one, replaces the list; no stored list keeps it; hydrated becomes true either way; after unmount nothing changes |
| AppNavigator.Navigator.SaveEffect | src/navigation/AppNavigator.tsx:41-45 | the list is saved exactly when hydrated |
| AppNavigator.Navigator.RemoveTask | src/navigation/AppNavigator.tsx:55-57 | the list becomes `AfterRemove` of the old one: every task with the id goes, the rest keep their order |
| AppNavigator.Navigator.AddTask | src/navigation/AppNavigator.tsx:74-81 | the list becomes `AfterAppend` of the old one |
| TaskListScreen.ToggleTaskCompletion | src/screens/TaskListScreen.tsx:55-61 | the list becomes `AfterToggle` of the old one, so `ToggleTwice` and the unique-id lemmas hold for it too |
| TaskListScreen.ConfirmDelete | src/screens/TaskListScreen.tsx:63-68 | only the destructive choice removes the id; cancelling leaves the list as it was |
| TaskListScreen.ToggleOpenTaskCompletesOne | src/screens/TaskListScreen.tsx:56-60 | with unique ids, checking an open task lowers the pending count by one and raises the completed count by one |
| TaskListScreen.View | src/screens/TaskListScreen.tsx:95-107 | the empty state exactly for an empty list; otherwise one row per task, in order |
| TaskListScreen.ViewAfterActions | src/screens/TaskListScreen.tsx:95-107 | toggling never switches to or from the empty state; removing the id that every task has brings it back |
| EditableTaskText.SavedText | src/components/EditableTaskText.tsx:39-42 | `onSave` is called exactly when the trimmed draft is non-empty and differs from the text, and it receives the trimmed draft |
| EditableTaskText.DraftAfterSave | src/components/EditableTaskText.tsx:43-44 | a blank draft is put back to the text; any other draft stays as typed |
| EditableTaskText.BlankNeverSaved | src/components/EditableTaskText.tsx:43-44 | whitespace-only input never reaches `onSave` and resets the draft |
| EditableTaskText.SavedIsTrimmed | src/components/EditableTaskText.tsx:40-42 | what is saved is non-blank, differs from the text and has no surrounding whitespace |
| EditableTaskText.ResaveSavesNothing | src/components/EditableTaskText.tsx:22-24 | once the parent stores the saved text and the draft resyncs to it, saving again calls nothing |
| EditableTaskText.Editor.constructor | src/components/EditableTaskText.tsx:18-19 | not editing, the draft equal to the text |
| EditableTaskText.Editor.ReceiveProps | src/components/EditableTaskText.tsx:22-24 | a changed text prop resyncs the draft to it; an unchanged one leaves the draft |
| EditableTaskText.Editor.ChangeText | src/components/EditableTaskText.tsx:59 | the draft becomes the typed text |
| EditableTaskText.Editor.HandleDoublePress | src/components/EditableTaskText.tsx:33-37 | a long press enters editing only when the task is not completed |
| EditableTaskText.Editor.HandleSave | src/components/EditableTaskText.tsx:39-47 | returns the `onSave` argument given by `SavedText`, leaves the draft as `DraftAfterSave` says, and always ends editing |
| EditableTaskText.Editor.HandleCancel | src/components/EditableTaskText.tsx:49-52 | the draft is restored to the text, editing ends, and nothing is saved |
| EditableTaskText.Editor.HandleKeyPress | src/components/EditableTaskText.tsx:62-66 | Escape cancels on the web only; every other key press changes nothing |
| AddTaskScreen.SaveTaskAction | src/screens/AddTaskScreen.tsx:30-37 | the task is added, and navigation goes back, exactly when the text is not whitespace only, and the added text is the trimmed text; otherwise the alert shows |
| AddTaskScreen.AddedTextIsTrimmed | src/screens/AddTaskScreen.tsx:32 | the added text has no surrounding whitespace, and submitting it again would add the same text |
| AddTaskScreen.AddTaskForm.constructor | src/screens/AddTaskScreen.tsx:28 | the form opens with empty text |
| AddTaskScreen.AddTaskForm.ChangeText | src/screens/AddTaskScreen.tsx:47 | the form text becomes the typed text |
| AddTaskScreen.AddTaskForm.HandleSaveTask | src/screens/AddTaskScreen.tsx:30-37 | the action is `SaveTaskAction` of the form text; the navigator's list gains the trimmed task only on that path, and is otherwise unchanged |

## Left out

- The wall-clock part of the estimated end (`new Date`, `toLocaleTimeString`, src/context/PomodoroContext.tsx:183-186): the model stops at the number of seconds to add, or the `--:--` sentinel.
- `setTimeout`/`clearTimeout` scheduling and effect cleanup: one run of the timer effect is the discrete step `AfterEffect`. Real time is not modelled, and neither is the rescheduling on every render.
- React batching and re-rendering: `skipTimer`'s reset followed by `setMode` is two sequential updates whose final state is `setMode`'s.
- The order in which the mount's stats load and the first stats save finish is not modelled. Each effect is a separate method, and the model does not say which one runs first.
- Toasts, alerts and vibration: completion yields a `Notice` tag, the delete confirmation a `DeleteChoice` and the add form a `SaveAction`. Console logging is left out.
- The progress ring's geometry, colours and layout: `Math.PI` floats and JSX.
- The internals of `JSON.stringify` and `JSON.parse`. They are the `Codec` parameter, and `Faithful(codec)` is the hypothesis of the round trips.
- JSON numbers are integers here. Fractional counters or ids are not modelled, and neither are NaN or infinities.
- PomodoroStorage.StatsOfJson: extra fields of the stored stats object are dropped; the code returns the parsed object itself, so such fields would survive in state and be written back on the next save.
- TasksStorage.TaskOfJson: extra fields of a stored task object are dropped; the code keeps the parsed object, so they would survive the reducers' spreads and be written back on the next save.
- TasksStorage.TaskOfJson: a stored `estimatedPomodoros` that is not a number reads as an absent estimate, whereas the code would carry the foreign value along unchecked.
- `Date.now()`: the clock reading is the `now` parameter of `AppNavigator.Navigator.AddTask` and `AddTaskScreen.AddTaskForm.HandleSaveTask`.
- The focus and selection handling of the editor's text input (src/components/EditableTaskText.tsx:26-31). The `onToggle` press is also left out, because it only calls the parent.
- Text.Trim: ECMAScript's whitespace set is modelled character by character. Surrogate pairs and Unicode data beyond that set are not.
- PomodoroTimer.FormatTime: takes a natural number. The code's `%` on a negative or fractional value cannot arise from a bounded timer.
- PomodoroTimer.Progress: computed over exact reals rather than IEEE doubles.
- TasksContext.TasksProvider.LoadEffect: the alert branch of the load effect is not modelled, because `loadTasks` never rejects.
- Header, icon, theme and app wiring files, and the type declarations, which have no behaviour. Their `Task` and `PomodoroStats` shapes are the datatypes in `Types`.
