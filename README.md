# AEDT launcher for Slurm: a verified model of its core

The launcher is a desktop window that starts Ansys Electronics Desktop
(AEDT) on a Slurm cluster. A background thread polls two sources. One is
the cluster's load service, whose per-queue slot counts fill `queue_dict`.
The other is `squeue`, whose output is parsed into the job list `qstat_list`.
After each job-list poll, the thread drains the output and error files of
the jobs the launcher submitted into its message log.

The window's callbacks do the rest:

- build the environment-variable list passed to AEDT;
- submit interactive jobs with `sbatch`;
- cancel jobs;
- keep the message list and its "show all messages" filter;
- check the DISPLAY variable;
- react to changes in the core/node count.

This project models that core, all of it from `run_gui.py`, in Dafny:

- `wrappers.dfy` — `Option` and `Result`.
- `text.dfy` — the Python string operations the launcher relies on:
  slicing with clamping, `strip`, `split(sep)`, `join`, substring `in`,
  `replace(" ", "")`, `split()[-1]` and `os.path.join`.
- `numeric.dfy` — `str(int)` and `int(str)`, and the round trip between them.
- `job_list.dfy` — the `squeue` line parser (fixed column offsets, ASCII
  decoding, the header line dropped) and the filter that drops jobs on VNC
  or DCV nodes. Two kinds of lemmas:
  - the list is exactly the non-excluded lines, in order;
  - a row laid out by the `squeue --format` string the launcher passes
    parses back to its fields.
- `queue_load.dfy` — `queue_dict`: its initial counts, and how one
  cluster-status reply is applied, entry by entry and key by key.
- `activity_log.dfy` — message-list entries, which of them the widget
  shows, and `list.remove` of a PID.
- `artifacts.dfy` — the drain of `ansysedt.o<pid>` / `ansysedt.e<pid>`
  files as a function on (files, staged message, posted events).
- `poller.dfy` — the counter schedule of `ClusterLoadUpdateThread.run`.
- `submission.dfy` — the pure parts of the window's callbacks:
  - the clean-up of the variable list;
  - the `env[4:]` cut and the `name=value` split of the batch path;
  - `check_reservation`;
  - the count callback;
  - the interactive `sbatch` command;
  - `check_display_var`, `construct_node_specs_str` and `init_combobox`.
- `launcher.dfy` — class `Session`, which holds the state shared by the
  window and the poller as fields updated in place:
  - the module globals `queue_dict`, `qstat_list` and `log_dict`;
  - `log_data`'s message and PID lists;
  - the widget rows and the "show all" box;
  - the home directory's files and the posted events.

  Its methods are the state-changing operations: `add_log_entry`,
  `update_msg_list`, `on_clear`, `cancel_job`, the interactive path of
  `click_launch`, `submit_interactive_job`,
  `parse_user_jobs` with its drain, and `parse_cluster_load`.
  `Session.Valid()` is the invariant every logging method keeps: the widget
  shows exactly the visible entries of the message list, newest first.

External effects become parameters:

- what `squeue` printed (`None` when it failed);
- the load service's reply;
- the output of `sbatch` (success or failure);
- the user's confirmation;
- the timestamp;
- the DISPLAY value and the host name;
- the home directory, as a map from path to content.

## Model

| member | source | states |
|---|---|---|
| Text.Slice | run_gui.py:193-200 | Python slicing clamps: empty when the start is past the end or the stop is not after the start, the plain slice when in range, the tail when the stop runs past the end |
| Text.Strip | run_gui.py:193-200 | `strip()`: the result has no white space at either end, is never longer, leaves a trimmed text alone and empties an all-blank one |
| Text.StripPadded | run_gui.py:193-200 | blank padding on both sides of a trimmed field strips back to exactly that field |
| Text.ContainsAt | run_gui.py:203 | `node in node_list` holds exactly when the name occurs at some position of the node list (the empty name occurs everywhere) |
| Text.Split | run_gui.py:192 | `split(sep)` yields at least one part, more than one exactly when the separator occurs, and no part contains the separator |
| Text.Join | run_gui.py:864 | `sep.join(parts)` is as long as the parts together plus one separator between each two neighbours |
| Text.JoinSplit | run_gui.py:192 | joining the parts of a split with the separator gives the text back |
| Text.SplitJoin | run_gui.py:1197 | splitting a join of separator-free parts gives the parts back |
| Text.Remove | run_gui.py:944 | `replace(" ", "")`: no blank remains, every other character is kept with its count (multiset), a text without blanks is unchanged; with RemoveAppend this fixes the order too |
| Text.RemoveAppend | run_gui.py:868 | removing blanks from two texts one after the other is removing them from each |
| Text.LastToken | run_gui.py:964 | `split()[-1]` exists exactly when the output is not all white space, and is then a non-empty word without blanks |
| Text.LastTokenOf | run_gui.py:964 | the job id is the last word before any trailing white space |
| Text.PathJoin | run_gui.py:222 | `os.path.join(dir, name)` ends with the name and is the name itself for an empty directory |
| Numeric.IntToString | run_gui.py:936-941 | `str(n)` is non-empty, has no white space, and is all digits for a non-negative number |
| Numeric.NatToStringRoundTrip | run_gui.py:936 | the decimal digits of a natural number read back as that number |
| Numeric.ParseInt | run_gui.py:646 | `int(s)` raises on an empty or blank text, and a negative result needs a leading minus |
| Numeric.ParseIntAccepts | run_gui.py:646 | `int(s)` accepts exactly optional white space around one or more decimal digits with at most one leading sign |
| Numeric.ParseIntToString | run_gui.py:646 | `int(str(n)) == n` for every integer, negative ones included |
| JobList.DecodeAscii | run_gui.py:190 | `decode("ascii", errors="ignore")` yields only ASCII, never lengthens the text, and is the identity on pure ASCII |
| JobList.DecodeAsciiByte | run_gui.py:190 | a byte below 128 becomes the character with that code; any other byte is dropped |
| JobList.DecodeAsciiAppend | run_gui.py:190 | decoding works byte by byte: two pieces decode to the two texts one after the other |
| JobList.Column | run_gui.py:193-199 | a stripped column is trimmed, no wider than its slice, and empty on a line too short to reach it |
| JobList.ParseLine | run_gui.py:193-200 | each field of a job is trimmed and no wider than its column; a line of at most 29 characters gives empty fields past the id |
| JobList.ExcludedAt | run_gui.py:202-204 | a job is excluded exactly when some VNC or DCV node name is a substring of its node list |
| JobList.IsExcluded | run_gui.py:202-205 | the `for ... break ... else` loop reports a hit exactly when some excluded name occurs in the node list |
| JobList.KeptStep | run_gui.py:205-217 | one more line appends its parsed job at the end of the list exactly when its node list is not excluded |
| JobList.KeepMembership | run_gui.py:202-217 | a job is in the filtered list exactly when it is one of the parsed jobs and its node list is not excluded |
| JobList.KeepAppend | run_gui.py:192-217 | the filter keeps input order: filtering two runs of jobs is filtering each, one after the other |
| JobList.KeptSound | run_gui.py:192-217 | every job in the list comes from some line and runs on no VNC or DCV node |
| JobList.KeptComplete | run_gui.py:192-217 | every line whose node list names no excluded node is in the list |
| JobList.Kept | run_gui.py:192-217 | never more jobs than lines, and no job kept runs on a VNC or DCV node |
| JobList.ParseJobs | run_gui.py:188-217 | the header line never yields a job (fewer jobs than lines of output), and no job runs on a VNC or DCV node |
| JobList.TrailingEmptyLine | run_gui.py:192-217 | the empty line after squeue's final newline becomes an all-empty job at the end of the list, whenever no excluded name is empty |
| JobList.FormatRowLayout | run_gui.py:317 | in a row printed by `%.18i %.9P %.8j %.8u %.2t %.4C %.20V %R`, each field sits in the character range the parser cuts |
| JobList.ParseFormattedRow | run_gui.py:193-200 | a row printed with that format parses back to its id, name, user, cpu count, start time and node list, and to the last letter of its state |
| ActivityLog.Displayed | run_gui.py:729-736 | the widget never has more rows than the message list has entries |
| ActivityLog.DisplayedAppend | run_gui.py:745-748 | appending an entry puts its row on top of the widget exactly when it is from the scheduler or all messages are shown |
| ActivityLog.DisplayedMembers | run_gui.py:732-736 | a row is shown exactly when it comes from an entry that is from the scheduler, or all messages are shown |
| ActivityLog.DisplayedAll | run_gui.py:734-736 | with all messages shown, the widget lists every entry, newest first |
| ActivityLog.RemoveFirst | run_gui.py:777-780 | `list.remove` with `ValueError` ignored takes one occurrence out, and changes nothing when the PID is absent |
| ActivityLog.RemoveFirstAt | run_gui.py:778 | the occurrence taken out is the first one |
| QueueLoad.WriteSlots | run_gui.py:261-265 | the five counts are written in source order, each only when every key before it was present; success needs all five keys |
| QueueLoad.ApplyEntry | run_gui.py:258-265 | an entry keeps the set of queues; a complete entry for a known queue replaces its counts; an unknown queue is ignored; a missing name raises before anything is written; a known queue with a missing key keeps the counts written before the `KeyError` (WriteSlots) |
| QueueLoad.ApplyAll | run_gui.py:258-265 | applying a reply never adds or removes a queue |
| QueueLoad.AbortSticky | run_gui.py:258-265 | once an entry raises `KeyError`, later entries change nothing |
| QueueLoad.ApplyAllStep | run_gui.py:258 | applying one more entry is applying it to the result so far, if that succeeded |
| QueueLoad.ApplyComplete | run_gui.py:258-265 | a reply of complete entries succeeds, and each queue ends with the counts of the last entry naming it, or keeps its own |
| QueueLoad.ApplyUnknown | run_gui.py:260 | entries naming only unconfigured queues change nothing |
| QueueLoad.PartialWrite | run_gui.py:261-263 | an entry with `totalSlots` but no `totalUsedSlots` leaves the new total beside the old counts: the update is not atomic |
| Poller.Run | run_gui.py:169-185 | iteration k fetches the cluster load when k is a multiple of 120 and the job list when it is a multiple of 10; the loop runs while the flag is set and ends at a failing job-list fetch |
| Artifacts.ArtifactPathsDistinct | run_gui.py:222-236 | different job ids have different output and error file paths, and no output file is an error file |
| Artifacts.DrainFiles | run_gui.py:221-249 | after the drain, exactly the output and error files of the tracked jobs are gone; every other file is unchanged |
| Artifacts.DrainPidFiles | run_gui.py:222-249 | draining one job removes exactly its two files |
| Artifacts.Drain | run_gui.py:221-249 | the drain only appends events, at most two per tracked job |
| Artifacts.DrainSound | run_gui.py:221-249 | the drain only appends events, and every event it posts is a scheduler message for a tracked job whose artifact file was there and non-empty |
| Artifacts.DrainPidNew | run_gui.py:228-247 | an event posted while draining one job is a scheduler message for that job with the text of its output or error file |
| Artifacts.DrainPostsOutput | run_gui.py:222-234 | a tracked job's non-empty output file is posted as `Submit Message: ` and its text |
| Artifacts.DrainPostsError | run_gui.py:236-249 | a tracked job's non-empty error file is posted as `Submit Error: ` and its text |
| Artifacts.DrainOrder | run_gui.py:221-249 | the drain appends exactly the artifact messages in PID-list order, each job's output message before its error message, each artifact read once |
| Artifacts.KeepsSignals | run_gui.py:221-249 | draining a job never removes an event already posted |
| Submission.CollapseCommas | run_gui.py:869 | `re.sub(",+", ",")` leaves no doubled comma, keeps a text without one unchanged, adds no blank and keeps the first and last characters |
| Submission.CollapseItems | run_gui.py:869 | collapsing comma runs keeps the non-empty items of the list, in order |
| Submission.LStripCommas | run_gui.py:870 | `lstrip(",")` leaves a suffix of the text that does not start with a comma, and everything it removed is a comma |
| Submission.LStripItems | run_gui.py:870 | stripping leading commas keeps the non-empty items of the list |
| Submission.RStripCommas | run_gui.py:870 | `rstrip(",")` leaves a prefix of the text that does not end with a comma, and everything it removed is a comma |
| Submission.RStripItems | run_gui.py:870 | stripping trailing commas keeps the non-empty items of the list |
| Submission.NormalItems | run_gui.py:866-870 | a list with no blank, no empty item and no comma at either end is its items joined by commas |
| Submission.CleanEnv | run_gui.py:866-870 | the clean-up gives exactly the non-empty items of the list with blanks removed, in order, joined by single commas; it leaves no blank, no empty item and no comma at either end, and keeps a list already in that form unchanged |
| Submission.CleanIdempotent | run_gui.py:866-870 | cleaning twice is cleaning once |
| Submission.EmptyItemsDropped | run_gui.py:866-870 | blanks, empty items and a trailing comma between two clean lists disappear, leaving the lists joined by one comma |
| Submission.CommaRunCollapsed | run_gui.py:869 | a run of commas between two clean lists collapses to one |
| Submission.AdminAssignments | run_gui.py:863 | one `name=value` item per administrator variable, in order |
| Submission.NormalJoin | run_gui.py:864 | non-empty clean items joined by commas form a clean list |
| Submission.LaunchEnv | run_gui.py:858-870 | the list handed to both launch paths is always clean |
| Submission.AdminAppended | run_gui.py:858-870 | the administrator items are appended after the user's list with one comma, and are the whole list when the user gave none |
| Submission.CleanJoined | run_gui.py:864-870 | a clean list, a comma and another clean list survive the clean-up, the comma going when the first list is empty |
| Submission.LeadingCommaCleaned | run_gui.py:862-870 | with no user variables, the comma put in front of the administrator items is stripped |
| Submission.BatchEnvText | run_gui.py:894 | `env[4:]` drops exactly the first four characters, and leaves nothing of a shorter list |
| Submission.BatchEnvDropsAll | run_gui.py:894 | a list starting `ALL,` loses exactly that prefix |
| Submission.Assignment | run_gui.py:1198 | `variable, value = item.split("=")` succeeds only with one `=`, and neither side contains `=` |
| Submission.AssignmentOf | run_gui.py:1198 | `name=value` unpacks back to the name and the value |
| Submission.Updated | run_gui.py:1199 | every administrator variable name is set in the resulting environment, and no variable is removed |
| Submission.UpdatedAt | run_gui.py:1196-1199 | a variable is set exactly when it was set before or an item names it; it holds the value of the last item naming it, or its old value when none does |
| Submission.ApplyItems | run_gui.py:1196-1199 | the loop gets through exactly when every item has exactly one `=`, and then keeps every variable that was set |
| Submission.BatchEnvironment | run_gui.py:1195-1199 | the batch environment is built exactly when the list is empty or every item has exactly one `=`; no inherited variable is removed |
| Submission.ApplyAssignments | run_gui.py:1196-1199 | applying the administrator items sets each variable in turn, a later one overriding an earlier one |
| Submission.BatchEnvRoundTrip | run_gui.py:1195-1199 | the administrator variables written as a comma list by the launch callback come back as exactly those assignments |
| Submission.BatchEnvRejects | run_gui.py:1197-1198 | one item without exactly one `=` makes the batch launch raise |
| Submission.BuildBatchEnvironment | run_gui.py:1195-1199 | the loop over the items computes the environment the batch path starts AEDT with, or the `ValueError` |
| Submission.LaunchRequest | run_gui.py:858-892 | the request handed to the interactive submission carries a clean variable list and the reservation choice |
| Submission.CheckReservation | run_gui.py:986-995 | the id is read only when the box is ticked, and the warning is raised exactly when the launch then stops (ticked, empty id) |
| Submission.CountChanged | run_gui.py:644-668 | a non-integer count becomes 1 with a warning, a negative one becomes 1 silently; a valid count raises no warning; per node the text is kept and the summary gives cores per node times the count and RAM per node times the count; per core the text is kept or lowered to the cores per node, and the summary gives that value and the shared RAM of one node |
| Submission.CountCapped | run_gui.py:656-661 | per core, the box afterwards reads as the count capped at the queue's cores per node |
| Submission.CountSettled | run_gui.py:644-660 | running the callback on the value it left changes nothing more |
| Submission.CommandFor | run_gui.py:931-953 | the command has at least 13 tokens and starts with `sbatch` |
| Submission.InteractiveCommand | run_gui.py:921-953 | no command exactly when the count is not an integer or is below 1 (with which of the two), otherwise the parts in append order |
| Submission.NodeRangeOf | run_gui.py:936-941 | the `--nodes` value reads back as `1-1` per core and `n-n` per node |
| Submission.CommandHead | run_gui.py:931-941 | the command starts with job name, partition, the list with DISPLAY appended, then a node range and a task count that read back as the request |
| Submission.CommandOptions | run_gui.py:943-950 | the node list, blanks removed, follows only when ticked and non-empty; the reservation follows only when asked for; the length counts each |
| Submission.CommandWrap | run_gui.py:952-953 | the command ends with `--wrap` and a quoted AEDT call whose `num=` count equals the `--ntasks` count |
| Submission.LaunchedCommand | run_gui.py:858-953 | a launch past the reservation gate exports the cleaned list with DISPLAY appended, and names a reservation exactly when one was asked for, then with a non-empty id |
| Submission.GateTokens | run_gui.py:931-953 | the command exports the request's list with DISPLAY appended, and ends with the reservation and `--wrap` when a reservation is asked for, with `--wrap` alone otherwise |
| Submission.WrapEndsWithTotal | run_gui.py:952-953 | the `--wrap` value ends with `num=<total cores>` and the closing quote |
| Submission.CheckDisplay | run_gui.py:826-849 | an empty DISPLAY or one without `:` is an error; a result always has `:`; one with a host part is kept as it is |
| Submission.DisplayHostFilled | run_gui.py:846-847 | a DISPLAY with no host gets this machine's host, followed by its own display number |
| Submission.CheckDisplayIdempotent | run_gui.py:826-849 | a checked DISPLAY passes the check again unchanged |
| Submission.NodeSpecs | run_gui.py:615-630 | the node description is enclosed in parentheses |
| Submission.NodeSpecsReadBack | run_gui.py:615-630 | the node description's words read back as the queue's cores and RAM |
| Submission.AssignmentsAt | run_gui.py:863 | item i of the administrator list is the i-th variable's name, `=` and its value |
| Submission.InitCombobox | run_gui.py:1252-1272 | all entries are listed in order, and the selection is the last entry equal to the default, or 0 when none is |
| Launcher.Session.constructor | run_gui.py:94-104 | every queue starts at its initial counts (100 total, 0 available, 100 used, 0 reserved, 0 failed cores), no jobs, the initial staged message; the saved log loaded at run_gui.py:380-389 is shown under the current "show all" setting |
| Launcher.Session.UpdateMsgList | run_gui.py:729-736 | rebuilding the widget leaves it showing exactly the visible entries, newest first |
| Launcher.Session.SetShowAll | run_gui.py:1092-1094 | ticking or unticking the box rebuilds the widget for the new filter |
| Launcher.Session.AddLogEntry | run_gui.py:738-750 | the staged message is appended to the message list and its row goes on top when visible; the widget stays consistent |
| Launcher.Session.OnClear | run_gui.py:117-122 | the widget, the message list and the PID list are emptied |
| Launcher.Session.CancelJob | run_gui.py:763-785 | unconfirmed, nothing changes; confirmed, the PID leaves the PID list and a GUI message naming it is logged |
| Launcher.Session.LaunchInteractive | run_gui.py:851-892 | a reservation asked for without an id, or a missing project directory, stops the launch with no command and nothing changed; otherwise the request with the cleaned list and the reservation choice is submitted: on success its job id is tracked and a GUI message logged, on failure the output is logged as a scheduler message and the PID list is unchanged |
| Launcher.Session.SubmitInteractiveJob | run_gui.py:921-970 | a bad count submits nothing; otherwise the command is the specified one joined by blanks, and the outcome is logged as below |
| Launcher.Session.RecordSubmission | run_gui.py:957-970 | a failure logs its output as a scheduler message; a success tracks the last output word as the job id and logs the command; an output with no word logs nothing |
| Launcher.BuildCommand | run_gui.py:933-953 | the tokens appended part by part are exactly the specified command |
| Launcher.Session.DrainFileStep | run_gui.py:222-234 | one artifact file is read, staged and posted when non-empty, and deleted |
| Launcher.Session.DrainArtifacts | run_gui.py:221-249 | the loop over the PID list drains exactly as the drain function specifies |
| Launcher.Session.ParseUserJobs | run_gui.py:187-249 | the job list is cleared; on success it becomes the filtered parse of the output, the job-list event is posted, then the artifacts are drained |
| Launcher.Session.ParseClusterLoad | run_gui.py:251-267 | the counts become what applying the reply specifies, and the load event is posted exactly when the whole reply was applied |
| Launcher.Session.ApplyStatusEntry | run_gui.py:258-265 | the in-place writes for one entry give the result the entry function specifies |

## Left out

- The wx window, widgets, dialogs, status-bar messages and event dispatch
  are not modelled. An event posted to the window is an element appended
  to `signals`; the handler it triggers is a separate method call.
- Threads are not modelled. The poller and the window share
  `queue_dict`, `qstat_list` and `log_dict` with no lock. `log_dict` is
  staged by the poller and read later by `add_log_entry`, so a second
  message staged before the first is shown can overwrite it. The model runs
  each operation to completion, one at a time.
- `subprocess`, HTTP and JSON decoding are not modelled. Their results are
  parameters: `squeue`'s bytes, the decoded reply with integer counts, and
  `sbatch`'s output. `scancel` is not modelled.
- Saving `log_data` to the JSON log file on each entry, and deleting it on
  clear, are not modelled. Loading it at start-up is a constructor
  parameter.
- Poller.Run: the half-second sleep is not modelled. The loop's
  `try`/`except` around the cluster-load fetch (run_gui.py:172-177) is
  modelled by `Launcher.Session.ParseClusterLoad` returning `false` on a
  reply entry that raises; the loop only records the schedule.
- Launcher.Session.AddLogEntry: the time of day is a parameter, and
  `wordwrap` to 600 pixels is taken as the identity (it depends on font
  metrics).
- Launcher.Session.AddLogEntry: `log_dict.get("scheduler", True)` always
  finds the key, so the default never applies.
- Launcher.Session.SubmitInteractiveJob: the DISPLAY value is a field of
  the request. The window computes it once at start-up with
  `check_display_var`.
- Launcher.Session.RecordSubmission: a failing submission logs under the
  PID staged by whatever message came before. It is not the new job's id.
- Launcher.Session.ParseUserJobs: the PID list is never pruned. A drained
  job's files are simply gone on later polls.
- The pre/post and batch launch itself is not modelled: its thread and
  `Popen` of AEDT. The environment it receives is modelled
  (`BatchEnvironment`).
- Launcher.Session.LaunchInteractive: `update_registry` is a parameter
  (whether it found the project directory), and `send_statistics` is left
  out; its errors are ignored by the source. `check_ssh` and the AEDT
  version lookup are not modelled.
- Numeric.ParseInt: Python's `int()` also accepts underscores between
  digits (`"1_6"` is 16) and non-ASCII Unicode digits; the model accepts
  only ASCII digits without underscores, so it rejects those texts.
- Submission.BatchEnvText: `env[4:]` is modelled as written. It assumes
  the list starts with `ALL,`; with any other list it cuts four characters
  of a real variable.
- Settings, builds and the queue drop-down callbacks are outside the
  modelled core.

Behaviour of run_gui.py worth knowing:

- The load update is not atomic per queue. A reply entry missing a key
  leaves earlier counts of that queue written (QueueLoad.PartialWrite), and
  the `KeyError` is caught by the poller loop.
- A failing `squeue` raises out of `parse_user_jobs` and ends the poller
  thread, with `qstat_list` already cleared (Poller.Run,
  Launcher.Session.ParseUserJobs). It is not swallowed.
- The state column is cut at `[48:49]`, so a two-letter state such as `PD`
  is read as `D` (JobList.ParseFormattedRow).
