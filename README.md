# Job control of the tiny shell `tsh`, in Dafny

This project models the job-control core of `tsh`, a small Unix shell.
That core is:

- a fixed table of `MAXJOBS` (16) job slots, each with a process id, a job id, a state (UNDEF, FG, BG, ST) and a command line;
- a job-id counter;
- the helpers that scan and update the table;
- the command-line splitter;
- the builtin commands `quit`, `jobs`, `bg` and `fg`;
- the shell's own side of launching a command;
- one pass of the SIGCHLD reaper;
- the SIGINT/SIGTSTP relay to the foreground job.

The project has these modules:

- `JobSpec` (jobspec.dfy) defines the table as a value (`Table`), with every table operation as a function on it. It proves what the operations guarantee, including the invariants they keep: every slot is clear or holds positive ids, pids are distinct, and at most one job is in the foreground.
- `Jobs` (jobs.dfy) is the table as the shell keeps it: a class with an `array<Job>` updated in place and a `nextjid` field. Each helper routine is a method, proved to compute the matching `JobSpec` function. A pointer the C code returns into the table is modelled as the slot index (`Option<nat>`, where `None` is NULL). A write through that pointer is an array write to that slot.
- `Numbers` (numbers.dfy) models `atoi`, as `bg`/`fg` use it, and decimal printing, its inverse.
- `Parse` (parse.dfy) models parseline. `Split` defines the arguments of a buffer. The method `ParseLine` walks the buffer with a cursor, as the C loop does, and is proved to produce them.
- `Control` (control.dfy) defines do_bgfg, builtin_cmd, the parent's side of eval, one pass of sigchld_handler, and the relay, as functions from a table to a new table plus an outcome. Printed messages become outcome values.
- `Shell` (shell.dfy) holds the same steps as methods that run on a `Jobs.JobTable`. Each is proved equal to its `Control` function.

Behaviour of the code that the model keeps as written:

- **Job ids are not unique among live jobs.** The counter wraps back to 1 after 16 (tsh.c:569-570) without checking which ids are in use. `JobSpec.AddCanRepeatJid` starts from a fresh table, adds fifteen jobs, deletes the third and adds two more; afterwards two live jobs hold job id 1. Lookups by job id find the lowest slot.
- **Any trailing argument that starts with `&` requests the background.** It does not have to be exactly `&` (tsh.c:285).
- **The reaper's body, given the same report twice.** In the running shell this does not happen: waitpid (tsh.c:469) reaps the child, so its report reaches the handler once. The body alone, run a second time on the same report, leaves the table as it was after the first run (`Control.ReapTwiceIsReapOnce`). For a killed child it would print the notice again, with job id 0 (`Control.ReapSignalledTwiceNotifiesAgain`).
- **Notice signal numbers are fixed.** The reaper's notices always name signals 2 and 20, whatever signal the child actually received (tsh.c:473, 480).

## Model

| member | source | states |
|---|---|---|
| Jobs.JobTable.constructor | tsh.c:44-54 | the table starts with all slots clear and the counter at 1 |
| Jobs.JobTable.ClearJob | tsh.c:530-535 | only slot i changes, to the clear job (pid 0, jid 0, UNDEF, empty line) |
| Jobs.JobTable.InitJobs | tsh.c:538-543 | afterwards every slot is clear |
| JobSpec.ClearedTable | tsh.c:538-543 | a cleared table has max jid 0, no foreground pid, finds no pid, and satisfies every invariant |
| JobSpec.MaxJid | tsh.c:546-554 | result is non-negative, at least every slot's jid, and is 0 or some slot's jid |
| Jobs.JobTable.MaxJid | tsh.c:546-554 | the scan returns the largest jid, as JobSpec.MaxJid |
| Jobs.JobTable.AddJob | tsh.c:557-580 | the table becomes Add of the old table; returns 1 exactly when pid >= 1 and a slot is free, else 0 |
| JobSpec.AddRejected | tsh.c:561-579 | a pid below 1 or a full table leaves table and counter untouched |
| JobSpec.AddFillsLowestFreeSlot | tsh.c:564-575 | only the lowest free slot is written, with pid, state, line and the old counter as jid; counter advances and wraps to 1 past 16 |
| JobSpec.AddThenFind | tsh.c:557-580 | after adding a fresh pid, getjobpid finds it with the given fields, and pid2jid gives the old counter |
| JobSpec.NextJid | tsh.c:569-570 | from a non-negative counter the next value lies in 1..16, and it is either one more or 1 |
| JobSpec.Add | tsh.c:557-580 | the slot count is kept; either nothing changes or exactly one free slot receives the job with the old counter as jid and the counter advances; a pid below 1 changes nothing |
| JobSpec.AddCanRepeatJid | tsh.c:569-593 | from a fresh table: fifteen adds, deleting the third job, then two more adds leave slots 0 and 15 both live with jid 1 |
| JobSpec.AddPreservesInv | tsh.c:557-580 | adding a fresh pid keeps slots well formed, pids distinct and at most one FG job, if FG is only added when none is in the foreground |
| JobSpec.Delete | tsh.c:583-598 | the slot count is kept; the table is unchanged exactly when getjobpid finds no slot; each slot is kept or cleared; after a deletion the counter exceeds every remaining jid |
| Jobs.JobTable.DeleteJob | tsh.c:583-598 | the table becomes Delete of the old table; returns 1 exactly when the pid is present |
| JobSpec.DeleteAbsent | tsh.c:587-597 | deleting a pid below 1 or an absent pid changes nothing |
| JobSpec.DeleteClearsFirstMatch | tsh.c:590-595 | exactly the first slot with the pid is cleared; the counter ends above every remaining jid |
| JobSpec.DeleteLastJobResetsCounter | tsh.c:593 | deleting the only live job resets the counter to 1 |
| JobSpec.DeleteThenNotFound | tsh.c:583-598 | with distinct pids, the deleted pid is no longer found |
| JobSpec.DeleteIdempotent | tsh.c:583-598 | with distinct pids, deleting twice equals deleting once |
| JobSpec.DeletePreservesInv | tsh.c:583-598 | deletion keeps every table invariant |
| JobSpec.FgPid | tsh.c:601-608 | 0 when no slot is FG; otherwise the pid of the lowest FG slot |
| JobSpec.FgPidZeroIffNoForeground | tsh.c:601-608 | on a well-formed table the result is 0 iff no job is FG, and positive otherwise |
| Jobs.JobTable.FgPid | tsh.c:601-608 | the scan returns JobSpec.FgPid of the slots |
| JobSpec.FindPid | tsh.c:611-620 | a slot is found iff pid >= 1 and some slot holds it; it is the lowest such slot |
| Jobs.JobTable.GetJobPid | tsh.c:611-620 | the scan returns JobSpec.FindPid of the slots (None for NULL) |
| JobSpec.FindJid | tsh.c:623-633 | a slot is found iff jid >= 1 and some slot has it; it is the lowest such slot |
| Jobs.JobTable.GetJobJid | tsh.c:623-633 | the scan returns JobSpec.FindJid of the slots |
| JobSpec.Pid2Jid | tsh.c:636-647 | 0 when pid < 1 or no slot holds it; otherwise the jid of the lowest slot holding the pid |
| Jobs.JobTable.Pid2Jid | tsh.c:636-647 | the scan returns JobSpec.Pid2Jid of the slots |
| Jobs.JobTable.ListJobs | tsh.c:650-674 | the lines are JobSpec.Listing of the slots, in slot order |
| JobSpec.Listing | tsh.c:650-674 | the listing has at most one entry per slot |
| JobSpec.ListingShowsLiveJobs | tsh.c:650-674 | the n-th entry is the jid, pid, status word and line of the n-th live slot; the slots listed are live and strictly increasing, and every live slot is listed, so each appears exactly once and in slot order |
| JobSpec.SetState | tsh.c:420-426 | slot i changes in its state only (pid, jid and line kept); every other slot, the slot count and the counter are unchanged |
| JobSpec.SetStateKeepsLookups | tsh.c:420-426 | after a state change every lookup by pid and by jid, and the largest jid, are as before |
| JobSpec.SetStatePreservesInv | tsh.c:420-426 | changing a live job's state keeps the invariants, provided FG is set only when no other job is FG |
| Parse.Buffer | tsh.c:249-250 | the copy keeps the line but turns its last character into a space |
| Parse.Find | tsh.c:258-262 | a position strchr finds lies at or after the start and holds the character sought |
| Parse.FindFirst | tsh.c:258-262 | strchr finds the first position at or after p holding c, and finds none exactly when no later position holds c |
| Parse.SkipSpaces | tsh.c:251-252 | the skip ends between its start and the end of the buffer |
| Parse.SkipSpacesStops | tsh.c:251-269 | the skip passes over spaces only and stops at the first non-space or the end |
| Parse.TokenAt | tsh.c:256-262 | an argument starts after an opening quote or at the cursor, and is delimited at or after its start |
| Parse.TokenAtDelimits | tsh.c:256-262 | after a quote the argument starts one past it and ends at the first later quote; otherwise it starts in place and ends at the first space; with no such delimiter none of that character follows |
| Parse.Split | tsh.c:255-279 | the scan from p yields at most one argument per remaining character |
| Parse.NextArgument | tsh.c:268-277 | the skip-and-find step returns the cursor Split takes next |
| Parse.ScanArguments | tsh.c:255-279 | the delimiter loop collects exactly the arguments Split defines |
| Parse.Parse | tsh.c:241-289 | argv is the scanned argument list less at most its last argument, which is dropped only when it starts with `&` and then sets the flag; an empty argv comes with the flag set; for a non-empty argument list, a last argument starting with `&` is removed with the flag 1, and otherwise the list is kept whole with the flag 0 |
| Parse.ParseLine | tsh.c:241-289 | the argument vector and background flag equal Parse of the line |
| Parse.SplitPlainWords | tsh.c:264-278 | plain words separated by single spaces come out as one argument each, in order |
| Parse.SplitQuoted | tsh.c:256-258 | a quoted argument keeps its spaces and ends at the closing quote |
| Parse.SplitUnterminatedQuote | tsh.c:271-273 | an opening quote with no closing quote ends the argument list |
| Parse.ParseBlankLine | tsh.c:281-282 | a line of spaces gives no arguments and the value 1 |
| Parse.ParseLineOfWords | tsh.c:241-289 | round trip: the typed words of a foreground command come back as argv, with the flag off |
| Parse.ParseBackgroundLine | tsh.c:284-287 | a trailing `&` word sets the flag and is removed from argv |
| Numbers.Atoi | tsh.c:403-410 | the value is negative only when the text holds a minus sign, and 0 when it holds no digit |
| Numbers.AtoiShow | tsh.c:403-410 | atoi reads back a printed number followed by any non-digit text |
| Numbers.AtoiNoNumber | tsh.c:403 | atoi of text starting with no space, sign or digit is 0 |
| Control.BgFg | tsh.c:375-433 | bg/fg keeps the slot count and the counter; a continued job is a slot of the table and is sent SIGCONT |
| Control.BgFgChecksInOrder | tsh.c:380-429 | missing argument, bad form, no such job and no such process each hold exactly in their case; every failure leaves the table alone; the job is continued exactly when the argument has either form, names an existing job, and the command is bg or fg |
| Control.BgFgChangesOnlyThatJob | tsh.c:419-430 | a successful bg/fg sets the designated job to BG or FG, changes nothing else, and continues that job's process group |
| Control.PercentAloneIsNoSuchJob | tsh.c:401-407 | `%` with no number names job 0 and reports no such job |
| Control.FgByJobId | tsh.c:401-429 | `fg %n` moves job n to the foreground and continues its group |
| Control.BgByPid | tsh.c:409-423 | `bg <pid>` moves that process's job to the background and continues it |
| Control.BgFgPreservesInv | tsh.c:375-433 | bg keeps the invariants; fg does when no job is in the foreground |
| Shell.DoBgFg | tsh.c:375-433 | the table and the outcome are those of Control.BgFg |
| Control.Builtin | tsh.c:295-315 | builtin dispatch keeps the slot count and the counter; `quit` exits with the table unchanged, `jobs` returns the listing of the slots, `bg`/`fg` return do_bgfg's table and outcome, and any other command leaves the table alone |
| Control.BuiltinRecognises | tsh.c:295-315 | exactly quit, jobs, bg and fg are builtins; only bg/fg can change the table |
| Shell.BuiltinCmd | tsh.c:295-315 | the table and the outcome are those of Control.Builtin |
| Control.Eval | tsh.c:175-232 | the slot count is kept; a blank line leaves the table alone; a launched job is reported with the forked pid |
| Control.EvalBlankLine | tsh.c:188-190 | a blank line does nothing |
| Control.EvalRegistersOnlyExternalCommands | tsh.c:193-229 | builtins spawn nothing; other commands are added as FG or BG as the line asks; a full table or failed fork adds nothing |
| Control.EvalBackgroundReportsJob | tsh.c:221-225 | a background launch reports the jid the job received, the old counter |
| Control.EvalPreservesInv | tsh.c:175-232 | at the prompt (no FG job, fresh child pid) evaluating a line keeps every invariant |
| Shell.Eval | tsh.c:175-232 | the table and the outcome are those of Control.Eval |
| Control.Reap | tsh.c:457-490 | the slot count is kept; a notice is printed exactly for a killed or stopped child, and names that child's pid |
| Control.ReapOutcome | tsh.c:470-486 | a killed or exited child's job is removed; a stopped child's job stays with only its state set to ST |
| Control.ReapTwiceIsReapOnce | tsh.c:470-486 | handling the same report twice leaves the table as handling it once |
| Control.ReapSignalledTwiceNotifiesAgain | tsh.c:471-474 | if the body were given the same "killed" report again (waitpid at tsh.c:469 never does this), it would print the notice again with jid 0 |
| Control.ReapPreservesInv | tsh.c:457-490 | the reaper keeps every invariant |
| Control.WaitfgSpins | tsh.c:438-444 | waitfg keeps waiting for a nonzero pid only if an FG slot holds it; with no FG slot it waits only for pid 0 |
| Control.ReapEndsForegroundWait | tsh.c:438-444 | after the foreground child is reaped or stopped, waitfg's loop condition is false |
| Shell.SigchldHandler | tsh.c:457-490 | the table and the notice are those of Control.Reap |
| Control.Relay | tsh.c:498-519 | nothing is sent when no slot is FG; a kill that is sent goes, with the same signal, to the negated pid of an FG slot |
| Control.RelayTargetsForegroundGroupOnly | tsh.c:498-519 | nothing is sent without an FG job; otherwise the same signal goes to the negative group of the FG job, never of another job |
| Shell.RelaySignal | tsh.c:498-519 | the kill issued is Control.Relay of the slots |

## Left out

- Process creation and signals are not modelled: fork, setpgid, execve, sigprocmask and kill. The fork result is a parameter of `Eval`, where -1 stands for a failed fork. Kills and continues become outcome values: `Kill(group, sig)`, and `Continued(slot, Kill(group, SIGCONT))` for bg/fg.
- Output is not modelled as text. Messages from printf become outcome datatypes, and listjobs gives a list of entries. "Tried to create too many jobs" becomes addjob's 0 result. The "Added job" line printed in verbose mode on success (tsh.c:572-575) is dropped, as is the verbose flag.
- The child side of eval is not part of this model: do_redirect and "Command not found".
- `waitfg`'s sleeping loop is represented only by its condition, `WaitfgSpins`.
- The reaper is modelled one pass at a time. The C handler also returns after one child.
- Asynchronous interleaving of the handlers with the main loop is not modelled.
- main, usage, unix_error, app_error, Signal and sigquit_handler are not part of this model.
- Shell.SigchldHandler: it requires a stopped child to be in the table, because the C code dereferences the NULL lookup result in that case (tsh.c:478).
- Numbers.Atoi has no overflow; integers are unbounded.
- The 32-bit width of pids and job ids is not modelled.
- MAXLINE/MAXARGS limits and the truncating copy of the command line are not modelled.
- Parse.ParseLine: the line must be a C string of at least one character, with no NUL inside. The C code indexes `strlen(buf)-1` unchecked.
- MAXJID is unused by the code and is not modelled.
