/** The shell's job-control steps as functions of the table: the bg/fg
    builtin, builtin dispatch, the parent's side of evaluating a line, one
    step of the child reaper, and the choice the interrupt and suspend
    relays make.  The methods of module Shell are proved to compute these. */
module Control {
  import opened Wrappers
  import opened JobSpec
  import opened Numbers
  import Parse

  /** Signal numbers the shell uses (Linux values). */
  const SIGINT := 2
  const SIGCONT := 18
  const SIGTSTP := 20

  /** kill(group, sig). */
  datatype Kill = Kill(group: int, sig: int)

  // ---------------------------------------------------------------------
  // bg / fg

  /** What do_bgfg reports. */
  datatype BgFgOutcome =
    | MissingArgument(command: string)  // "<cmd> command requires PID or %jobid argument"
    | NotPidOrJobId(command: string)    // "<cmd>: argument must be a PID or %jobid"
    | NoSuchJob(arg: string)            // "<arg>: No such job"
    | NoSuchProcess(pid: int)           // "(<pid>): No such process"
    | Continued(slot: nat, sent: Kill)  // SIGCONT sent to the group; bg prints the job, fg waits
    | NotBgOrFg                         // found, but the command is neither bg nor fg

  /** The argument names a job id: it starts with '%'. */
  predicate JobIdForm(arg: string)
  {
    |arg| > 0 && arg[0] == '%'
  }

  /** The argument names a process: it starts with a digit. */
  predicate PidForm(arg: string)
  {
    |arg| > 0 && IsDigit(arg[0])
  }

  /** The slot an argument of either form designates. */
  function Resolve(s: seq<Job>, arg: string): Option<nat>
    requires JobIdForm(arg) || PidForm(arg)
  {
    if JobIdForm(arg) then FindJid(s, Atoi(arg[1..])) else FindPid(s, Atoi(arg))
  }

  /** do_bgfg on argv = [command, argument, ...]. */
  function BgFg(t: Table, argv: seq<string>): (r: (Table, BgFgOutcome))
    requires |argv| >= 1
    ensures |r.0.slots| == |t.slots| && r.0.nextjid == t.nextjid
    ensures r.1.Continued? ==> r.1.slot < |t.slots| && r.1.sent.sig == SIGCONT
  {
    if |argv| < 2 then (t, MissingArgument(argv[0]))
    else
      var arg := argv[1];
      if !JobIdForm(arg) && !PidForm(arg) then (t, NotPidOrJobId(argv[0]))
      else
        match Resolve(t.slots, arg)
        case None => (t, if JobIdForm(arg) then NoSuchJob(arg) else NoSuchProcess(Atoi(arg)))
        case Some(i) =>
          if argv[0] == "bg" then (SetState(t, i, BG), Continued(i, Kill(-t.slots[i].pid, SIGCONT)))
          else if argv[0] == "fg" then (SetState(t, i, FG), Continued(i, Kill(-t.slots[i].pid, SIGCONT)))
          else (t, NotBgOrFg)
  }

  /** The argument checks happen in a fixed order, each failure is
      reported as such, and a failure leaves the table untouched. */
  lemma BgFgChecksInOrder(t: Table, argv: seq<string>)
    requires |argv| >= 1
    ensures var (r, out) := BgFg(t, argv);
      && (out.MissingArgument? <==> |argv| < 2)
      && (out.NotPidOrJobId? <==> |argv| >= 2 && !JobIdForm(argv[1]) && !PidForm(argv[1]))
      && (out.NoSuchJob? <==>
            |argv| >= 2 && JobIdForm(argv[1]) && FindJid(t.slots, Atoi(argv[1][1..])).None?)
      && (out.NoSuchProcess? <==>
            |argv| >= 2 && PidForm(argv[1]) && FindPid(t.slots, Atoi(argv[1])).None?)
      && (!out.Continued? ==> r == t)
      && (out.Continued? <==>
            (|argv| >= 2 && (JobIdForm(argv[1]) || PidForm(argv[1])) &&
             Resolve(t.slots, argv[1]).Some? && (argv[0] == "bg" || argv[0] == "fg")))
  {
  }

  /** A successful bg/fg changes the state of the designated job and
      nothing else, and continues that job's process group. */
  lemma BgFgChangesOnlyThatJob(t: Table, argv: seq<string>)
    requires |argv| >= 1
    requires BgFg(t, argv).1.Continued?
    ensures var (r, out) := BgFg(t, argv); var i := out.slot;
      && |argv| >= 2 && Resolve(t.slots, argv[1]) == Some(i)
      && (argv[0] == "bg" || argv[0] == "fg")
      && out.sent == Kill(-t.slots[i].pid, SIGCONT)
      && r.slots[i] == t.slots[i].(state := if argv[0] == "bg" then BG else FG)
      && (forall k :: 0 <= k < |t.slots| && k != i ==> r.slots[k] == t.slots[k])
      && r.nextjid == t.nextjid
  {
  }

  /** `%` followed by nothing names job 0, which never exists. */
  lemma PercentAloneIsNoSuchJob(t: Table, command: string)
    ensures BgFg(t, [command, "%"]) == (t, NoSuchJob("%"))
  {
    assert "%"[1..] == "";
    AtoiNoNumber("");
  }

  /** `fg %n` brings job n to the foreground and continues its group. */
  lemma FgByJobId(t: Table, n: nat)
    requires FindJid(t.slots, n).Some?
    ensures var i := FindJid(t.slots, n).value;
      BgFg(t, ["fg", "%" + Show(n)]) == (SetState(t, i, FG), Continued(i, Kill(-t.slots[i].pid, SIGCONT)))
  {
    var arg := "%" + Show(n);
    assert arg[1..] == Show(n) + "";
    AtoiShow(n, "");
    assert JobIdForm(arg);
    assert Resolve(t.slots, arg) == FindJid(t.slots, n);
  }

  /** `bg <pid>` moves that process's job to the background and continues it. */
  lemma BgByPid(t: Table, pid: nat)
    requires FindPid(t.slots, pid).Some?
    ensures var i := FindPid(t.slots, pid).value;
      BgFg(t, ["bg", Show(pid)]) == (SetState(t, i, BG), Continued(i, Kill(-(pid as int), SIGCONT)))
  {
    var arg := Show(pid);
    assert arg == arg + "";
    AtoiShow(pid, "");
    assert PidForm(arg) && !JobIdForm(arg);
    assert Resolve(t.slots, arg) == FindPid(t.slots, pid);
  }

  /** bg keeps every invariant; fg does when no job was in the foreground,
      which the shell's wait for the foreground job ensures. */
  lemma BgFgPreservesInv(t: Table, argv: seq<string>)
    requires |argv| >= 1 && Inv(t)
    requires argv[0] == "fg" ==> FgPid(t.slots) == 0
    ensures Inv(BgFg(t, argv).0)
  {
    var (r, out) := BgFg(t, argv);
    if out.Continued? {
      var i := out.slot;
      assert SlotOk(t.slots[i]);
      FgPidZeroIffNoForeground(t);
      SetStatePreservesInv(t, i, if argv[0] == "bg" then BG else FG);
    }
  }

  // ---------------------------------------------------------------------
  // Builtin dispatch

  datatype BuiltinOutcome =
    | NotBuiltin
    | Quit                            // the shell exits with status 0
    | Listed(lines: seq<Entry>)       // the `jobs` listing
    | BgFgDone(outcome: BgFgOutcome)

  /** builtin_cmd on a non-empty argument vector. */
  function Builtin(t: Table, argv: seq<string>): (r: (Table, BuiltinOutcome))
    requires |argv| >= 1
    ensures |r.0.slots| == |t.slots| && r.0.nextjid == t.nextjid
    ensures r.1.NotBuiltin? ==> r.0 == t
    ensures argv[0] == "quit" ==> r == (t, Quit)
    ensures argv[0] == "jobs" ==> r == (t, Listed(Listing(t.slots)))
    ensures argv[0] == "bg" || argv[0] == "fg" ==> r == (BgFg(t, argv).0, BgFgDone(BgFg(t, argv).1))
  {
    if argv[0] == "quit" then (t, Quit)
    else if argv[0] == "jobs" then (t, Listed(Listing(t.slots)))
    else if argv[0] == "bg" || argv[0] == "fg" then
      var (r, out) := BgFg(t, argv);
      (r, BgFgDone(out))
    else (t, NotBuiltin)
  }

  predicate IsBuiltinName(name: string)
  {
    name == "quit" || name == "jobs" || name == "bg" || name == "fg"
  }

  /** Exactly the four builtin names are recognised; only bg and fg can
      change the table. */
  lemma BuiltinRecognises(t: Table, argv: seq<string>)
    requires |argv| >= 1
    ensures Builtin(t, argv).1.NotBuiltin? <==> !IsBuiltinName(argv[0])
    ensures argv[0] != "bg" && argv[0] != "fg" ==> Builtin(t, argv).0 == t
  {
  }

  // ---------------------------------------------------------------------
  // eval, parent side

  datatype EvalOutcome =
    | Blank                          // nothing to do
    | Ran(outcome: BuiltinOutcome)   // a builtin ran; nothing was spawned
    | ForegroundJob(pid: int)           // spawned; the shell waits while fgpid() == pid
    | BackgroundJob(jid: int, pid: int) // spawned; "[jid] (pid) cmdline" is printed

  /** eval, seen from the shell: `child` is the value fork returned to the
      parent (the new pid, or -1 when fork failed). */
  function Eval(t: Table, cmdline: string, child: int): (r: (Table, EvalOutcome))
    requires Parse.LineOk(cmdline) && child != 0
    ensures |r.0.slots| == |t.slots|
    ensures r.1.Blank? ==> r.0 == t
    ensures r.1.ForegroundJob? || r.1.BackgroundJob? ==> r.1.pid == child
  {
    var p := Parse.Parse(cmdline);
    if |p.argv| == 0 then (t, Blank)
    else
      var (r, b) := Builtin(t, p.argv);
      if !b.NotBuiltin? then (r, Ran(b))
      else if !p.bg then (Add(t, child, FG, cmdline), ForegroundJob(child))
      else
        var r2 := Add(t, child, BG, cmdline);
        (r2, BackgroundJob(Pid2Jid(r2.slots, child), child))
  }

  /** A blank line does nothing. */
  lemma EvalBlankLine(t: Table, cmdline: string, child: int)
    requires Parse.LineOk(cmdline) && child != 0
    requires forall k :: 0 <= k < |cmdline| - 1 ==> cmdline[k] == ' '
    ensures Eval(t, cmdline, child) == (t, Blank)
  {
    Parse.ParseBlankLine(cmdline);
  }

  /** A builtin spawns nothing; any other command is registered with addjob,
      in the foreground or the background as the line asks.  When the table
      is full (or fork failed) the child is simply not tracked. */
  lemma EvalRegistersOnlyExternalCommands(t: Table, cmdline: string, child: int)
    requires Parse.LineOk(cmdline) && child != 0
    ensures var p := Parse.Parse(cmdline); var (r, out) := Eval(t, cmdline, child);
      && (out.Blank? <==> p.argv == [])
      && (out.Ran? <==> p.argv != [] && IsBuiltinName(p.argv[0]))
      && (out.Ran? ==> r == Builtin(t, p.argv).0)
      && (out.ForegroundJob? ==> !p.bg && r == Add(t, child, FG, cmdline))
      && (out.BackgroundJob? ==> p.bg && r == Add(t, child, BG, cmdline))
      && ((out.ForegroundJob? || out.BackgroundJob?) && !AddFits(t, child) ==> r == t)
  {
    var p := Parse.Parse(cmdline);
    if p.argv != [] {
      BuiltinRecognises(t, p.argv);
    }
  }

  /** A background launch reports the job id the new job received: the
      counter's value before the launch. */
  lemma EvalBackgroundReportsJob(t: Table, cmdline: string, child: int)
    requires Parse.LineOk(cmdline) && child != 0
    requires AddFits(t, child) && FindPid(t.slots, child).None?
    requires Eval(t, cmdline, child).1.BackgroundJob?
    ensures Eval(t, cmdline, child).1 == BackgroundJob(t.nextjid, child)
  {
    AddThenFind(t, child, BG, cmdline);
  }

  /** Evaluating a line at the prompt (no job in the foreground, the forked
      pid new to the table) keeps every invariant of the table. */
  lemma EvalPreservesInv(t: Table, cmdline: string, child: int)
    requires Parse.LineOk(cmdline) && child != 0
    requires Inv(t) && FgPid(t.slots) == 0 && FindPid(t.slots, child).None?
    ensures Inv(Eval(t, cmdline, child).0)
  {
    var p := Parse.Parse(cmdline);
    if p.argv != [] {
      var (r, b) := Builtin(t, p.argv);
      if !b.NotBuiltin? {
        if p.argv[0] == "bg" || p.argv[0] == "fg" {
          BgFgPreservesInv(t, p.argv);
        }
      } else {
        AddPreservesInv(t, child, if p.bg then BG else FG, cmdline);
      }
    }
  }

  // ---------------------------------------------------------------------
  // The reaper

  /** How a child changed state, in the order the handler tests it. */
  datatype ChildStatus = TerminatedBySignal | StoppedBySignal | ExitedNormally

  /** What one waitpid(-1, WNOHANG|WUNTRACED) call reports. */
  datatype WaitReport = NoChange | Changed(pid: int, status: ChildStatus)

  /** The lines the reaper prints; the signal numbers are fixed (2 and 20)
      whatever signal the child actually received. */
  datatype ReapNotice =
    | TerminatedNotice(jid: int, pid: int, sig: int)
    | StoppedNotice(jid: int, pid: int, sig: int)

  /** waitpid reports only real pids, and the stop branch dereferences the
      job it looks up without checking it, so a stopped child must be in
      the table. */
  predicate ReapOk(t: Table, w: WaitReport)
  {
    w.Changed? ==> w.pid >= 1 && (w.status == StoppedBySignal ==> FindPid(t.slots, w.pid).Some?)
  }

  /** One pass of sigchld_handler: it handles at most one child. */
  function Reap(t: Table, w: WaitReport): (r: (Table, Option<ReapNotice>))
    requires ReapOk(t, w)
    ensures |r.0.slots| == |t.slots|
    ensures r.1.Some? <==> w.Changed? && w.status != ExitedNormally
    ensures r.1.Some? ==> r.1.value.pid == w.pid
  {
    match w
    case NoChange => (t, None)
    case Changed(pid, status) =>
      match status
      case TerminatedBySignal =>
        (Delete(t, pid), Some(TerminatedNotice(Pid2Jid(t.slots, pid), pid, SIGINT)))
      case StoppedBySignal =>
        var r := SetState(t, FindPid(t.slots, pid).value, ST);
        (r, Some(StoppedNotice(Pid2Jid(r.slots, pid), pid, SIGTSTP)))
      case ExitedNormally =>
        (Delete(t, pid), None)
  }

  /** A terminated or exited child's job is removed; a stopped child's job
      stays, with only its state changed to ST. */
  lemma ReapOutcome(t: Table, w: WaitReport)
    requires ReapOk(t, w) && UniquePids(t.slots)
    ensures w.NoChange? ==> Reap(t, w) == (t, None)
    ensures w.Changed? && w.status != StoppedBySignal ==>
              Reap(t, w).0 == Delete(t, w.pid) && FindPid(Reap(t, w).0.slots, w.pid).None?
    ensures w.Changed? && w.status == StoppedBySignal ==>
              var i := FindPid(t.slots, w.pid).value; var r := Reap(t, w).0;
              && r.slots[i] == t.slots[i].(state := ST)
              && (forall k :: 0 <= k < |t.slots| && k != i ==> r.slots[k] == t.slots[k])
              && r.nextjid == t.nextjid
              && FindPid(r.slots, w.pid) == Some(i)
  {
    if w.Changed? {
      if w.status != StoppedBySignal {
        DeleteThenNotFound(t, w.pid);
      } else {
        var i := FindPid(t.slots, w.pid).value;
        FirstIs(Reap(t, w).0.slots, ByPid(w.pid), i);
      }
    }
  }

  /** Handling the same report twice leaves the table as handling it once. */
  lemma ReapTwiceIsReapOnce(t: Table, w: WaitReport)
    requires ReapOk(t, w) && UniquePids(t.slots)
    ensures ReapOk(Reap(t, w).0, w)
    ensures Reap(Reap(t, w).0, w).0 == Reap(t, w).0
  {
    ReapOutcome(t, w);
    if w.Changed? {
      if w.status != StoppedBySignal {
        DeleteIdempotent(t, w.pid);
      } else {
        var i := FindPid(t.slots, w.pid).value;
        var r := Reap(t, w).0;
        assert r.slots[i := r.slots[i].(state := ST)] == r.slots;
      }
    }
  }

  /** The table is left alone by a repeated report, but the message is not:
      a second report that the same child was killed prints the notice again,
      now with job id 0 because the job is gone. */
  lemma ReapSignalledTwiceNotifiesAgain(t: Table, pid: int)
    requires pid >= 1 && UniquePids(t.slots)
    ensures var w := Changed(pid, TerminatedBySignal);
      Reap(Reap(t, w).0, w) == (Reap(t, w).0, Some(TerminatedNotice(0, pid, SIGINT)))
  {
    var w := Changed(pid, TerminatedBySignal);
    ReapOutcome(t, w);
    DeleteIdempotent(t, pid);
  }

  /** The reaper keeps every invariant. */
  lemma ReapPreservesInv(t: Table, w: WaitReport)
    requires ReapOk(t, w) && Inv(t)
    ensures Inv(Reap(t, w).0)
  {
    if w.Changed? {
      if w.status == StoppedBySignal {
        SetStatePreservesInv(t, FindPid(t.slots, w.pid).value, ST);
      } else {
        DeletePreservesInv(t, w.pid);
      }
    }
  }

  /** waitfg's loop condition: the shell keeps waiting while pid is the
      foreground process. */
  predicate WaitfgSpins(s: seq<Job>, pid: int): (b: bool)
    ensures b && pid != 0 ==> exists k :: 0 <= k < |s| && s[k].state == FG && s[k].pid == pid
    ensures (forall k :: 0 <= k < |s| ==> s[k].state != FG) ==> (b <==> pid == 0)
  {
    FgPid(s) == pid
  }

  /** Once the reaper has handled the foreground child, whether it exited,
      was killed or was stopped, waitfg stops waiting for it. */
  lemma ReapEndsForegroundWait(t: Table, pid: int, status: ChildStatus)
    requires Inv(t) && pid >= 1 && WaitfgSpins(t.slots, pid)
    requires ReapOk(t, Changed(pid, status))
    ensures !WaitfgSpins(Reap(t, Changed(pid, status)).0.slots, pid)
  {
    var r := Reap(t, Changed(pid, status)).0;
    ReapOutcome(t, Changed(pid, status));
    ReapPreservesInv(t, Changed(pid, status));
    FgPidZeroIffNoForeground(r);
  }

  // ---------------------------------------------------------------------
  // The interrupt and suspend relays

  /** sigint_handler / sigtstp_handler: pass the signal to the foreground
      job's process group, if there is a foreground job. */
  function Relay(s: seq<Job>, sig: int): (r: Option<Kill>)
    ensures (forall k :: 0 <= k < |s| ==> s[k].state != FG) ==> r.None?
    ensures r.Some? ==> exists k :: 0 <= k < |s| && s[k].state == FG && r.value == Kill(-s[k].pid, sig)
  {
    var pid := FgPid(s);
    if pid != 0 then Some(Kill(-pid, sig)) else None
  }

  /** The relay sends nothing when no job is in the foreground; otherwise it
      sends the same signal to the group of the foreground job, a negative
      target that is never the shell itself nor any background or stopped
      job. */
  lemma RelayTargetsForegroundGroupOnly(t: Table, sig: int)
    requires Inv(t)
    ensures Relay(t.slots, sig).None? <==> forall k :: 0 <= k < |t.slots| ==> t.slots[k].state != FG
    ensures Relay(t.slots, sig).Some? ==>
              var g := Relay(t.slots, sig).value.group;
              && g <= -1 && Relay(t.slots, sig).value.sig == sig
              && (exists k :: 0 <= k < |t.slots| && t.slots[k].state == FG && t.slots[k].pid == -g)
              && forall k :: 0 <= k < |t.slots| && t.slots[k].state != FG ==> t.slots[k].pid != -g
  {
    FgPidZeroIffNoForeground(t);
    if FgPid(t.slots) != 0 {
      var f :| 0 <= f < |t.slots| && t.slots[f].state == FG && t.slots[f].pid == FgPid(t.slots);
      forall k | 0 <= k < |t.slots| && t.slots[k].state != FG
        ensures t.slots[k].pid != FgPid(t.slots)
      {
        assert k != f;
      }
    }
  }
}
