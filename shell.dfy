/** The shell's job-control code run against the one job table it keeps:
    bg/fg, builtin dispatch, the parent's side of eval, one pass of the
    SIGCHLD handler, and the SIGINT/SIGTSTP relay.  Each method is proved
    to do what the corresponding Control function defines. */
module Shell {
  import opened Wrappers
  import opened JobSpec
  import opened Numbers
  import opened Jobs
  import opened Control
  import Parse

  /** do_bgfg: validate the argument, find the job, set its state. */
  method DoBgFg(jobs: JobTable, argv: seq<string>) returns (out: BgFgOutcome)
    requires jobs.Valid() && |argv| >= 1
    modifies jobs.slots
    ensures jobs.Valid()
    ensures (jobs.Snapshot(), out) == BgFg(old(jobs.Snapshot()), argv)
  {
    if |argv| < 2 {
      return MissingArgument(argv[0]);
    }
    var arg := argv[1];
    if |arg| == 0 || (!IsDigit(arg[0]) && arg[0] != '%') {
      return NotPidOrJobId(argv[0]);
    }
    var current: Option<nat>;
    if arg[0] == '%' {
      current := jobs.GetJobJid(Atoi(arg[1..]));
      if current.None? {
        return NoSuchJob(arg);
      }
    } else {
      var pid := Atoi(arg);
      current := jobs.GetJobPid(pid);
      if current.None? {
        return NoSuchProcess(pid);
      }
    }
    var i := current.value;
    if argv[0] == "bg" {
      jobs.slots[i] := jobs.slots[i].(state := BG);
      out := Continued(i, Kill(-jobs.slots[i].pid, SIGCONT));
    } else if argv[0] == "fg" {
      jobs.slots[i] := jobs.slots[i].(state := FG);
      out := Continued(i, Kill(-jobs.slots[i].pid, SIGCONT));
    } else {
      out := NotBgOrFg;
    }
  }

  /** builtin_cmd: run quit, jobs, bg or fg; report anything else. */
  method BuiltinCmd(jobs: JobTable, argv: seq<string>) returns (out: BuiltinOutcome)
    requires jobs.Valid() && |argv| >= 1
    modifies jobs.slots
    ensures jobs.Valid()
    ensures (jobs.Snapshot(), out) == Builtin(old(jobs.Snapshot()), argv)
  {
    if argv[0] == "quit" {
      return Quit;
    } else if argv[0] == "jobs" {
      var lines := jobs.ListJobs();
      return Listed(lines);
    } else if argv[0] == "bg" {
      var o := DoBgFg(jobs, argv);
      return BgFgDone(o);
    } else if argv[0] == "fg" {
      var o := DoBgFg(jobs, argv);
      return BgFgDone(o);
    }
    return NotBuiltin;
  }

  /** eval in the parent: `child` is what fork returned there.  The result
      of addjob is ignored, as the shell ignores it. */
  method Eval(jobs: JobTable, cmdline: string, child: int) returns (out: EvalOutcome)
    requires jobs.Valid() && Parse.LineOk(cmdline) && child != 0
    modifies jobs, jobs.slots
    ensures jobs.Valid() && jobs.slots == old(jobs.slots)
    ensures (jobs.Snapshot(), out) == Control.Eval(old(jobs.Snapshot()), cmdline, child)
  {
    var argv, bg := Parse.ParseLine(cmdline);
    if |argv| == 0 {
      return Blank;
    }
    var b := BuiltinCmd(jobs, argv);
    if !b.NotBuiltin? {
      return Ran(b);
    }
    if !bg {
      var added := jobs.AddJob(child, FG, cmdline);
      return ForegroundJob(child);
    } else {
      var added := jobs.AddJob(child, BG, cmdline);
      var jid := jobs.Pid2Jid(child);
      return BackgroundJob(jid, child);
    }
  }

  /** One pass of sigchld_handler's loop body for what waitpid reported;
      the handler returns after the first child it handles. */
  method SigchldHandler(jobs: JobTable, w: WaitReport) returns (notice: Option<ReapNotice>)
    requires jobs.Valid() && ReapOk(jobs.Snapshot(), w)
    modifies jobs, jobs.slots
    ensures jobs.Valid() && jobs.slots == old(jobs.slots)
    ensures (jobs.Snapshot(), notice) == Reap(old(jobs.Snapshot()), w)
  {
    match w
    case NoChange =>
      return None;
    case Changed(pid, status) =>
      if status == TerminatedBySignal {
        var jid := jobs.Pid2Jid(pid);
        var deleted := jobs.DeleteJob(pid);
        return Some(TerminatedNotice(jid, pid, SIGINT));
      } else if status == StoppedBySignal {
        var job := jobs.GetJobPid(pid);
        jobs.slots[job.value] := jobs.slots[job.value].(state := ST);
        var jid := jobs.Pid2Jid(pid);
        return Some(StoppedNotice(jid, pid, SIGTSTP));
      } else {
        var deleted := jobs.DeleteJob(pid);
        return None;
      }
  }

  /** sigint_handler and sigtstp_handler: the kill they issue, if any. */
  method RelaySignal(jobs: JobTable, sig: int) returns (kill: Option<Kill>)
    requires jobs.Valid()
    ensures kill == Relay(jobs.slots[..], sig)
  {
    var pid := jobs.FgPid();
    if pid != 0 {
      return Some(Kill(-pid, sig));
    }
    return None;
  }
}
