/** The job table of the tiny shell, as values: the contents of the
    MAXJOBS slots and the job-id counter, the definition of every table
    operation on them, and the facts those operations guarantee.  The
    array-based class in module Jobs is proved to compute exactly these. */
module JobSpec {
  import opened Wrappers

  /** Capacity of the job table. */
  const MAXJOBS: nat := 16

  /** Job states; UNDEF marks a slot that holds no job. */
  datatype JobState = UNDEF | FG | BG | ST

  /** The integer code the shell stores for each state. */
  function StateCode(st: JobState): int
  {
    match st
    case UNDEF => 0
    case FG => 1
    case BG => 2
    case ST => 3
  }

  datatype Job = Job(pid: int, jid: int, state: JobState, cmdline: string)

  /** What clearing a slot leaves behind: no process, no job id, no state,
      an empty command line. */
  const EmptyJob := Job(0, 0, UNDEF, "")

  /** The slots plus the id the next added job receives. */
  datatype Table = Table(slots: seq<Job>, nextjid: int)

  /** Every slot cleared. */
  function EmptySlots(): seq<Job>
  {
    seq(MAXJOBS, _ => EmptyJob)
  }

  /** The table as the shell starts: all slots clear, the counter at 1. */
  function InitialTable(): Table
  {
    Table(EmptySlots(), 1)
  }

  // ---------------------------------------------------------------------
  // Linear scans

  /** The key a scan compares each slot against. */
  datatype Key = ByPid(pid: int) | ByJid(jid: int) | ByState(state: JobState)

  predicate Matches(j: Job, key: Key)
  {
    match key
    case ByPid(p) => j.pid == p
    case ByJid(n) => j.jid == n
    case ByState(st) => j.state == st
  }

  /** The lowest slot matching the key, if any. */
  function First(s: seq<Job>, key: Key): (r: Option<nat>)
    ensures r.Some? ==> r.value < |s| && Matches(s[r.value], key)
    ensures r.Some? ==> forall k :: 0 <= k < r.value ==> !Matches(s[k], key)
    ensures r.None? ==> forall k :: 0 <= k < |s| ==> !Matches(s[k], key)
  {
    if |s| == 0 then None
    else if Matches(s[0], key) then Some(0)
    else
      match First(s[1..], key)
      case None => None
      case Some(i) => Some(i + 1)
  }

  /** A matching slot with no match below it is the one First finds. */
  lemma FirstIs(s: seq<Job>, key: Key, i: nat)
    requires i < |s| && Matches(s[i], key)
    requires forall k :: 0 <= k < i ==> !Matches(s[k], key)
    ensures First(s, key) == Some(i)
  {
  }

  /** maxjid: the largest job id in any slot, 0 when there is none above 0.
      Defined slot by slot, as the scan runs. */
  function MaxJid(s: seq<Job>): (m: int)
    ensures m >= 0
    ensures forall k :: 0 <= k < |s| ==> s[k].jid <= m
    ensures m == 0 || exists k :: 0 <= k < |s| && s[k].jid == m
  {
    if |s| == 0 then 0
    else
      var m := MaxJid(s[..|s| - 1]);
      if s[|s| - 1].jid > m then s[|s| - 1].jid else m
  }

  /** getjobpid: the first slot holding the process; nothing for a pid below 1. */
  function FindPid(s: seq<Job>, pid: int): (r: Option<nat>)
    ensures r.Some? <==> pid >= 1 && exists k :: 0 <= k < |s| && s[k].pid == pid
    ensures r.Some? ==> r.value < |s| && s[r.value].pid == pid
    ensures r.Some? ==> forall k :: 0 <= k < r.value ==> s[k].pid != pid
  {
    if pid < 1 then None else First(s, ByPid(pid))
  }

  /** getjobjid: the first slot holding the job id; nothing for an id below 1. */
  function FindJid(s: seq<Job>, jid: int): (r: Option<nat>)
    ensures r.Some? <==> jid >= 1 && exists k :: 0 <= k < |s| && s[k].jid == jid
    ensures r.Some? ==> r.value < |s| && s[r.value].jid == jid
    ensures r.Some? ==> forall k :: 0 <= k < r.value ==> s[k].jid != jid
  {
    if jid < 1 then None else First(s, ByJid(jid))
  }

  /** fgpid: the process of the first foreground slot, 0 when none is. */
  function FgPid(s: seq<Job>): (pid: int)
    ensures (forall k :: 0 <= k < |s| ==> s[k].state != FG) ==> pid == 0
    ensures (exists k :: 0 <= k < |s| && s[k].state == FG) ==>
              exists k :: 0 <= k < |s| && s[k].state == FG && s[k].pid == pid &&
                forall j :: 0 <= j < k ==> s[j].state != FG
  {
    match First(s, ByState(FG))
    case None => 0
    case Some(i) => s[i].pid
  }

  /** pid2jid: the job id of the first slot holding the process, 0 if none. */
  function Pid2Jid(s: seq<Job>, pid: int): (jid: int)
    ensures (pid < 1 || forall k :: 0 <= k < |s| ==> s[k].pid != pid) ==> jid == 0
    ensures forall k ::
              (0 <= k < |s| && pid >= 1 && s[k].pid == pid && forall j :: 0 <= j < k ==> s[j].pid != pid)
              ==> jid == s[k].jid
  {
    match FindPid(s, pid)
    case None => 0
    case Some(i) => s[i].jid
  }

  // ---------------------------------------------------------------------
  // Mutations

  /** The counter after handing out n: one more, back to 1 past MAXJOBS. */
  function NextJid(n: int): (r: int)
    ensures 0 <= n ==> 1 <= r <= MAXJOBS
    ensures r == 1 || r == n + 1
  {
    if n + 1 > MAXJOBS then 1 else n + 1
  }

  /** addjob succeeds exactly for a positive pid and a table with a free slot. */
  predicate AddFits(t: Table, pid: int)
  {
    pid >= 1 && First(t.slots, ByPid(0)).Some?
  }

  /** addjob: the first free slot receives the job, numbered with the counter. */
  function Add(t: Table, pid: int, state: JobState, cmdline: string): (r: Table)
    ensures |r.slots| == |t.slots|
    ensures r == t || exists i :: 0 <= i < |t.slots| && t.slots[i].pid == 0 &&
                        r == Table(t.slots[i := Job(pid, t.nextjid, state, cmdline)], NextJid(t.nextjid))
    ensures pid < 1 ==> r == t
  {
    if pid < 1 then t
    else
      match First(t.slots, ByPid(0))
      case None => t
      case Some(i) => Table(t.slots[i := Job(pid, t.nextjid, state, cmdline)], NextJid(t.nextjid))
  }

  /** deletejob: the first slot of the process is cleared and the counter
      becomes one more than the largest remaining job id. */
  function Delete(t: Table, pid: int): (r: Table)
    ensures |r.slots| == |t.slots|
    ensures r == t <==> FindPid(t.slots, pid).None?
    ensures forall k :: 0 <= k < |t.slots| ==> r.slots[k] == t.slots[k] || r.slots[k] == EmptyJob
    ensures r != t ==> forall k :: 0 <= k < |r.slots| ==> r.slots[k].jid < r.nextjid
  {
    match FindPid(t.slots, pid)
    case None => t
    case Some(i) =>
      var s := t.slots[i := EmptyJob];
      Table(s, MaxJid(s) + 1)
  }

  /** A write of `job->state` through the pointer a lookup returned. */
  function SetState(t: Table, i: nat, st: JobState): (r: Table)
    requires i < |t.slots|
    ensures |r.slots| == |t.slots| && r.nextjid == t.nextjid
    ensures r.slots[i] == t.slots[i].(state := st)
    ensures forall k :: 0 <= k < |t.slots| && k != i ==> r.slots[k] == t.slots[k]
  {
    Table(t.slots[i := t.slots[i].(state := st)], t.nextjid)
  }

  // ---------------------------------------------------------------------
  // Invariants

  /** A slot is either clear or holds a positive pid and a positive job id. */
  predicate SlotOk(j: Job)
  {
    j == EmptyJob || (j.pid >= 1 && j.jid >= 1)
  }

  predicate WellFormed(t: Table)
  {
    && |t.slots| == MAXJOBS
    && t.nextjid >= 1
    && forall k :: 0 <= k < |t.slots| ==> SlotOk(t.slots[k])
  }

  /** No process is registered in two slots. */
  predicate UniquePids(s: seq<Job>)
  {
    forall i, j :: 0 <= i < |s| && 0 <= j < |s| && i != j && s[i].pid != 0 ==> s[i].pid != s[j].pid
  }

  /** At most one slot is in the foreground. */
  predicate AtMostOneFg(s: seq<Job>)
  {
    forall i, j :: 0 <= i < |s| && 0 <= j < |s| && s[i].state == FG && s[j].state == FG ==> i == j
  }

  predicate Inv(t: Table)
  {
    WellFormed(t) && UniquePids(t.slots) && AtMostOneFg(t.slots)
  }

  // ---------------------------------------------------------------------
  // Facts

  /** After initjobs every slot is clear: no job id above 0, no foreground
      process, no live job; the starting table satisfies every invariant. */
  lemma ClearedTable(t: Table)
    requires |t.slots| == MAXJOBS && t.nextjid >= 1
    requires forall k :: 0 <= k < |t.slots| ==> t.slots[k] == EmptyJob
    ensures MaxJid(t.slots) == 0 && FgPid(t.slots) == 0
    ensures forall pid :: FindPid(t.slots, pid).None?
    ensures Inv(t)
  {
  }

  /** With every slot well formed, fgpid reports 0 exactly when no slot is
      in the foreground, and otherwise a real (positive) process. */
  lemma FgPidZeroIffNoForeground(t: Table)
    requires WellFormed(t)
    ensures FgPid(t.slots) == 0 <==> forall k :: 0 <= k < |t.slots| ==> t.slots[k].state != FG
    ensures FgPid(t.slots) != 0 ==> FgPid(t.slots) >= 1
  {
    if exists k :: 0 <= k < |t.slots| && t.slots[k].state == FG {
      var k :| 0 <= k < |t.slots| && t.slots[k].state == FG && t.slots[k].pid == FgPid(t.slots);
      assert SlotOk(t.slots[k]);
    }
  }

  /** A rejected addjob (pid below 1, or no free slot) leaves the table,
      counter included, untouched. */
  lemma AddRejected(t: Table, pid: int, state: JobState, cmdline: string)
    requires !AddFits(t, pid)
    ensures Add(t, pid, state, cmdline) == t
  {
  }

  /** A successful addjob writes only the lowest free slot, filling it with
      the pid, the state, the old counter as job id and the command line, and
      advances the counter with wrap-around. */
  lemma AddFillsLowestFreeSlot(t: Table, pid: int, state: JobState, cmdline: string)
    requires AddFits(t, pid)
    ensures var r := Add(t, pid, state, cmdline);
      exists i :: 0 <= i < |t.slots| && t.slots[i].pid == 0
        && (forall k :: 0 <= k < i ==> t.slots[k].pid != 0)
        && r.slots[i] == Job(pid, t.nextjid, state, cmdline)
        && (forall k :: 0 <= k < |t.slots| && k != i ==> r.slots[k] == t.slots[k])
    ensures Add(t, pid, state, cmdline).nextjid ==
              if t.nextjid + 1 > MAXJOBS then 1 else t.nextjid + 1
  {
    var i := First(t.slots, ByPid(0)).value;
    assert Add(t, pid, state, cmdline).slots[i] == Job(pid, t.nextjid, state, cmdline);
  }

  /** addjob followed by getjobpid and pid2jid finds the job just added,
      with the supplied values and the old counter as its job id. */
  lemma AddThenFind(t: Table, pid: int, state: JobState, cmdline: string)
    requires AddFits(t, pid) && FindPid(t.slots, pid).None?
    ensures var r := Add(t, pid, state, cmdline);
      && FindPid(r.slots, pid).Some?
      && r.slots[FindPid(r.slots, pid).value] == Job(pid, t.nextjid, state, cmdline)
      && Pid2Jid(r.slots, pid) == t.nextjid
  {
    var i := First(t.slots, ByPid(0)).value;
    var r := Add(t, pid, state, cmdline);
    assert r.slots[i] == Job(pid, t.nextjid, state, cmdline);
    FirstIs(r.slots, ByPid(pid), i);
  }

  /** deletejob of a pid below 1 or of an absent pid changes nothing. */
  lemma DeleteAbsent(t: Table, pid: int)
    requires FindPid(t.slots, pid).None?
    ensures Delete(t, pid) == t
  {
  }

  /** deletejob of a present pid clears exactly the first slot holding it,
      and leaves the counter above every job id still in the table. */
  lemma DeleteClearsFirstMatch(t: Table, pid: int)
    requires FindPid(t.slots, pid).Some?
    ensures var i := FindPid(t.slots, pid).value; var r := Delete(t, pid);
      && r.slots[i] == EmptyJob
      && (forall k :: 0 <= k < |t.slots| && k != i ==> r.slots[k] == t.slots[k])
      && (forall k :: 0 <= k < |r.slots| ==> r.slots[k].jid < r.nextjid)
      && r.nextjid >= 1
  {
  }

  /** Once the last job is gone the counter restarts at 1, so job ids are
      recycled rather than growing for ever. */
  lemma DeleteLastJobResetsCounter(t: Table, pid: int)
    requires WellFormed(t) && FindPid(t.slots, pid).Some?
    requires forall k :: 0 <= k < |t.slots| && t.slots[k].pid != pid ==> t.slots[k] == EmptyJob
    requires UniquePids(t.slots)
    ensures Delete(t, pid).nextjid == 1
  {
    var i := FindPid(t.slots, pid).value;
    var s := t.slots[i := EmptyJob];
    forall k | 0 <= k < |s|
      ensures s[k].jid == 0
    {
      if k != i {
        assert t.slots[k].pid != pid;
      }
    }
  }

  /** With distinct pids, deletejob followed by getjobpid finds nothing. */
  lemma DeleteThenNotFound(t: Table, pid: int)
    requires UniquePids(t.slots)
    ensures FindPid(Delete(t, pid).slots, pid).None?
  {
    match FindPid(t.slots, pid)
    case None =>
    case Some(i) =>
      var s := t.slots[i := EmptyJob];
      forall k | 0 <= k < |s|
        ensures s[k].pid != pid
      {
        if k != i {
          assert t.slots[i].pid != 0;
        }
      }
  }

  /** With distinct pids, deleting the same process twice is the same as
      deleting it once. */
  lemma DeleteIdempotent(t: Table, pid: int)
    requires UniquePids(t.slots)
    ensures Delete(Delete(t, pid), pid) == Delete(t, pid)
  {
    DeleteThenNotFound(t, pid);
  }

  /** addjob of a fresh pid keeps every invariant, provided that a
      foreground job is only added when no job is in the foreground. */
  lemma AddPreservesInv(t: Table, pid: int, state: JobState, cmdline: string)
    requires Inv(t) && FindPid(t.slots, pid).None?
    requires state == FG ==> FgPid(t.slots) == 0
    ensures Inv(Add(t, pid, state, cmdline))
  {
    if AddFits(t, pid) {
      var i := First(t.slots, ByPid(0)).value;
      var r := Add(t, pid, state, cmdline);
      FgPidZeroIffNoForeground(t);
      assert forall k :: 0 <= k < |t.slots| ==> t.slots[k].pid != pid;
      forall a, b | 0 <= a < |r.slots| && 0 <= b < |r.slots| && a != b && r.slots[a].pid != 0
        ensures r.slots[a].pid != r.slots[b].pid
      {
        if a == i {
          assert r.slots[b] == t.slots[b];
        } else if b == i {
          assert r.slots[a] == t.slots[a];
        }
      }
    }
  }

  /** deletejob keeps every invariant. */
  lemma DeletePreservesInv(t: Table, pid: int)
    requires Inv(t)
    ensures Inv(Delete(t, pid))
  {
  }

  /** Moving a job out of the foreground (to BG or ST) keeps every
      invariant; moving it into the foreground does when no other job is. */
  lemma SetStatePreservesInv(t: Table, i: nat, st: JobState)
    requires Inv(t) && i < |t.slots| && t.slots[i].pid >= 1
    requires st == FG ==> forall k :: 0 <= k < |t.slots| && k != i ==> t.slots[k].state != FG
    ensures Inv(SetState(t, i, st))
  {
    var r := SetState(t, i, st);
    forall k | 0 <= k < |r.slots|
      ensures SlotOk(r.slots[k])
    {
      assert SlotOk(t.slots[k]);
    }
  }

  /** A fresh table after n background jobs with pids p, p + 1, ... */
  function Filled(p: int, n: nat): (t: Table)
    requires n <= MAXJOBS
    ensures |t.slots| == MAXJOBS
  {
    if n == 0 then InitialTable() else Add(Filled(p, n - 1), p + n - 1, BG, "x\n")
  }

  /** Jobs p, p + 1, ... in the first n slots, numbered 1 to n. */
  function FilledSlots(p: int, n: nat): seq<Job>
  {
    seq(MAXJOBS, k => if k < n then Job(p + k, k + 1, BG, "x\n") else EmptyJob)
  }

  /** The n jobs sit in the first n slots, numbered 1 to n. */
  lemma {:induction false} FilledShape(p: int, n: nat)
    requires p >= 1 && n < MAXJOBS
    ensures Filled(p, n) == Table(FilledSlots(p, n), n + 1)
  {
    if n > 0 {
      var prev := Filled(p, n - 1);
      FilledShape(p, n - 1);
      AddToFilled(p, n);
      assert Filled(p, n) == Add(prev, p + n - 1, BG, "x\n");
    }
  }

  /** The n-th job lands in slot n - 1 with id n. */
  lemma AddToFilled(p: int, n: nat)
    requires p >= 1 && 1 <= n < MAXJOBS
    ensures Add(Table(FilledSlots(p, n - 1), n), p + n - 1, BG, "x\n") == Table(FilledSlots(p, n), n + 1)
  {
    var s := FilledSlots(p, n - 1);
    FirstIs(s, ByPid(0), n - 1);
    assert s[n - 1 := Job(p + n - 1, n, BG, "x\n")] == FilledSlots(p, n);
  }

  /** Job ids are not unique.  Fifteen jobs get ids 1 to 15; when the third
      ends, the counter stays at 16 because id 15 is still live.  The next
      job gets id 16, the counter wraps to 1, and the job after it gets id 1
      while the job in slot 0 still holds id 1. */
  lemma AddCanRepeatJid(p: int)
    requires p >= 1
    ensures var t := Add(Add(Delete(Filled(p, 15), p + 2), p + 15, BG, "y\n"), p + 16, BG, "z\n");
      && t.slots[0] == Job(p, 1, BG, "x\n")
      && t.slots[15] == Job(p + 16, 1, BG, "z\n")
  {
    var d := Table(Filled(p, 15).slots[2 := EmptyJob], 16);
    var a := Table(d.slots[2 := Job(p + 15, 16, BG, "y\n")], 1);
    DeleteFromFilled(p);
    AddAfterWrap(p);
    AddIntoLastSlot(p);
    assert a.slots == Filled(p, 15).slots[2 := Job(p + 15, 16, BG, "y\n")];
  }

  /** With slot 2 free, the sixteenth job takes it with id 16 and the
      counter wraps to 1. */
  lemma AddAfterWrap(p: int)
    requires p >= 1
    ensures var d := Table(Filled(p, 15).slots[2 := EmptyJob], 16);
      Add(d, p + 15, BG, "y\n") == Table(d.slots[2 := Job(p + 15, 16, BG, "y\n")], 1)
  {
    FilledShape(p, 15);
    var d := Table(Filled(p, 15).slots[2 := EmptyJob], 16);
    FirstIs(d.slots, ByPid(0), 2);
  }

  /** Then only slot 15 is free, and the next job gets it with id 1. */
  lemma AddIntoLastSlot(p: int)
    requires p >= 1
    ensures var a := Table(Filled(p, 15).slots[2 := Job(p + 15, 16, BG, "y\n")], 1);
      && a.slots[0] == Job(p, 1, BG, "x\n")
      && Add(a, p + 16, BG, "z\n").slots[15] == Job(p + 16, 1, BG, "z\n")
      && Add(a, p + 16, BG, "z\n").slots[0] == a.slots[0]
  {
    FilledShape(p, 15);
    var a := Table(Filled(p, 15).slots[2 := Job(p + 15, 16, BG, "y\n")], 1);
    assert forall k :: 0 <= k < 15 ==> a.slots[k].pid >= p;
    FirstIs(a.slots, ByPid(0), 15);
  }

  /** Ending the third of fifteen jobs leaves id 15 live, so the counter is 16. */
  lemma DeleteFromFilled(p: int)
    requires p >= 1
    ensures Delete(Filled(p, 15), p + 2) == Table(Filled(p, 15).slots[2 := EmptyJob], 16)
  {
    FilledShape(p, 15);
    var f := Filled(p, 15);
    FirstIs(f.slots, ByPid(p + 2), 2);
    var s := f.slots[2 := EmptyJob];
    MaxJidIs(s, 15, 14);
    assert FindPid(f.slots, p + 2) == Some(2);
  }

  /** A positive job id that no slot exceeds is the largest. */
  lemma MaxJidIs(s: seq<Job>, m: int, i: nat)
    requires m >= 1 && i < |s| && s[i].jid == m
    requires forall k :: 0 <= k < |s| ==> s[k].jid <= m
    ensures MaxJid(s) == m
  {
  }

  /** Two tables whose slots agree on a key find the same first slot. */
  lemma FirstAgrees(s: seq<Job>, s2: seq<Job>, key: Key)
    requires |s| == |s2| && forall k :: 0 <= k < |s| ==> Matches(s[k], key) == Matches(s2[k], key)
    ensures First(s, key) == First(s2, key)
  {
  }

  /** The largest job id depends on the job ids alone. */
  lemma {:induction false} MaxJidAgrees(s: seq<Job>, s2: seq<Job>)
    requires |s| == |s2| && forall k :: 0 <= k < |s| ==> s[k].jid == s2[k].jid
    ensures MaxJid(s) == MaxJid(s2)
  {
    if |s| > 0 {
      MaxJidAgrees(s[..|s| - 1], s2[..|s| - 1]);
    }
  }

  /** Setting a job's state moves no pid and no job id: every pid and job id
      lookup, the largest job id and the counter are what they were. */
  lemma SetStateKeepsLookups(t: Table, i: nat, st: JobState)
    requires i < |t.slots|
    ensures forall pid :: FindPid(SetState(t, i, st).slots, pid) == FindPid(t.slots, pid)
    ensures forall jid :: FindJid(SetState(t, i, st).slots, jid) == FindJid(t.slots, jid)
    ensures MaxJid(SetState(t, i, st).slots) == MaxJid(t.slots)
  {
    var r := SetState(t, i, st);
    forall pid | pid >= 1
      ensures FindPid(r.slots, pid) == FindPid(t.slots, pid)
    {
      FirstAgrees(r.slots, t.slots, ByPid(pid));
    }
    forall jid | jid >= 1
      ensures FindJid(r.slots, jid) == FindJid(t.slots, jid)
    {
      FirstAgrees(r.slots, t.slots, ByJid(jid));
    }
    MaxJidAgrees(r.slots, t.slots);
  }

  // ---------------------------------------------------------------------
  // listjobs

  datatype StatusWord = Running | Foreground | Stopped | InternalError(slot: int, state: int)

  /** One line of the `jobs` listing. */
  datatype Entry = Entry(jid: int, pid: int, status: StatusWord, cmdline: string)

  function StatusOf(j: Job, i: int): StatusWord
  {
    match j.state
    case BG => Running
    case FG => Foreground
    case ST => Stopped
    case UNDEF => InternalError(i, StateCode(UNDEF))
  }

  function EntryOf(j: Job, i: int): Entry
  {
    Entry(j.jid, j.pid, StatusOf(j, i), j.cmdline)
  }

  /** listjobs: one entry per slot with a process, in slot order. */
  function Listing(s: seq<Job>): (r: seq<Entry>)
    ensures |r| <= |s|
  {
    if |s| == 0 then []
    else
      Listing(s[..|s| - 1]) +
        (if s[|s| - 1].pid != 0 then [EntryOf(s[|s| - 1], |s| - 1)] else [])
  }

  /** The indices of the slots holding a process, as the scan meets them. */
  function LiveSlots(s: seq<Job>): seq<nat>
  {
    if |s| == 0 then []
    else LiveSlots(s[..|s| - 1]) + (if s[|s| - 1].pid != 0 then [|s| - 1] else [])
  }

  /** The listing is one entry per live slot in increasing slot order: the
      n-th entry is the job of the n-th live slot, the slots named are
      increasing and live, and every live slot is named. */
  lemma ListingShowsLiveJobs(s: seq<Job>)
    ensures |Listing(s)| == |LiveSlots(s)|
    ensures forall n :: 0 <= n < |LiveSlots(s)| ==>
              && LiveSlots(s)[n] < |s| && s[LiveSlots(s)[n]].pid != 0
              && Listing(s)[n] == EntryOf(s[LiveSlots(s)[n]], LiveSlots(s)[n])
    ensures forall n, m :: 0 <= n < m < |LiveSlots(s)| ==> LiveSlots(s)[n] < LiveSlots(s)[m]
    ensures forall k :: 0 <= k < |s| && s[k].pid != 0 ==> k in LiveSlots(s)
  {
    LiveSlotsInOrder(s);
    ListingFollowsLiveSlots(s);
  }

  /** The live slots are named in increasing order, each once. */
  lemma {:induction false} LiveSlotsInOrder(s: seq<Job>)
    ensures forall n :: 0 <= n < |LiveSlots(s)| ==> LiveSlots(s)[n] < |s| && s[LiveSlots(s)[n]].pid != 0
    ensures forall n, m :: 0 <= n < m < |LiveSlots(s)| ==> LiveSlots(s)[n] < LiveSlots(s)[m]
    ensures forall k :: 0 <= k < |s| && s[k].pid != 0 ==> k in LiveSlots(s)
  {
    if |s| > 0 {
      var p := s[..|s| - 1];
      LiveSlotsInOrder(p);
      var l, lp := LiveSlots(s), LiveSlots(p);
      assert l[..|lp|] == lp;
      forall n | 0 <= n < |lp|
        ensures l[n] < |s| && s[l[n]].pid != 0
      {
        assert l[n] == lp[n] && s[lp[n]] == p[lp[n]];
      }
      forall k | 0 <= k < |s| && s[k].pid != 0
        ensures k in l
      {
        if k < |p| {
          assert p[k] == s[k];
          var i :| 0 <= i < |lp| && lp[i] == k;
          assert l[i] == k;
        } else {
          assert l == lp + [k];
        }
      }
    }
  }

  /** The n-th entry of the listing is the job in the n-th live slot. */
  lemma {:induction false} ListingFollowsLiveSlots(s: seq<Job>)
    ensures |Listing(s)| == |LiveSlots(s)|
    ensures forall n :: 0 <= n < |LiveSlots(s)| && LiveSlots(s)[n] < |s| ==>
              Listing(s)[n] == EntryOf(s[LiveSlots(s)[n]], LiveSlots(s)[n])
  {
    if |s| > 0 {
      var p := s[..|s| - 1];
      ListingFollowsLiveSlots(p);
      LiveSlotsInOrder(p);
      var l, lp := LiveSlots(s), LiveSlots(p);
      forall n | 0 <= n < |l| && l[n] < |s|
        ensures Listing(s)[n] == EntryOf(s[l[n]], l[n])
      {
        if n < |lp| {
          assert l[n] == lp[n] && s[lp[n]] == p[lp[n]];
          assert Listing(s)[n] == Listing(p)[n];
        }
      }
    }
  }
}
