/** The job table as the shell keeps it: a fixed array of MAXJOBS slots
    updated in place, and the job-id counter.  Every method is proved to
    compute what the matching JobSpec function defines. */
module Jobs {
  import opened Wrappers
  import opened JobSpec

  class JobTable {
    var slots: array<Job>
    var nextjid: int

    ghost predicate Valid()
      reads this
    {
      slots.Length == MAXJOBS
    }

    /** The table's current contents as a value. */
    function Snapshot(): Table
      reads this, slots
    {
      Table(slots[..], nextjid)
    }

    /** The table as the program starts: zero-initialised slots (all clear)
        and the counter at 1. */
    constructor ()
      ensures Valid() && fresh(slots)
      ensures Snapshot() == InitialTable()
    {
      slots := new Job[MAXJOBS](_ => EmptyJob);
      nextjid := 1;
    }

    /** clearjob: empty one slot. */
    method ClearJob(i: nat)
      requires Valid() && i < slots.Length
      modifies slots
      ensures slots[..] == old(slots[..])[i := EmptyJob]
    {
      slots[i] := EmptyJob;
    }

    /** initjobs: clear every slot; the counter is not touched. */
    method InitJobs()
      requires Valid()
      modifies slots
      ensures slots[..] == EmptySlots()
    {
      for i := 0 to MAXJOBS
        invariant forall k :: 0 <= k < i ==> slots[k] == EmptyJob
      {
        ClearJob(i);
      }
    }

    /** maxjid: the largest job id in the table. */
    method MaxJid() returns (max: int)
      requires Valid()
      ensures max == JobSpec.MaxJid(slots[..])
    {
      max := 0;
      for i := 0 to MAXJOBS
        invariant max == JobSpec.MaxJid(slots[..i])
      {
        assert slots[..i + 1][..i] == slots[..i];
        if slots[i].jid > max {
          max := slots[i].jid;
        }
      }
      assert slots[..MAXJOBS] == slots[..];
    }

    /** addjob: returns 1 when the job was stored, 0 otherwise. */
    method AddJob(pid: int, state: JobState, cmdline: string) returns (ok: int)
      requires Valid()
      modifies this, slots
      ensures Valid() && slots == old(slots)
      ensures Snapshot() == Add(old(Snapshot()), pid, state, cmdline)
      ensures ok == if AddFits(old(Snapshot()), pid) then 1 else 0
    {
      if pid < 1 {
        return 0;
      }
      for i := 0 to MAXJOBS
        invariant forall k :: 0 <= k < i ==> slots[k].pid != 0
      {
        if slots[i].pid == 0 {
          FirstIs(slots[..], ByPid(0), i);
          slots[i] := Job(pid, nextjid, state, cmdline);
          nextjid := nextjid + 1;
          if nextjid > MAXJOBS {
            nextjid := 1;
          }
          return 1;
        }
      }
      return 0;
    }

    /** deletejob: returns 1 when a slot held the process, 0 otherwise. */
    method DeleteJob(pid: int) returns (ok: int)
      requires Valid()
      modifies this, slots
      ensures Valid() && slots == old(slots)
      ensures Snapshot() == Delete(old(Snapshot()), pid)
      ensures ok == if FindPid(old(slots[..]), pid).Some? then 1 else 0
    {
      if pid < 1 {
        return 0;
      }
      for i := 0 to MAXJOBS
        invariant forall k :: 0 <= k < i ==> slots[k].pid != pid
      {
        if slots[i].pid == pid {
          ClearJob(i);
          var max := MaxJid();
          nextjid := max + 1;
          return 1;
        }
      }
      return 0;
    }

    /** fgpid: the pid of the first foreground job, 0 if there is none. */
    method FgPid() returns (pid: int)
      requires Valid()
      ensures pid == JobSpec.FgPid(slots[..])
    {
      for i := 0 to MAXJOBS
        invariant forall k :: 0 <= k < i ==> slots[k].state != FG
      {
        if slots[i].state == FG {
          FirstIs(slots[..], ByState(FG), i);
          return slots[i].pid;
        }
      }
      return 0;
    }

    /** getjobpid: the slot of the process, None (NULL) if it is absent. */
    method GetJobPid(pid: int) returns (r: Option<nat>)
      requires Valid()
      ensures r == FindPid(slots[..], pid)
    {
      if pid < 1 {
        return None;
      }
      for i := 0 to MAXJOBS
        invariant forall k :: 0 <= k < i ==> slots[k].pid != pid
      {
        if slots[i].pid == pid {
          FirstIs(slots[..], ByPid(pid), i);
          return Some(i);
        }
      }
      return None;
    }

    /** getjobjid: the slot carrying the job id, None (NULL) if none does. */
    method GetJobJid(jid: int) returns (r: Option<nat>)
      requires Valid()
      ensures r == FindJid(slots[..], jid)
    {
      if jid < 1 {
        return None;
      }
      for i := 0 to MAXJOBS
        invariant forall k :: 0 <= k < i ==> slots[k].jid != jid
      {
        if slots[i].jid == jid {
          FirstIs(slots[..], ByJid(jid), i);
          return Some(i);
        }
      }
      return None;
    }

    /** pid2jid: the job id of the process, 0 if it is absent. */
    method Pid2Jid(pid: int) returns (jid: int)
      requires Valid()
      ensures jid == JobSpec.Pid2Jid(slots[..], pid)
    {
      if pid < 1 {
        return 0;
      }
      for i := 0 to MAXJOBS
        invariant forall k :: 0 <= k < i ==> slots[k].pid != pid
      {
        if slots[i].pid == pid {
          FirstIs(slots[..], ByPid(pid), i);
          return slots[i].jid;
        }
      }
      return 0;
    }

    /** listjobs: the lines printed for the live slots, in slot order. */
    method ListJobs() returns (lines: seq<Entry>)
      requires Valid()
      ensures lines == Listing(slots[..])
    {
      lines := [];
      for i := 0 to MAXJOBS
        invariant lines == Listing(slots[..i])
      {
        assert slots[..i + 1][..i] == slots[..i];
        if slots[i].pid != 0 {
          lines := lines + [EntryOf(slots[i], i)];
        }
      }
      assert slots[..MAXJOBS] == slots[..];
    }
  }
}
