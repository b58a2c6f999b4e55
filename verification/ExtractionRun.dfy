/** One run of the extraction, operation by operation (panoptikon/src/resources.rs). */
module ExtractionRun {
  // It works on a file system it shares with other runs. What it does is a run of the state
  // machine in `Extraction`, so everything proved there holds of it.

  import opened Prelude
  import opened Extraction

  /** Where a run fails, if it does, and what the failing operation leaves behind. */
  datatype Fault =
    | NoFault
    | AtClear(left: Option<Tree>)
    | AtUnpack(entry: nat, left: Option<Tree>)
    | AtMark(left: Option<Tree>)
    | AtRemove(rest: Option<Tree>)
    | AtRename

  predicate NoneReplacing(live: map<nat, Phase>) {
    forall q :: q in live ==> !live[q].Replacing?
  }

  /** `es` leads from `s` to `t`, in order. */
  ghost predicate Leads(job: Job, s: State, es: seq<Event>, t: State) {
    OrderlyRun(job, s, es) && Execute(job, s, es) == Some(t)
  }

  lemma LeadsOn(job: Job, s: State, es: seq<Event>, t: State, e: Event, reply: Reply, u: State)
    requires Leads(job, s, es, t) && Orderly(t, e) && Next(job, t, e) == Some(Outcome(u, reply))
    ensures Leads(job, s, es + [e], u)
  {
    OrderlyConcat(job, s, es, [e]);
  }

  /** What holds where a run has led. */
  lemma LeadsKeeps(job: Job, s: State, es: seq<Event>, t: State)
    requires Leads(job, s, es, t) && Inv(job, s) && IsHexText(job.hash)
    ensures Inv(job, t)
    ensures DestMatches(s.dest, job.hash) ==> t.dest == s.dest
  {
    MarkerMeansComplete(job, s, es);
    if DestMatches(s.dest, job.hash) { MatchingIsForever(job, s, es); }
  }

  /** A run that is about to rename has the whole archive, marker included. */
  lemma ReadyCopy(job: Job, s: State, es: seq<Event>, t: State, pid: nat)
    requires Leads(job, s, es, t) && Inv(job, s) && IsHexText(job.hash) && pid in t.live && t.live[pid] == Renaming
    ensures Temp(t, pid) == Full(job) && Matches(Full(job), job.hash)
  {
    LeadsKeeps(job, s, es, t);
    FullMatches(job);
    assert Prepared(job, t, pid);
  }

  /** The destination and the temporary directories, and the phases of the live runs. */
  class Installation {
    const job: Job
    var dest: Option<Tree>
    var temps: map<nat, Tree>
    ghost var live: map<nat, Phase>
    ghost var origin: State
    ghost var history: seq<Event>

    constructor (job: Job, dest: Option<Tree>, temps: map<nat, Tree>)
      requires DestMatches(dest, job.hash) ==> Complete(job, dest.value)
      ensures this.job == job && Now() == State(dest, temps, map[]) && Valid()
    {
      this.job, this.dest, this.temps, this.live := job, dest, temps, map[];
      origin, history := State(dest, temps, map[]), [];
    }

    ghost function Now(): State
      reads this
    {
      State(dest, temps, live)
    }

    /** Everything so far was an orderly run of the state machine from a sound beginning. */
    ghost predicate Valid()
      reads this
    {
      Inv(job, origin) && Leads(job, origin, history, Now())
    }

    ghost predicate Stands(pid: nat, phase: Phase)
      reads this
    {
      Valid() && pid in live && live[pid] == phase
    }

    /** The look at the marker with which a run begins. */
    method Begin(pid: nat) returns (done: bool)
      requires Valid() && pid !in live
      modifies this
      ensures Valid() && dest == old(dest) && temps == old(temps) && origin == old(origin)
      ensures done == DestMatches(dest, job.hash)
      ensures live == if done then old(live) else old(live)[pid := Clearing]
    {
      done := DestMatches(dest, job.hash);
      ghost var was := Now();
      if !done { live := live[pid := Clearing]; }
      LeadsOn(job, origin, history, was, Event.Begin(pid), if done then Done(false) else Pending, Now());
      history := history + [Event.Begin(pid)];
    }

    /** An operation failed: the run ends with an error and leaves `left` and `rest`. */
    method Abandon(pid: nat, left: Option<Tree>, rest: Option<Tree>)
      requires Valid() && pid in live
      requires rest == dest || (live[pid].Replacing? && PartOf(rest, dest))
      modifies this
      ensures Valid() && dest == rest && temps == With(old(temps), pid, left) && origin == old(origin)
      ensures live == old(live) - {pid}
    {
      ghost var was := Now();
      temps, dest := With(temps, pid, left), rest;
      live := live - {pid};
      LeadsOn(job, origin, history, was, Stop(pid, left, rest), Failed, Now());
      history := history + [Stop(pid, left, rest)];
    }

    /** `remove_dir_all` of a stale temporary directory of the same name. */
    method ClearTemp(pid: nat)
      requires Stands(pid, Clearing)
      modifies this
      ensures Valid() && dest == old(dest) && temps == old(temps) - {pid} && origin == old(origin)
      ensures live == old(live)[pid := Unpacking(0)]
    {
      ghost var was := Now();
      temps := temps - {pid};
      live := live[pid := Unpacking(0)];
      LeadsOn(job, origin, history, was, Clear(pid), Pending, Now());
      history := history + [Clear(pid)];
    }

    method UnpackEntry(pid: nat, n: nat)
      requires Stands(pid, Unpacking(n)) && n < |job.archive|
      modifies this
      ensures Valid() && dest == old(dest) && temps - {pid} == old(temps) - {pid} && origin == old(origin)
      ensures live == old(live)[pid := Unpacking(n + 1)]
    {
      ghost var was := Now();
      var entry := job.archive[n];
      temps := temps[pid := (if pid in temps then temps[pid] else map[])[entry.path := entry.content]];
      live := live[pid := Unpacking(n + 1)];
      LeadsOn(job, origin, history, was, Unpack(pid), Pending, Now());
      history := history + [Unpack(pid)];
    }

    method WriteMarker(pid: nat)
      requires Stands(pid, Unpacking(|job.archive|))
      modifies this
      ensures Valid() && dest == old(dest) && temps - {pid} == old(temps) - {pid} && origin == old(origin)
      ensures live == old(live)[pid := Marked]
    {
      ghost var was := Now();
      temps := temps[pid := (if pid in temps then temps[pid] else map[])[Marker() := Readable(MarkerText(job.hash))]];
      live := live[pid := Marked];
      LeadsOn(job, origin, history, was, Mark(pid), Pending, Now());
      history := history + [Mark(pid)];
    }

    /** The second look at the destination. */
    method LookAgain(pid: nat) returns (done: bool)
      requires Stands(pid, Marked)
      modifies this
      ensures Valid() && dest == old(dest) && origin == old(origin)
      ensures done == DestMatches(dest, job.hash)
      ensures temps == if done then old(temps) - {pid} else old(temps)
      ensures live == if done then old(live) - {pid}
                      else old(live)[pid := if dest.Some? then Replacing else Renaming]
    {
      ghost var was := Now();
      done := DestMatches(dest, job.hash);
      if done {
        temps := temps - {pid};
        live := live - {pid};
      } else {
        live := live[pid := if dest.Some? then Replacing else Renaming];
      }
      LeadsOn(job, origin, history, was, Recheck(pid, None), if done then Done(false) else Pending, Now());
      history := history + [Recheck(pid, None)];
    }

    /** `remove_dir_all` of the stale destination. */
    method RemoveDest(pid: nat)
      requires Stands(pid, Replacing)
      modifies this
      ensures Valid() && dest == None && temps == old(temps) && origin == old(origin)
      ensures live == old(live)[pid := Renaming]
    {
      ghost var was := Now();
      dest := None;
      live := live[pid := Renaming];
      LeadsOn(job, origin, history, was, Remove(pid), Pending, Now());
      history := history + [Remove(pid)];
    }

    /** The final rename, and what is done when it fails. */
    method MoveIntoPlace(pid: nat, fails: bool) returns (reply: Reply)
      requires Stands(pid, Renaming) && NoneReplacing(live)
      modifies this
      ensures Valid() && temps == old(temps) - {pid} && live == old(live) - {pid} && origin == old(origin)
      ensures dest == if fails || !Vacant(old(dest)) then old(dest) else Some(Temp(old(Now()), pid))
      ensures reply == if !fails && Vacant(old(dest)) then Done(true)
                       else if old(DestMatches(dest, job.hash)) then Done(false) else Failed
    {
      ghost var was := Now();
      var moved := !fails && Vacant(dest);
      if moved {
        dest := Some(if pid in temps then temps[pid] else map[]);
        reply := Done(true);
      } else {
        reply := if DestMatches(dest, job.hash) then Done(false) else Failed;
      }
      temps := temps - {pid};
      live := live - {pid};
      LeadsOn(job, origin, history, was, Rename(pid, moved, None), reply, Now());
      history := history + [Rename(pid, moved, None)];
    }

    /** `commit_extraction`: look again, then replace. */
    method CommitExtraction(pid: nat, fault: Fault) returns (reply: Reply)
      requires IsHexText(job.hash) && Stands(pid, Marked) && NoneReplacing(live)
      requires fault.AtRemove? ==> PartOf(fault.rest, dest)
      modifies this
      ensures Valid() && origin == old(origin) && live == old(live) - {pid}
      ensures reply.Done? ==> DestMatches(dest, job.hash)
      ensures old(DestMatches(dest, job.hash)) ==> reply == Done(false) && dest == old(dest)
      ensures fault.NoFault? && !old(DestMatches(dest, job.hash)) ==>
                reply == Done(true) && dest == Some(Full(job)) && temps == old(temps) - {pid}
    {
      var done := LookAgain(pid);
      if done { return Done(false); }
      reply := Replace(pid, fault);
    }

    /** What `commit_extraction` does when the second look found no matching destination. */
    method Replace(pid: nat, fault: Fault) returns (reply: Reply)
      requires IsHexText(job.hash) && Valid() && !DestMatches(dest, job.hash)
      requires forall q :: q in live && q != pid ==> !live[q].Replacing?
      requires pid in live && live[pid] == if dest.Some? then Replacing else Renaming
      requires fault.AtRemove? ==> PartOf(fault.rest, dest)
      modifies this
      ensures Valid() && origin == old(origin) && live == old(live) - {pid}
      ensures reply.Done? ==> DestMatches(dest, job.hash)
      ensures fault.NoFault? ==> reply == Done(true) && dest == Some(Full(job)) && temps == old(temps) - {pid}
    {
      if dest.Some? {
        if fault.AtRemove? {
          Abandon(pid, if pid in temps then Some(temps[pid]) else None, fault.rest);
          return Failed;
        }
        RemoveDest(pid);
      }
      reply := Finish(pid, fault.AtRename?);
    }

    /** The rename onto a vacant place. */
    method Finish(pid: nat, fails: bool) returns (reply: Reply)
      requires IsHexText(job.hash) && Stands(pid, Renaming) && NoneReplacing(live) && dest.None?
      modifies this
      ensures Valid() && origin == old(origin) && live == old(live) - {pid} && temps == old(temps) - {pid}
      ensures reply == if fails then Failed else Done(true)
      ensures !fails ==> dest == Some(Full(job)) && DestMatches(dest, job.hash)
    {
      ReadyCopy(job, origin, history, Now(), pid);
      reply := MoveIntoPlace(pid, fails);
    }

    /** `Archive::unpack`. */
    method UnpackAll(pid: nat, fault: Fault) returns (ready: bool)
      requires Stands(pid, Unpacking(0))
      modifies this
      ensures Valid() && dest == old(dest) && origin == old(origin) && temps - {pid} == old(temps) - {pid}
      ensures live == if ready then old(live)[pid := Unpacking(|job.archive|)] else old(live) - {pid}
      ensures !fault.AtUnpack? ==> ready
    {
      var n := 0;
      while n < |job.archive|
        invariant n <= |job.archive| && Valid() && dest == old(dest) && origin == old(origin)
        invariant temps - {pid} == old(temps) - {pid} && live == old(live)[pid := Unpacking(n)]
      {
        if fault.AtUnpack? && fault.entry == n {
          Abandon(pid, fault.left, dest);
          return false;
        }
        UnpackEntry(pid, n);
        n := n + 1;
      }
      ready := true;
    }

    /** Unpacking into the temporary directory, and the marker last. */
    method Populate(pid: nat, fault: Fault) returns (ready: bool)
      requires Stands(pid, Clearing)
      modifies this
      ensures Valid() && dest == old(dest) && origin == old(origin) && temps - {pid} == old(temps) - {pid}
      ensures live == if ready then old(live)[pid := Marked] else old(live) - {pid}
      ensures fault.NoFault? || fault.AtRemove? || fault.AtRename? ==> ready
    {
      if fault.AtClear? {
        Abandon(pid, fault.left, dest);
        assert temps - {pid} == old(temps) - {pid};
        return false;
      }
      ClearTemp(pid);
      assert old(live)[pid := Unpacking(0)] - {pid} == old(live) - {pid} && temps - {pid} == old(temps) - {pid};
      ready := UnpackAll(pid, fault);
      if ready { ready := MarkCopy(pid, fault); }
    }

    /** The marker is written last. */
    method MarkCopy(pid: nat, fault: Fault) returns (ready: bool)
      requires Stands(pid, Unpacking(|job.archive|))
      modifies this
      ensures Valid() && dest == old(dest) && origin == old(origin) && temps - {pid} == old(temps) - {pid}
      ensures live == if ready then old(live)[pid := Marked] else old(live) - {pid}
      ensures !fault.AtMark? ==> ready
    {
      if fault.AtMark? {
        Abandon(pid, fault.left, dest);
        assert temps - {pid} == old(temps) - {pid};
        return false;
      }
      WriteMarker(pid);
      assert temps - {pid} == old(temps) - {pid};
      return true;
    }

    /** `ensure_extracted_archive`, beside other runs that stand still but never between their
        own re-check and removal. */
    method EnsureExtracted(pid: nat, fault: Fault) returns (reply: Reply)
      requires IsHexText(job.hash) && Valid() && NoneReplacing(live) && pid !in live
      requires fault.AtRemove? ==> PartOf(fault.rest, dest)
      modifies this
      ensures Valid() && origin == old(origin) && live == old(live)
      ensures reply.Done? ==> DestMatches(dest, job.hash) && Complete(job, dest.value)
      ensures old(DestMatches(dest, job.hash)) ==> reply == Done(false) && dest == old(dest) && temps == old(temps)
      ensures fault.NoFault? && !old(DestMatches(dest, job.hash)) ==>
                reply == Done(true) && dest == Some(Full(job)) && temps == old(temps) - {pid}
    {
      var done := Begin(pid);
      if done {
        reply := Done(false);
      } else {
        var ready := Populate(pid, fault);
        if ready {
          reply := CommitExtraction(pid, fault);
        } else {
          reply := Failed;
        }
      }
      LeadsKeeps(job, origin, history, Now());
    }
  }
}
