/** The extraction of an embedded archive (panoptikon/src/resources.rs) as a state machine. */
module Extraction {
  // Runs of several processes share one destination; they are interleaved step by step and may be
  // stopped anywhere.

  import opened Prelude
  import Text

  // --- files and markers ---

  /** What reading a file as text gives: its text, or nothing when the bytes are not UTF-8. */
  datatype Content = Readable(text: string) | Unreadable(raw: bytes)

  /** A directory tree, as its files by path. */
  type Tree = map<string, Content>

  datatype Entry = Entry(path: string, content: Content)

  /** The embedded archive and its SHA-256 digest in hex. */
  datatype Job = Job(archive: seq<Entry>, hash: string)

  function Marker(): string { ".panoptikon-extracted" }

  function HashKey(): string { "archive_sha256=" }

  predicate IsHexText(s: string) {
    forall i :: 0 <= i < |s| ==> '0' <= s[i] <= '9' || 'a' <= s[i] <= 'f'
  }

  function MarkerText(hash: string): string {
    HashKey() + hash + "\n"
  }

  predicate SaysHash(line: string, key: string, hash: string) {
    Text.StripPrefix(Text.Trim(line), key) == Some(hash)
  }

  /** `marker_matches`, on the text of the marker. */
  predicate TextMatches(text: string, key: string, hash: string) {
    exists i :: 0 <= i < |Text.Lines(text)| && SaysHash(Text.Lines(text)[i], key, hash)
  }

  predicate Matches(t: Tree, hash: string) {
    Marker() in t && t[Marker()].Readable? && TextMatches(t[Marker()].text, HashKey(), hash)
  }

  predicate DestMatches(dest: Option<Tree>, hash: string) {
    dest.Some? && Matches(dest.value, hash)
  }

  /** Reading a marker back: the text written for one archive names that archive and no other. */
  lemma MarkerNamesItsArchive(hash: string, other: string)
    requires IsHexText(hash)
    ensures TextMatches(MarkerText(hash), HashKey(), other) <==> other == hash
  {
    var key := HashKey();
    assert key[0] == 'a' && key[|key| - 1] == '=' && forall i :: 0 <= i < |key| ==> key[i] != '\n' && key[i] != '\r';
    LineNamesItsArchive(key, hash, other);
  }

  lemma LineNamesItsArchive(key: string, hash: string, other: string)
    requires key != [] && !Text.IsSpace(key[0]) && !Text.IsSpace(key[|key| - 1]) && IsHexText(hash)
    requires forall i :: 0 <= i < |key| ==> key[i] != '\n' && key[i] != '\r'
    ensures TextMatches(key + hash + "\n", key, other) <==> other == hash
  {
    var line := key + hash;
    assert forall i :: 0 <= i < |line| ==> line[i] == (if i < |key| then key[i] else hash[i - |key|]);
    OneMarkerLine(line);
    assert line + [] == line && [] + line == line;
    Text.TrimEndOf(line, []);
    Text.TrimStartOf([], line);
    assert line[|key|..] == hash;
    OnlyLineSays([line], key, hash, other);
  }

  lemma OneMarkerLine(line: string)
    requires line != [] && '\n' !in line && line[|line| - 1] != '\r'
    ensures Text.Lines(line + "\n") == [line]
  {
    Text.CutAtFirst(line, "\n", []);
    assert line + "\n" + [] == line + "\n";
  }

  lemma OnlyLineSays(lines: seq<string>, key: string, hash: string, other: string)
    requires |lines| == 1 && Text.StripPrefix(Text.Trim(lines[0]), key) == Some(hash)
    ensures (exists i :: 0 <= i < |lines| && SaysHash(lines[i], key, other)) <==> other == hash
  {
    if other == hash { assert SaysHash(lines[0], key, other); }
  }

  // --- unpacking ---

  /** What unpacking the entries in order leaves: a later entry overwrites an earlier one. */
  function Unpacked(entries: seq<Entry>): Tree {
    if entries == [] then map[]
    else
      var last := entries[|entries| - 1];
      Unpacked(entries[..|entries| - 1])[last.path := last.content]
  }

  lemma UnpackedNext(entries: seq<Entry>, n: nat)
    requires n < |entries|
    ensures Unpacked(entries[..n + 1]) == Unpacked(entries[..n])[entries[n].path := entries[n].content]
  {
    assert entries[..n + 1][..n] == entries[..n];
  }

  function Full(job: Job): Tree {
    Unpacked(job.archive)[Marker() := Readable(MarkerText(job.hash))]
  }

  /** Every file of the archive is there, with the archive's content. */
  ghost predicate Complete(job: Job, t: Tree) {
    forall p :: p in Unpacked(job.archive) && p != Marker() ==> p in t && t[p] == Unpacked(job.archive)[p]
  }

  lemma FullMatches(job: Job)
    requires IsHexText(job.hash)
    ensures Matches(Full(job), job.hash) && Complete(job, Full(job))
  {
    MarkerNamesItsArchive(job.hash, job.hash);
  }

  // --- the state machine ---

  /** Where a live run stands. `Replacing` and `Renaming` come after the re-check in
      `commit_extraction`. */
  datatype Phase = Clearing | Unpacking(next: nat) | Marked | Replacing | Renaming

  /** The file system and the live runs, by process id. */
  datatype State = State(dest: Option<Tree>, temps: map<nat, Tree>, live: map<nat, Phase>)

  /** How a run answers; `Pending` while it goes on, `Failed` for an error or a killed process. */
  datatype Reply = Pending | Done(extracted: bool) | Failed

  /** One step. `left` is what remains of the temporary directory when the run ends. */
  datatype Event =
    | Begin(pid: nat)
    | Clear(pid: nat)
    | Unpack(pid: nat)
    | Mark(pid: nat)
    | Recheck(pid: nat, left: Option<Tree>)
    | Remove(pid: nat)
    | Rename(pid: nat, moved: bool, left: Option<Tree>)
    | Stop(pid: nat, left: Option<Tree>, rest: Option<Tree>)
    | Sweep(pid: nat)

  datatype Outcome = Outcome(state: State, reply: Reply)

  function Temp(s: State, pid: nat): Tree {
    if pid in s.temps then s.temps[pid] else map[]
  }

  function With(temps: map<nat, Tree>, pid: nat, left: Option<Tree>): map<nat, Tree> {
    match left case None => temps - {pid} case Some(t) => temps[pid := t]
  }

  /** The run is over, leaving `left` of its temporary directory. */
  function Leave(s: State, pid: nat, left: Option<Tree>): State {
    s.(temps := With(s.temps, pid, left), live := s.live - {pid})
  }

  /** What a removal that was cut short can leave. */
  predicate PartOf(rest: Option<Tree>, whole: Option<Tree>) {
    rest.Some? ==> whole.Some? && forall p :: p in rest.value ==> p in whole.value && rest.value[p] == whole.value[p]
  }

  predicate Vacant(dest: Option<Tree>) {
    dest.None? || dest.value == map[]
  }

  /** One step of one process; nothing when the step is not possible. */
  function Next(job: Job, s: State, e: Event): Option<Outcome> {
    var phase := if e.pid in s.live then Some(s.live[e.pid]) else None;
    match e
    case Begin(p) =>
      if phase.Some? then None
      else if DestMatches(s.dest, job.hash) then Some(Outcome(s, Done(false)))
      else Some(Outcome(s.(live := s.live[p := Clearing]), Pending))
    case Clear(p) =>
      if phase != Some(Clearing) then None
      else Some(Outcome(s.(temps := s.temps - {p}, live := s.live[p := Unpacking(0)]), Pending))
    case Unpack(p) =>
      if !(phase.Some? && phase.value.Unpacking? && phase.value.next < |job.archive|) then None
      else
        var entry := job.archive[phase.value.next];
        Some(Outcome(s.(temps := s.temps[p := Temp(s, p)[entry.path := entry.content]],
                        live := s.live[p := Unpacking(phase.value.next + 1)]), Pending))
    case Mark(p) =>
      if phase != Some(Unpacking(|job.archive|)) then None
      else
        Some(Outcome(s.(temps := s.temps[p := Temp(s, p)[Marker() := Readable(MarkerText(job.hash))]],
                        live := s.live[p := Marked]), Pending))
    case Recheck(p, left) =>
      if phase != Some(Marked) then None
      else if s.dest.None? then Some(Outcome(s.(live := s.live[p := Renaming]), Pending))
      else if DestMatches(s.dest, job.hash) then Some(Outcome(Leave(s, p, left), Done(false)))
      else Some(Outcome(s.(live := s.live[p := Replacing]), Pending))
    case Remove(p) =>
      if phase != Some(Replacing) then None
      else Some(Outcome(s.(dest := None, live := s.live[p := Renaming]), Pending))
    case Rename(p, moved, left) =>
      if phase != Some(Renaming) || (moved && !Vacant(s.dest)) then None
      else if moved then Some(Outcome(Leave(s, p, None).(dest := Some(Temp(s, p))), Done(true)))
      else Some(Outcome(Leave(s, p, left), if DestMatches(s.dest, job.hash) then Done(false) else Failed))
    case Stop(p, left, rest) =>
      if phase.None? || !(rest == s.dest || (phase == Some(Replacing) && PartOf(rest, s.dest))) then None
      else Some(Outcome(Leave(s, p, left).(dest := rest), Failed))
    case Sweep(p) =>
      if phase.Some? then None else Some(Outcome(s.(temps := s.temps - {p}), Pending))
  }

  function Execute(job: Job, s: State, es: seq<Event>): Option<State>
    decreases es
  {
    if es == [] then Some(s)
    else match Next(job, s, es[0]) case None => None case Some(o) => Execute(job, o.state, es[1..])
  }

  lemma {:induction false} ExecuteConcat(job: Job, s: State, a: seq<Event>, b: seq<Event>)
    requires Execute(job, s, a).Some?
    ensures Execute(job, s, a + b) == Execute(job, Execute(job, s, a).value, b)
    decreases a
  {
    if a == [] {
      assert a + b == b;
    } else {
      assert (a + b)[1..] == a[1..] + b;
      ExecuteConcat(job, Next(job, s, a[0]).value.state, a[1..], b);
    }
  }

  // --- the invariant ---

  /** What a live run has in its temporary directory. */
  ghost predicate Prepared(job: Job, s: State, pid: nat)
    requires pid in s.live
  {
    match s.live[pid]
    case Clearing => true
    case Unpacking(n) => n <= |job.archive| && Temp(s, pid) == Unpacked(job.archive[..n])
    case _ => Temp(s, pid) == Full(job)
  }

  ghost predicate Inv(job: Job, s: State) {
    && (DestMatches(s.dest, job.hash) ==> Complete(job, s.dest.value))
    && (forall p :: p in s.live ==> Prepared(job, s, p))
    && (forall p :: p in s.live && s.live[p].Replacing? ==> !DestMatches(s.dest, job.hash))
  }

  /** The re-check and the replacement that follows count as one step: no run moves its
      extraction into place while another one is between its re-check and its removal. */
  ghost predicate Orderly(s: State, e: Event) {
    e.Rename? && e.moved ==> forall q :: q in s.live && q != e.pid ==> !s.live[q].Replacing?
  }

  ghost predicate OrderlyRun(job: Job, s: State, es: seq<Event>)
    decreases es
  {
    es == [] || (Orderly(s, es[0]) && Next(job, s, es[0]).Some? && OrderlyRun(job, Next(job, s, es[0]).value.state, es[1..]))
  }

  /** Nothing live, and a destination whose marker can be trusted. */
  ghost predicate Initial(job: Job, s: State) {
    s.live == map[] && (DestMatches(s.dest, job.hash) ==> Complete(job, s.dest.value))
  }

  /** Where the other runs stand does not change. */
  lemma OthersKeep(job: Job, s: State, e: Event, q: nat)
    requires Next(job, s, e).Some? && q != e.pid && q in s.live && Prepared(job, s, q)
    ensures var s' := Next(job, s, e).value.state;
            q in s'.live && s'.live[q] == s.live[q] && Prepared(job, s', q)
  {
  }

  lemma OwnStep(job: Job, s: State, e: Event)
    requires Next(job, s, e).Some? && (e.pid in s.live ==> Prepared(job, s, e.pid))
    ensures var s' := Next(job, s, e).value.state;
            e.pid in s'.live ==> Prepared(job, s', e.pid)
  {
    if e.Unpack? { UnpackedNext(job.archive, s.live[e.pid].next); }
    assert job.archive[..0] == [] && job.archive[..|job.archive|] == job.archive;
  }

  /** Where the destination of a step comes from. */
  lemma DestFrom(job: Job, s: State, e: Event)
    requires Next(job, s, e).Some?
    ensures var dest := Next(job, s, e).value.state.dest;
            || dest == s.dest
            || dest == None
            || (e.Rename? && e.moved && e.pid in s.live && s.live[e.pid].Renaming? && Vacant(s.dest) && dest == Some(Temp(s, e.pid)))
            || (e.Stop? && e.pid in s.live && s.live[e.pid].Replacing? && PartOf(dest, s.dest))
    ensures var dest := Next(job, s, e).value.state.dest;
            dest == None && s.dest != None ==> e.pid in s.live && s.live[e.pid].Replacing?
  {
  }

  lemma PartMatches(part: Option<Tree>, whole: Option<Tree>, hash: string)
    requires PartOf(part, whole) && DestMatches(part, hash)
    ensures DestMatches(whole, hash)
  {
  }

  /** What a step can do to the destination. */
  lemma DestStep(job: Job, s: State, e: Event)
    requires IsHexText(job.hash) && Inv(job, s) && Next(job, s, e).Some?
    ensures var s' := Next(job, s, e).value.state;
            && (DestMatches(s'.dest, job.hash) ==> Complete(job, s'.dest.value))
            && (DestMatches(s'.dest, job.hash) && !DestMatches(s.dest, job.hash) ==> e.Rename? && e.moved)
            && (DestMatches(s.dest, job.hash) ==> s'.dest == s.dest)
  {
    var s' := Next(job, s, e).value.state;
    DestFrom(job, s, e);
    FullMatches(job);
    if e.Stop? && PartOf(s'.dest, s.dest) && DestMatches(s'.dest, job.hash) {
      PartMatches(s'.dest, s.dest, job.hash);
    }
  }

  lemma OrderlyStep(job: Job, s: State, e: Event)
    requires IsHexText(job.hash) && Inv(job, s) && Orderly(s, e) && Next(job, s, e).Some?
    ensures Inv(job, Next(job, s, e).value.state)
  {
    var s' := Next(job, s, e).value.state;
    DestStep(job, s, e);
    forall p | p in s'.live
      ensures Prepared(job, s', p)
      ensures s'.live[p].Replacing? ==> !DestMatches(s'.dest, job.hash)
    {
      if p == e.pid { OwnStep(job, s, e); } else { OthersKeep(job, s, e, p); }
    }
  }

  // --- over whole runs ---

  /** Over any orderly interleaving of runs, each stopped anywhere or not: a marker that matches
      always means the whole archive is there. */
  lemma {:induction false} MarkerMeansComplete(job: Job, s: State, es: seq<Event>)
    requires IsHexText(job.hash) && Inv(job, s) && OrderlyRun(job, s, es)
    ensures Execute(job, s, es).Some? && Inv(job, Execute(job, s, es).value)
    ensures var s' := Execute(job, s, es).value;
            DestMatches(s'.dest, job.hash) ==> Complete(job, s'.dest.value)
    decreases es
  {
    if es != [] {
      OrderlyStep(job, s, es[0]);
      MarkerMeansComplete(job, Next(job, s, es[0]).value.state, es[1..]);
    }
  }

  /** And a destination that matches is never removed and never changed again. */
  lemma {:induction false} MatchingIsForever(job: Job, s: State, es: seq<Event>)
    requires IsHexText(job.hash) && Inv(job, s) && OrderlyRun(job, s, es) && DestMatches(s.dest, job.hash)
    ensures Execute(job, s, es).Some? && Execute(job, s, es).value.dest == s.dest
    decreases es
  {
    if es != [] {
      OrderlyStep(job, s, es[0]);
      DestStep(job, s, es[0]);
      MatchingIsForever(job, Next(job, s, es[0]).value.state, es[1..]);
    }
  }

  lemma InitialIsInvariant(job: Job, s: State)
    requires Initial(job, s)
    ensures Inv(job, s)
  {
  }

  /** A run that answers leaves a destination that matches and is complete, and it says that it
      extracted the archive exactly when it moved its own copy into place. */
  lemma AnswerMeansInstalled(job: Job, s: State, e: Event)
    requires IsHexText(job.hash) && Inv(job, s) && Next(job, s, e).Some?
    ensures var o := Next(job, s, e).value;
            && (o.reply.Done? ==> DestMatches(o.state.dest, job.hash) && Complete(job, o.state.dest.value) && e.pid !in o.state.live)
            && (o.reply == Done(true) <==> e.Rename? && e.moved)
            && (o.reply == Done(false) ==> o.state.dest == s.dest)
  {
    FullMatches(job);
  }

  /** From any starting point the application can find: whatever orderly runs do, a run that
      answers at the end of them leaves the whole archive in place. */
  lemma EveryAnswerIsInstalled(job: Job, s: State, es: seq<Event>, e: Event)
    requires IsHexText(job.hash) && Initial(job, s) && OrderlyRun(job, s, es)
    requires Execute(job, s, es).Some? && Next(job, Execute(job, s, es).value, e).Some?
    requires Next(job, Execute(job, s, es).value, e).value.reply.Done?
    ensures var s' := Next(job, Execute(job, s, es).value, e).value.state;
            DestMatches(s'.dest, job.hash) && Complete(job, s'.dest.value)
  {
    InitialIsInvariant(job, s);
    MarkerMeansComplete(job, s, es);
    AnswerMeansInstalled(job, Execute(job, s, es).value, e);
  }

  // --- why the re-check and the replacement have to be one step ---

  /** A copy that is moved into place can be removed again by the very next step exactly when
      the move was not orderly: when another run was between its re-check and its removal. */
  lemma CommitIsSafeExactlyWhenOrderly(job: Job, s: State, e: Event)
    requires IsHexText(job.hash) && Inv(job, s) && e.Rename? && e.moved && Next(job, s, e).Some?
    ensures var s' := Next(job, s, e).value.state;
            DestMatches(s'.dest, job.hash)
            && (Orderly(s, e) <==>
                forall e' :: Next(job, s', e').Some? ==> Next(job, s', e').value.state.dest == s'.dest)
  {
    FullMatches(job);
    var s' := Next(job, s, e).value.state;
    if Orderly(s, e) {
      OrderlyStep(job, s, e);
      forall e' | Next(job, s', e').Some? ensures Next(job, s', e').value.state.dest == s'.dest {
        DestStep(job, s', e');
      }
    } else {
      var q :| q in s.live && q != e.pid && s.live[q].Replacing?;
      OthersKeep(job, s, e, q);
      assert Next(job, s', Remove(q)).value.state.dest == None;
    }
  }

  /** Cut short, such a removal even leaves a marker that matches beside an incomplete copy. */
  lemma DisorderLeavesAFalseMarker(job: Job, s: State, e: Event, q: nat, lost: string)
    requires IsHexText(job.hash) && Inv(job, s) && e.Rename? && e.moved && Next(job, s, e).Some?
    requires q in s.live && q != e.pid && s.live[q].Replacing?
    requires lost in Unpacked(job.archive) && lost != Marker()
    ensures var s' := Next(job, s, e).value.state;
            var cut := Stop(q, None, Some(Full(job) - {lost}));
            Next(job, s', cut).Some?
            && var dest := Next(job, s', cut).value.state.dest;
               DestMatches(dest, job.hash) && !Complete(job, dest.value)
  {
    FullMatches(job);
    OthersKeep(job, s, e, q);
    var s' := Next(job, s, e).value.state;
    assert s'.dest == Some(Full(job)) && s'.live[q].Replacing?;
    CutCopy(job, lost);
  }

  lemma CutCopy(job: Job, lost: string)
    requires IsHexText(job.hash) && lost in Unpacked(job.archive) && lost != Marker()
    ensures var cut := Full(job) - {lost};
            PartOf(Some(cut), Some(Full(job))) && DestMatches(Some(cut), job.hash) && !Complete(job, cut)
  {
    FullMatches(job);
  }

  lemma OneMore(job: Job, s: State, e: Event, t: State, es: seq<Event>)
    requires Next(job, s, e) == Some(Outcome(t, Pending)) && Orderly(s, e) && OrderlyRun(job, t, es)
    ensures OrderlyRun(job, s, [e] + es) && Execute(job, s, [e] + es) == Execute(job, t, es)
  {
    assert ([e] + es)[1..] == es;
  }

  lemma {:induction false} OrderlyConcat(job: Job, s: State, a: seq<Event>, b: seq<Event>)
    requires OrderlyRun(job, s, a) && Execute(job, s, a).Some? && OrderlyRun(job, Execute(job, s, a).value, b)
    ensures OrderlyRun(job, s, a + b) && Execute(job, s, a + b) == Execute(job, Execute(job, s, a).value, b)
    decreases a
  {
    if a == [] {
      assert a + b == b;
    } else {
      assert (a + b)[1..] == a[1..] + b;
      OrderlyConcat(job, Next(job, s, a[0]).value.state, a[1..], b);
    }
  }

  /** A run that is unpacking can go on until its copy carries the marker. */
  lemma {:induction false} UnpackToTheEnd(job: Job, s: State, pid: nat) returns (es: seq<Event>)
    requires pid in s.live && s.live[pid].Unpacking? && s.live[pid].next <= |job.archive|
    ensures OrderlyRun(job, s, es) && Execute(job, s, es).Some?
    ensures var t := Execute(job, s, es).value; t.dest == s.dest && t.live == s.live[pid := Marked]
    decreases |job.archive| - s.live[pid].next
  {
    var n := s.live[pid].next;
    var e := if n == |job.archive| then Mark(pid) else Unpack(pid);
    var t := Next(job, s, e).value.state;
    es := [];
    if n < |job.archive| { es := UnpackToTheEnd(job, t, pid); }
    OneMore(job, s, e, t, es);
    assert s.live[pid := Unpacking(n + 1)][pid := Marked] == s.live[pid := Marked];
    es := [e] + es;
  }

  /** And so can a run that has not begun. */
  lemma PrepareCopy(job: Job, s: State, pid: nat) returns (es: seq<Event>)
    requires pid !in s.live && !DestMatches(s.dest, job.hash)
    ensures OrderlyRun(job, s, es) && Execute(job, s, es).Some?
    ensures var t := Execute(job, s, es).value; t.dest == s.dest && t.live == s.live[pid := Marked]
  {
    var t := Next(job, s, Begin(pid)).value.state;
    var u := Next(job, t, Clear(pid)).value.state;
    es := UnpackToTheEnd(job, u, pid);
    OneMore(job, t, Clear(pid), u, es);
    OneMore(job, s, Begin(pid), t, [Clear(pid)] + es);
    assert s.live[pid := Clearing][pid := Unpacking(0)][pid := Marked] == s.live[pid := Marked];
    es := [Begin(pid)] + ([Clear(pid)] + es);
  }

  /** Two runs over a stale destination reach such a state, whatever the archive: both pass the
      re-check before either has removed anything. */
  lemma DisorderIsReachable(job: Job, stale: Tree, p: nat, q: nat) returns (es: seq<Event>)
    requires !Matches(stale, job.hash) && p != q
    ensures var s := State(Some(stale), map[], map[]);
            Initial(job, s) && OrderlyRun(job, s, es) && Execute(job, s, es).Some?
            && var s' := Execute(job, s, es).value;
               Next(job, s', Rename(p, true, None)).Some? && !Orderly(s', Rename(p, true, None))
  {
    var s := State(Some(stale), map[], map[]);
    var first := PrepareCopy(job, s, p);
    var t := Execute(job, s, first).value;
    var second := PrepareCopy(job, t, q);
    var u := Execute(job, t, second).value;
    OrderlyConcat(job, s, first, second);
    var v := Next(job, u, Recheck(p, None)).value.state;
    var w := Next(job, v, Recheck(q, None)).value.state;
    var x := Next(job, w, Remove(p)).value.state;
    OneMore(job, w, Remove(p), x, []);
    OneMore(job, v, Recheck(q, None), w, [Remove(p)]);
    OneMore(job, u, Recheck(p, None), v, [Recheck(q, None)] + [Remove(p)]);
    es := (first + second) + ([Recheck(p, None)] + ([Recheck(q, None)] + [Remove(p)]));
    OrderlyConcat(job, s, first + second, [Recheck(p, None)] + ([Recheck(q, None)] + [Remove(p)]));
    assert x.live[q].Replacing?;
  }

  /** Two runs about to move their copies to a vacant place: one succeeds and says so; the other
      cannot any more, finds the archive installed, and says that it extracted nothing. A rename
      that fails over a vacant place is an error. */
  lemma RaceIsAnswered(job: Job, s: State, p: nat, q: nat, left: Option<Tree>)
    requires IsHexText(job.hash) && Inv(job, s) && p != q && s.dest.None?
    requires p in s.live && s.live[p].Renaming? && q in s.live && s.live[q].Renaming?
    ensures Next(job, s, Rename(p, false, left)).Some? && Next(job, s, Rename(p, false, left)).value.reply == Failed
    ensures var won := Next(job, s, Rename(q, true, None));
            && won.Some? && won.value.reply == Done(true) && won.value.state.dest == Some(Full(job))
            && Next(job, won.value.state, Rename(p, true, None)).None?
            && var lost := Next(job, won.value.state, Rename(p, false, left));
               lost.Some? && lost.value.reply == Done(false) && lost.value.state.dest == Some(Full(job))
  {
    assert Prepared(job, s, q);
    var t := Next(job, s, Rename(q, true, None)).value.state;
    assert t.dest == Some(Full(job)) && t.live == s.live - {q};
    LateRename(job, t, p, left);
  }

  lemma LateRename(job: Job, t: State, p: nat, left: Option<Tree>)
    requires IsHexText(job.hash) && t.dest == Some(Full(job)) && p in t.live && t.live[p].Renaming?
    ensures Next(job, t, Rename(p, true, None)).None?
    ensures var lost := Next(job, t, Rename(p, false, left));
            lost.Some? && lost.value.reply == Done(false) && lost.value.state.dest == t.dest
  {
    FullMatches(job);
    assert Marker() in Full(job) && Full(job) != map[];
    assert !Vacant(t.dest) && DestMatches(t.dest, job.hash);
  }

  /** The marker as it is written. */
  lemma MarkerIsWritten(hash: string)
    ensures MarkerText(hash) == "archive_sha256=" + (hash + "\n") && Marker() == ".panoptikon-extracted"
  {
  }
}
