/**
 * Any number of `passwd-append` processes racing on one database file.
 *
 * A process opens the file, takes the exclusive lock, reads the bytes, scans what it read and appends,
 * one system call at a time; between two of its steps every other process may take any number of
 * theirs. A process may also fail at any call, or die at any moment, dropping the lock if it holds it.
 */
module PasswdRaces {
  import opened Bytes
  import opened PasswdEntry
  import opened PasswdDatabase

  type Pid = nat

  datatype End = Reported(outcome: Outcome) | Failed | Died

  datatype Phase =
    | Started
    | FileOpen
    | Locked
    | HasRead(snapshot: Text)
    | Written
    | Ended(end: End)

  /**
   * `log` is a history variable: who wrote, in order. The safety theorem ties it to the bytes of the
   * file, so it is what the file says and not a second opinion.
   */
  datatype System = System(file: Text, lock: Option<Pid>, phases: map<Pid, Phase>, log: seq<Pid>)

  type Jobs = map<Pid, Entry>

  ghost predicate GoodJobs(jobs: Jobs) {
    forall p | p in jobs :: Accepted(jobs[p])
  }

  ghost predicate Init(jobs: Jobs, s: System) {
    && s.lock == None
    && s.log == []
    && s.phases.Keys == jobs.Keys
    && forall p | p in s.phases :: s.phases[p] == Started
  }

  function Move(s: System, p: Pid, phase: Phase): System {
    s.(phases := s.phases[p := phase])
  }

  /** The file is closed, so the lock goes if `p` held it. */
  function Stop(s: System, p: Pid, end: End): System {
    Move(s, p, Ended(end)).(lock := if s.lock == Some(p) then None else s.lock)
  }

  function Outcomes(scan: Scan): Outcome
    requires scan != Absent
  {
    match scan
    case Present(owner) => AlreadyPresent(owner)
    case Conflict(detail) => ConflictsWith(detail)
  }

  /** One system call of process `p`, or its death. */
  ghost predicate Step(jobs: Jobs, s: System, s': System, p: Pid)
    requires p in s.phases && p in jobs
  {
    match s.phases[p]
    case Started =>
      s' == Move(s, p, FileOpen) || s' == Stop(s, p, Reported(NotWritable)) || Gone(s, s', p)
    case FileOpen =>
      (s.lock == None && s' == Move(s, p, Locked).(lock := Some(p))) || Gone(s, s', p)
    case Locked =>
      s' == Move(s, p, HasRead(s.file)) || Gone(s, s', p)
    case HasRead(snapshot) =>
      var scan := ScanFor(jobs[p], snapshot);
      || Gone(s, s', p)
      || (scan != Absent && s' == Stop(s, p, Reported(Outcomes(scan))))
      || (scan == Absent && s' == Append(jobs, s, p, snapshot))
    case Written =>
      s' == Stop(s, p, Reported(Appended)) || s' == Stop(s, p, Died)
    case Ended(_) => false
  }

  ghost predicate Gone(s: System, s': System, p: Pid) {
    s' == Stop(s, p, Failed) || s' == Stop(s, p, Died)
  }

  /** The write itself: the buffer was built from the snapshot, the bytes go to the end of the file. */
  function Append(jobs: Jobs, s: System, p: Pid, snapshot: Text): System
    requires p in jobs
  {
    Move(s, p, Written).(file := s.file + Addition(snapshot, Line(jobs[p])), log := s.log + [p])
  }

  ghost predicate Next(jobs: Jobs, s: System, s': System) {
    exists p | p in s.phases && p in jobs :: Step(jobs, s, s', p)
  }

  ghost predicate IsRun(jobs: Jobs, run: seq<System>) {
    && |run| > 0
    && Init(jobs, run[0])
    && forall i | 0 <= i < |run| - 1 :: NextAt(jobs, run, i)
  }

  ghost predicate NextAt(jobs: Jobs, run: seq<System>, i: nat)
    requires i + 1 < |run|
  {
    Next(jobs, run[i], run[i + 1])
  }

  // ----- what every step keeps

  predicate Holds(phase: Phase) {
    phase == Locked || phase.HasRead? || phase == Written
  }

  /** At most one process is between its lock and its close, and what it read is still the file. */
  ghost predicate Exclusive(jobs: Jobs, s: System) {
    && s.phases.Keys == jobs.Keys
    && (forall p | p in s.phases :: Holds(s.phases[p]) <==> s.lock == Some(p))
    && (forall p | p in s.phases && s.phases[p].HasRead? :: s.phases[p].snapshot == s.file)
  }

  lemma ExclusiveStep(jobs: Jobs, s: System, s': System, p: Pid)
    requires Exclusive(jobs, s) && p in s.phases && Step(jobs, s, s', p)
    ensures Exclusive(jobs, s')
  {
    forall q | q in s'.phases
      ensures Holds(s'.phases[q]) <==> s'.lock == Some(q)
      ensures s'.phases[q].HasRead? ==> s'.phases[q].snapshot == s'.file
    {
      if q != p {
        assert s'.phases[q] == s.phases[q];
      }
    }
  }

  /** The records the log stands for. */
  ghost function Printed(jobs: Jobs, log: seq<Pid>): (rs: seq<Record>)
    requires forall i | 0 <= i < |log| :: log[i] in jobs
    ensures |rs| == |log|
    ensures forall i | 0 <= i < |log| :: rs[i] == PrintedFields(jobs[log[i]])
  {
    if log == [] then [] else Printed(jobs, log[..|log| - 1]) + [PrintedFields(jobs[log[|log| - 1]])]
  }

  /** The file is the initial bytes and then, record by record, what the log says. */
  ghost predicate Faithful(jobs: Jobs, initial: Text, s: System) {
    && (forall i | 0 <= i < |s.log| :: s.log[i] in jobs)
    && initial <= s.file
    && Records(s.file) == Records(initial) + Printed(jobs, s.log)
    && (forall i | 0 <= i < |s.log| :: IdentityFree(Records(initial), jobs[s.log[i]]))
    && (forall i, j | 0 <= i < j < |s.log| ::
          jobs[s.log[i]].uid != jobs[s.log[j]].uid && jobs[s.log[i]].name != jobs[s.log[j]].name)
  }

  ghost predicate IdentityFree(rs: seq<Record>, e: Entry) {
    forall i | 0 <= i < |rs| :: !HasId(rs[i], e.uid) && !HasName(rs[i], e.name)
  }

  lemma AppendIsFresh(jobs: Jobs, initial: Text, s: System, e: Entry)
    requires Faithful(jobs, initial, s)
    requires ScanFor(e, s.file) == Absent
    ensures IdentityFree(Records(initial), e)
    ensures forall i | 0 <= i < |s.log| :: jobs[s.log[i]].uid != e.uid && jobs[s.log[i]].name != e.name
  {
    ScanVerdict(e, s.file);
    var before := Records(initial);
    var all := Records(s.file);
    forall i | 0 <= i < |before|
      ensures !HasId(before[i], e.uid) && !HasName(before[i], e.name)
    {
      assert all[i] == before[i];
    }
    forall i | 0 <= i < |s.log|
      ensures jobs[s.log[i]].uid != e.uid && jobs[s.log[i]].name != e.name
    {
      assert all[|before| + i] == PrintedFields(jobs[s.log[i]]);
      PrintedIdentity(jobs[s.log[i]]);
    }
  }

  lemma PrintedSnoc(jobs: Jobs, log: seq<Pid>, p: Pid)
    requires p in jobs && forall i | 0 <= i < |log| :: log[i] in jobs
    ensures Printed(jobs, log + [p]) == Printed(jobs, log) + [PrintedFields(jobs[p])]
  {
  }

  lemma FaithfulAppend(jobs: Jobs, initial: Text, s: System, p: Pid)
    requires GoodJobs(jobs) && p in jobs
    requires Faithful(jobs, initial, s)
    requires ScanFor(jobs[p], s.file) == Absent
    ensures Faithful(jobs, initial, Append(jobs, s, p, s.file))
  {
    var s' := Append(jobs, s, p, s.file);
    AppendIsFresh(jobs, initial, s, jobs[p]);
    RecordsAfterAppend(s.file, jobs[p]);
    PrintedSnoc(jobs, s.log, p);
    assert Records(s'.file) == Records(initial) + Printed(jobs, s'.log);
  }

  /** Reports are truthful: whoever reports an append is in the log, and nobody is there twice. */
  ghost predicate Truthful(s: System) {
    && (forall p | p in s.phases :: s.phases[p] in {Written, Ended(Reported(Appended))} ==> p in s.log)
    && (forall i | 0 <= i < |s.log| ::
          s.log[i] in s.phases && (s.phases[s.log[i]] == Written || s.phases[s.log[i]].Ended?))
  }

  /** Only the write under the lock touches the file, and it appends to what was read. */
  lemma StepWrites(jobs: Jobs, s: System, s': System, p: Pid)
    requires p in s.phases && p in jobs && Step(jobs, s, s', p)
    requires Exclusive(jobs, s)
    ensures || (s'.file == s.file && s'.log == s.log)
            || (ScanFor(jobs[p], s.file) == Absent && s' == Append(jobs, s, p, s.file))
  {
  }

  lemma FaithfulStep(jobs: Jobs, initial: Text, s: System, s': System, p: Pid)
    requires GoodJobs(jobs) && p in jobs && Faithful(jobs, initial, s)
    requires || (s'.file == s.file && s'.log == s.log)
             || (ScanFor(jobs[p], s.file) == Absent && s' == Append(jobs, s, p, s.file))
    ensures Faithful(jobs, initial, s')
    ensures s.file <= s'.file
  {
    if !(s'.file == s.file && s'.log == s.log) {
      FaithfulAppend(jobs, initial, s, p);
    }
  }

  lemma InvariantStep(jobs: Jobs, initial: Text, s: System, s': System, p: Pid)
    requires GoodJobs(jobs) && p in s.phases && p in jobs && Step(jobs, s, s', p)
    requires Exclusive(jobs, s) && Faithful(jobs, initial, s) && Truthful(s)
    ensures Exclusive(jobs, s') && Faithful(jobs, initial, s') && Truthful(s')
    ensures s.file <= s'.file
  {
    StepWrites(jobs, s, s', p);
    ExclusiveStep(jobs, s, s', p);
    TruthfulStep(jobs, s, s', p);
    FaithfulStep(jobs, initial, s, s', p);
  }

  lemma TruthfulStep(jobs: Jobs, s: System, s': System, p: Pid)
    requires p in s.phases && p in jobs && Step(jobs, s, s', p)
    requires Truthful(s)
    ensures Truthful(s')
  {
    assert forall q | q in s.phases && q != p :: s'.phases[q] == s.phases[q];
    assert s.log <= s'.log;
  }

  lemma InvariantNext(jobs: Jobs, initial: Text, s: System, s': System)
    requires GoodJobs(jobs) && Next(jobs, s, s')
    requires Exclusive(jobs, s) && Faithful(jobs, initial, s) && Truthful(s)
    ensures Exclusive(jobs, s') && Faithful(jobs, initial, s') && Truthful(s')
    ensures s.file <= s'.file
  {
    var p :| p in s.phases && p in jobs && Step(jobs, s, s', p);
    InvariantStep(jobs, initial, s, s', p);
  }

  lemma {:induction false} RunKeepsInvariants(jobs: Jobs, run: seq<System>, k: nat)
    requires GoodJobs(jobs) && IsRun(jobs, run) && k < |run|
    ensures Exclusive(jobs, run[k]) && Faithful(jobs, run[0].file, run[k]) && Truthful(run[k])
    ensures k > 0 ==> run[k - 1].file <= run[k].file
  {
    if k == 0 {
      assert Records(run[0].file) + [] == Records(run[0].file);
    } else {
      RunKeepsInvariants(jobs, run, k - 1);
      assert NextAt(jobs, run, k - 1);
      InvariantNext(jobs, run[0].file, run[k - 1], run[k]);
    }
  }

  // ----- the theorems

  lemma FileGrows(jobs: Jobs, run: seq<System>, k: nat)
    requires GoodJobs(jobs) && IsRun(jobs, run) && k + 1 < |run|
    ensures run[k].file <= run[k + 1].file
  {
    RunKeepsInvariants(jobs, run, k + 1);
  }

  lemma PrefixThrough(a: Text, b: Text, c: Text)
    requires a <= b <= c
    ensures a <= c
  {
  }

  /** No byte ever changes once it is in the file. */
  lemma {:induction false} BytesNeverChange(jobs: Jobs, run: seq<System>, i: nat, j: nat)
    requires GoodJobs(jobs) && IsRun(jobs, run) && i <= j < |run|
    ensures run[i].file <= run[j].file
  {
    if i < j {
      BytesNeverChange(jobs, run, i, j - 1);
      FileGrows(jobs, run, j - 1);
      PrefixThrough(run[i].file, run[j - 1].file, run[j].file);
    }
  }

  /**
   * In every interleaving, the file holds its initial records and then one record per writer; no
   * writer reuses an id or a name, neither of the initial file nor of another writer.
   */
  lemma AppendedIdentitiesAreDistinct(jobs: Jobs, run: seq<System>, k: nat)
    requires GoodJobs(jobs) && IsRun(jobs, run) && k < |run|
    ensures forall i | 0 <= i < |run[k].log| :: run[k].log[i] in jobs
    ensures Records(run[k].file) == Records(run[0].file) + Printed(jobs, run[k].log)
    ensures forall i | 0 <= i < |run[k].log| :: IdentityFree(Records(run[0].file), jobs[run[k].log[i]])
    ensures forall i, j | 0 <= i < j < |run[k].log| ::
              && jobs[run[k].log[i]].uid != jobs[run[k].log[j]].uid
              && jobs[run[k].log[i]].name != jobs[run[k].log[j]].name
  {
    RunKeepsInvariants(jobs, run, k);
  }

  lemma LoggedIdentities(jobs: Jobs, initial: Text, s: System, p: Pid, q: Pid)
    requires Faithful(jobs, initial, s)
    requires p in s.log && q in s.log && p != q
    ensures p in jobs && q in jobs
    ensures jobs[p].uid != jobs[q].uid && jobs[p].name != jobs[q].name
  {
  }

  /** At most one process per id, and one per name, reports that it appended. */
  lemma OneReportPerIdentity(jobs: Jobs, run: seq<System>, k: nat, p: Pid, q: Pid)
    requires GoodJobs(jobs) && IsRun(jobs, run) && k < |run|
    requires p in run[k].phases && run[k].phases[p] == Ended(Reported(Appended))
    requires q in run[k].phases && run[k].phases[q] == Ended(Reported(Appended))
    requires p != q
    ensures p in jobs && q in jobs
    ensures jobs[p].uid != jobs[q].uid && jobs[p].name != jobs[q].name
  {
    RunKeepsInvariants(jobs, run, k);
    LoggedIdentities(jobs, run[0].file, run[k], p, q);
  }

  lemma LoggedEntryIsOnlyMatch(jobs: Jobs, initial: Text, s: System, i: nat, m: nat)
    requires Faithful(jobs, initial, s)
    requires i < |s.log| && m < |Records(s.file)| && m != |Records(initial)| + i
    ensures !HasId(Records(s.file)[m], jobs[s.log[i]].uid)
    ensures !HasName(Records(s.file)[m], jobs[s.log[i]].name)
  {
    var n := |Records(initial)|;
    if m < n {
      assert Records(s.file)[m] == Records(initial)[m];
    } else {
      assert Records(s.file)[m] == PrintedFields(jobs[s.log[m - n]]);
      PrintedIdentity(jobs[s.log[m - n]]);
    }
  }

  lemma LoggedEntryResolves(jobs: Jobs, initial: Text, s: System, i: nat)
    requires Faithful(jobs, initial, s) && i < |s.log|
    ensures PasswdNameForUid(s.file, jobs[s.log[i]].uid) == Some(jobs[s.log[i]].name)
    ensures PasswdUidForName(s.file, jobs[s.log[i]].name) == Some(OwnerUid(jobs[s.log[i]].uid))
  {
    var rs := Records(s.file);
    var e := jobs[s.log[i]];
    forall m | 0 <= m < |rs| && m != |Records(initial)| + i
      ensures !HasId(rs[m], e.uid) && !HasName(rs[m], e.name)
    {
      LoggedEntryIsOnlyMatch(jobs, initial, s, i, m);
    }
    PrintedIdentity(e);
    assert rs[|Records(initial)| + i] == PrintedFields(e);
    OnlyMatchResolves(s.file, |Records(initial)| + i, e);
  }

  lemma OnlyMatchResolves(file: Text, n: nat, e: Entry)
    requires n < |Records(file)| && Records(file)[n] == PrintedFields(e)
    requires forall m | 0 <= m < |Records(file)| && m != n ::
               !HasId(Records(file)[m], e.uid) && !HasName(Records(file)[m], e.name)
    ensures PasswdNameForUid(file, e.uid) == Some(e.name)
    ensures PasswdUidForName(file, e.name) == Some(OwnerUid(e.uid))
  {
    PrintedIdentity(e);
    OnlyMatch(Records(file), n, e);
  }

  /** Whoever reported an append can be looked up from then on, both ways. */
  lemma ReportedEntriesResolve(jobs: Jobs, run: seq<System>, k: nat, p: Pid)
    requires GoodJobs(jobs) && IsRun(jobs, run) && k < |run|
    requires p in run[k].phases && run[k].phases[p] == Ended(Reported(Appended))
    ensures p in jobs
    ensures PasswdNameForUid(run[k].file, jobs[p].uid) == Some(jobs[p].name)
    ensures PasswdUidForName(run[k].file, jobs[p].name) == Some(OwnerUid(jobs[p].uid))
  {
    RunKeepsInvariants(jobs, run, k);
    var i :| 0 <= i < |run[k].log| && run[k].log[i] == p;
    LoggedEntryResolves(jobs, run[0].file, run[k], i);
  }

  // ----- what the other reports are worth

  /**
   * A reason not to append stays one: the owner reported for an id owns it from then on, and a name
   * reported as taken stays taken, by the record the report was about.
   */
  ghost predicate Lasting(e: Entry, file: Text, outcome: Outcome) {
    match outcome
    case AlreadyPresent(owner) => PasswdNameForUid(file, e.uid) == Some(owner)
    case ConflictsWith(detail) =>
      var f := NameRecord(Records(file), e.name);
      f.Some? && detail == TakenBy(e, f.value)
    case _ => true
  }

  /** How a conflict names the id a record gives its name: a passwd scan prints the number it read. */
  function TakenBy(e: Entry, f: Record): Text {
    var number := Number(IdField(f));
    if e.Passwd? && number.Some? then Decimal(number.value) else IdField(f)
  }

  ghost predicate ReportsLast(jobs: Jobs, s: System) {
    forall p | p in s.phases && p in jobs && s.phases[p].Ended? && s.phases[p].end.Reported? ::
      Lasting(jobs[p], s.file, s.phases[p].end.outcome)
  }

  lemma LastingAtFirst(e: Entry, file: Text)
    requires ScanFor(e, file) != Absent
    ensures Lasting(e, file, Outcomes(ScanFor(e, file)))
  {
  }

  /** A record more at the end changes no answer that was already given. */
  lemma LastingThroughAppend(e: Entry, file: Text, other: Entry, outcome: Outcome)
    requires Accepted(other) && Lasting(e, file, outcome)
    ensures Lasting(e, file + Addition(file, Line(other)), outcome)
  {
    RecordsAfterAppend(file, other);
    IdOwnerSnoc(Records(file), PrintedFields(other), e.uid);
    NameRecordSnoc(Records(file), PrintedFields(other), e.name);
  }

  lemma ReportsLastStep(jobs: Jobs, s: System, s': System, p: Pid)
    requires GoodJobs(jobs) && Exclusive(jobs, s) && p in s.phases && p in jobs && Step(jobs, s, s', p)
    requires ReportsLast(jobs, s)
    ensures ReportsLast(jobs, s')
  {
    forall q | q in s'.phases && q in jobs && s'.phases[q].Ended? && s'.phases[q].end.Reported?
      ensures Lasting(jobs[q], s'.file, s'.phases[q].end.outcome)
    {
      StepWrites(jobs, s, s', p);
      if q != p {
        assert s'.phases[q] == s.phases[q];
        if s'.file != s.file {
          LastingThroughAppend(jobs[q], s.file, jobs[p], s.phases[q].end.outcome);
        }
      } else if s.phases[p].HasRead? {
        LastingAtFirst(jobs[p], s.file);
      }
    }
  }

  lemma ReportsLastNext(jobs: Jobs, s: System, s': System)
    requires GoodJobs(jobs) && Exclusive(jobs, s) && Next(jobs, s, s') && ReportsLast(jobs, s)
    ensures ReportsLast(jobs, s')
  {
    var p :| p in s.phases && p in jobs && Step(jobs, s, s', p);
    ReportsLastStep(jobs, s, s', p);
  }

  lemma RunStaysExclusive(jobs: Jobs, run: seq<System>, k: nat)
    requires GoodJobs(jobs) && IsRun(jobs, run) && k < |run|
    ensures Exclusive(jobs, run[k])
  {
    RunKeepsInvariants(jobs, run, k);
  }

  lemma {:induction false} RunKeepsReports(jobs: Jobs, run: seq<System>, k: nat)
    requires GoodJobs(jobs) && IsRun(jobs, run) && k < |run|
    ensures ReportsLast(jobs, run[k])
  {
    if k > 0 {
      RunKeepsReports(jobs, run, k - 1);
      RunStaysExclusive(jobs, run, k - 1);
      assert NextAt(jobs, run, k - 1);
      ReportsLastNext(jobs, run[k - 1], run[k]);
    }
  }

  /** In every run and from the report on: an id reported present has that owner, a name reported taken is taken. */
  lemma RefusalsStayTrue(jobs: Jobs, run: seq<System>, k: nat, p: Pid)
    requires GoodJobs(jobs) && IsRun(jobs, run) && k < |run|
    requires p in run[k].phases && p in jobs && run[k].phases[p].Ended? && run[k].phases[p].end.Reported?
    ensures Lasting(jobs[p], run[k].file, run[k].phases[p].end.outcome)
  {
    RunKeepsReports(jobs, run, k);
  }

  // ----- and nobody is kept from finishing

  /** What a process left alone makes of the file `s` holds. */
  ghost predicate Finished(jobs: Jobs, s: System, s': System, p: Pid)
    requires p in jobs && p in s.phases
  {
    var scan := ScanFor(jobs[p], s.file);
    && s'.lock == None && s'.phases.Keys == s.phases.Keys
    && (forall q | q in s.phases && q != p :: s'.phases[q] == s.phases[q])
    && p in s'.phases
    && (scan == Absent ==>
          && s'.phases[p] == Ended(Reported(Appended))
          && s'.file == s.file + Addition(s.file, Line(jobs[p])) && s'.log == s.log + [p])
    && (scan.Present? ==> s'.phases[p] == Ended(Reported(AlreadyPresent(scan.owner))))
    && (scan.Conflict? ==> s'.phases[p] == Ended(Reported(ConflictsWith(scan.detail))))
    && (scan != Absent ==> s'.file == s.file && s'.log == s.log)
  }

  /** A stretch of a run in which only `p` moves. */
  ghost predicate Alone(jobs: Jobs, steps: seq<System>, p: Pid) {
    |steps| > 0 && p in jobs && forall i | 0 <= i < |steps| - 1 :: AloneAt(jobs, steps, p, i)
  }

  ghost predicate AloneAt(jobs: Jobs, steps: seq<System>, p: Pid, i: nat)
    requires i + 1 < |steps| && p in jobs
  {
    p in steps[i].phases && Step(jobs, steps[i], steps[i + 1], p)
  }

  lemma AloneSnoc(jobs: Jobs, steps: seq<System>, p: Pid, next: System)
    requires Alone(jobs, steps, p)
    requires p in steps[|steps| - 1].phases && Step(jobs, steps[|steps| - 1], next, p)
    ensures Alone(jobs, steps + [next], p)
  {
    forall i | 0 <= i < |steps|
      ensures AloneAt(jobs, steps + [next], p, i)
    {
      if i < |steps| - 1 {
        assert AloneAt(jobs, steps, p, i);
      }
    }
  }

  lemma AloneItReads(jobs: Jobs, s: System, p: Pid) returns (steps: seq<System>)
    requires p in jobs && p in s.phases && s.phases[p] == Started && s.lock == None
    ensures Alone(jobs, steps, p) && steps[0] == s
    ensures steps[|steps| - 1] == Move(s, p, HasRead(s.file)).(lock := Some(p))
  {
    var fileOpen := Move(s, p, FileOpen);
    var locked := Move(fileOpen, p, Locked).(lock := Some(p));
    var read := Move(locked, p, HasRead(s.file));
    steps := [s];
    AloneSnoc(jobs, steps, p, fileOpen);
    steps := steps + [fileOpen];
    AloneSnoc(jobs, steps, p, locked);
    steps := steps + [locked];
    AloneSnoc(jobs, steps, p, read);
    steps := steps + [read];
    assert read.phases == s.phases[p := HasRead(s.file)];
  }

  /**
   * While the lock is free, a process that has not begun can run to its end on its own steps, and then
   * does what the append of one process does: the model allows every outcome it is about.
   */
  lemma AloneItFinishes(jobs: Jobs, s: System, p: Pid) returns (steps: seq<System>)
    requires p in jobs && p in s.phases && s.phases[p] == Started && s.lock == None
    ensures Alone(jobs, steps, p) && steps[0] == s
    ensures Finished(jobs, s, steps[|steps| - 1], p)
  {
    steps := AloneItReads(jobs, s, p);
    var read := steps[|steps| - 1];
    var scan := ScanFor(jobs[p], s.file);
    if scan == Absent {
      var written := Append(jobs, read, p, s.file);
      AloneSnoc(jobs, steps, p, written);
      AloneSnoc(jobs, steps + [written], p, Stop(written, p, Reported(Appended)));
      steps := steps + [written] + [Stop(written, p, Reported(Appended))];
    } else {
      AloneSnoc(jobs, steps, p, Stop(read, p, Reported(Outcomes(scan))));
      steps := steps + [Stop(read, p, Reported(Outcomes(scan)))];
    }
  }

  lemma {:induction false} OnlyMatch(rs: seq<Record>, n: nat, e: Entry)
    requires n < |rs|
    requires |rs[n]| > 2 && rs[n][0] == e.name && Number(rs[n][2]) == Some(e.uid)
    requires forall m | 0 <= m < |rs| && m != n :: !HasId(rs[m], e.uid) && !HasName(rs[m], e.name)
    ensures IdOwner(rs, e.uid) == Some(e.name)
    ensures NameRecord(rs, e.name) == Some(rs[n])
  {
    if n > 0 {
      assert !HasId(rs[0], e.uid) && !HasName(rs[0], e.name);
      OnlyMatch(rs[1..], n - 1, e);
    }
  }
}
