/**
 * src/token_manager.rs: any number of tasks operating on one DCR record, interleaved at
 * every lock, read, write, rename, unlink and unlock, with any system call failing and
 * the process crashing at any point.
 */
module DcrStore {
  import opened Wrappers
  import opened DcrRecords

  /** The record file and the fixed temporary file name point at inodes. */
  datatype Disk = Disk(inodes: seq<File>, file: Option<nat>, tmp: Option<nat>)

  /** One committed operation. */
  datatype Entry = Entry(id: int, op: Op)

  /** `history` records what the file held before and after each committed operation. */
  datatype Shared = Shared(disk: Disk, lock: Option<int>, log: seq<Entry>, history: seq<File>)

  datatype Pc =
    | Waiting
    | Holding
    | MustWrite(creds: DcrCredentials, outcome: Outcome)
    | Writing(creds: DcrCredentials, outcome: Outcome)
    | Written(creds: DcrCredentials, outcome: Outcome)
    | MustUnlink(outcome: Outcome)
    | MustRelease(outcome: Outcome)
    | Reading(inode: nat)
    | Finished(outcome: Outcome)

  /** `since` is the length of the log when the task began; `at` is where it took effect. */
  datatype Task = Task(op: Op, pc: Pc, since: nat, at: Option<nat>)

  datatype State = State(shared: Shared, tasks: map<int, Task>)

  datatype Event =
    | Spawn(id: int, op: Op)
    | Step(id: int, fails: bool)
    | Crash

  function Contents(d: Disk): File {
    if d.file.Some? && d.file.value < |d.inodes| then d.inodes[d.file.value] else Absent
  }

  function Commit(s: Shared, id: int, op: Op): Shared
    requires |s.history| > 0
  {
    s.(log := s.log + [Entry(id, op)], history := s.history + [Apply(op, s.history[|s.history| - 1])])
  }

  /** Opens the temporary file for writing, which truncates it. */
  function CreateTmp(d: Disk): Disk {
    if d.tmp.Some? && d.tmp.value < |d.inodes| then d.(inodes := d.inodes[d.tmp.value := Torn])
    else d.(inodes := d.inodes + [Torn], tmp := Some(|d.inodes|))
  }

  function FillTmp(d: Disk, creds: DcrCredentials): Disk {
    if d.tmp.Some? && d.tmp.value < |d.inodes| then d.(inodes := d.inodes[d.tmp.value := Whole(creds)]) else d
  }

  /** What a task holding the lock does once it has read the file. */
  function Decide(s: Shared, id: int, t: Task): (Shared, Task)
    requires |s.history| > 0
  {
    var before := Contents(s.disk);
    var outcome := OutcomeOf(t.op, before);
    var after := Apply(t.op, before);
    if outcome == Failed then (s, t.(pc := MustRelease(Failed)))
    else if t.op.Save? || outcome == Cleared(true) || (t.op.Update? && after.Whole? && after != before)
      then (s, t.(pc := MustWrite(after.creds, outcome)))
    else if t.op.Delete? || (t.op.Update? && after.Absent?) then (s, t.(pc := MustUnlink(outcome)))
    else (Commit(s, id, t.op), t.(pc := MustRelease(outcome), at := Some(|s.log|)))
  }

  function StepLoad(s: Shared, t: Task, fails: bool): Task {
    match t.pc
    case Waiting =>
      if fails then t.(pc := Finished(Failed))
      else if s.disk.file.None? then t.(pc := Finished(Record(None)), at := Some(|s.log|))
      else t.(pc := Reading(s.disk.file.value), at := Some(|s.log|))
    case Reading(inode) =>
      if fails || inode >= |s.disk.inodes| || !s.disk.inodes[inode].Whole? then t.(pc := Finished(Failed), at := None)
      else t.(pc := Finished(Record(Read(s.disk.inodes[inode]))))
    case _ => t
  }

  function StepWriter(s: Shared, id: int, t: Task, fails: bool): (Shared, Task)
    requires |s.history| > 0
  {
    match t.pc
    case Waiting => if s.lock.None? then (s.(lock := Some(id)), t.(pc := Holding)) else (s, t)
    case Holding =>
      if fails && (t.op.Update? || t.op.Clear?) then (s, t.(pc := MustRelease(Failed))) else Decide(s, id, t)
    case MustWrite(creds, outcome) =>
      if fails then (s, t.(pc := MustRelease(Failed)))
      else (s.(disk := CreateTmp(s.disk)), t.(pc := Writing(creds, outcome)))
    case Writing(creds, outcome) =>
      if fails then (s, t.(pc := MustRelease(Failed)))
      else (s.(disk := FillTmp(s.disk, creds)), t.(pc := Written(creds, outcome)))
    case Written(creds, outcome) =>
      if fails then (s, t.(pc := MustRelease(Failed)))
      else (Commit(s, id, t.op).(disk := s.disk.(file := s.disk.tmp, tmp := None)),
        t.(pc := MustRelease(outcome), at := Some(|s.log|)))
    case MustUnlink(outcome) =>
      if fails then (s, t.(pc := MustRelease(Failed)))
      else (Commit(s, id, t.op).(disk := s.disk.(file := None)), t.(pc := MustRelease(outcome), at := Some(|s.log|)))
    case MustRelease(outcome) => (s.(lock := None), t.(pc := Finished(outcome)))
    case _ => (s, t)
  }

  function StepTask(s: Shared, id: int, t: Task, fails: bool): (Shared, Task)
    requires |s.history| > 0
  {
    if t.op.Load? then (s, StepLoad(s, t, fails)) else StepWriter(s, id, t, fails)
  }

  /** A task number is used once. */
  predicate IsFresh(s: State, id: int) {
    id !in s.tasks && forall k :: 0 <= k < |s.shared.log| ==> s.shared.log[k].id != id
  }

  function Next(s: State, e: Event): State
    requires |s.shared.history| > 0
  {
    match e
    case Spawn(id, op) =>
      if IsFresh(s, id) then s.(tasks := s.tasks[id := Task(op, Waiting, |s.shared.log|, None)]) else s
    case Step(id, fails) =>
      if id in s.tasks then
        var (shared, t) := StepTask(s.shared, id, s.tasks[id], fails);
        State(shared, s.tasks[id := t])
      else s
    case Crash => State(s.shared.(lock := None), map[])
  }

  predicate IsWellFormed(d: Disk) {
    && (d.file.Some? ==> d.file.value < |d.inodes|)
    && (d.tmp.Some? ==> d.tmp.value < |d.inodes|)
    && (d.file.Some? ==> d.file != d.tmp)
    && forall i :: 0 <= i < |d.inodes| ==> !d.inodes[i].Absent?
  }

  function Initial(disk: Disk): State {
    State(Shared(disk, None, [], [Contents(disk)]), map[])
  }

  // The invariant

  ghost predicate SharedInv(s: Shared) {
    && IsWellFormed(s.disk)
    && |s.history| == |s.log| + 1
    && Contents(s.disk) == s.history[|s.log|]
    && forall k :: 0 <= k < |s.log| ==> s.history[k + 1] == Apply(s.log[k].op, s.history[k])
  }

  /** The task's operation is in the log exactly where it took effect, or nowhere. */
  ghost predicate IsLoggedAt(s: Shared, id: int, at: Option<nat>) {
    && (at.Some? ==> at.value < |s.log| && s.log[at.value].id == id)
    && forall k :: 0 <= k < |s.log| && s.log[k].id == id ==> at == Some(k)
  }

  /** The operation took effect once, after the task began, and returned what it had to. */
  ghost predicate TookEffect(s: Shared, id: int, t: Task, outcome: Outcome) {
    && t.at.Some? && t.since <= t.at.value < |s.log| && t.at.value < |s.history|
    && s.log[t.at.value] == Entry(id, t.op)
    && outcome == OutcomeOf(t.op, s.history[t.at.value]) && outcome != Failed
  }

  /** The contents a reader returns were the record at some moment since it began. */
  ghost predicate Saw(s: Shared, t: Task, file: File) {
    t.at.Some? && t.since <= t.at.value < |s.history| && file == s.history[t.at.value]
  }

  ghost predicate Pending(s: Shared, t: Task, after: File, outcome: Outcome) {
    t.at.None? && outcome == OutcomeOf(t.op, Contents(s.disk)) && outcome != Failed
      && after == Apply(t.op, Contents(s.disk))
  }

  ghost predicate LoadInv(s: Shared, t: Task) {
    match t.pc
    case Waiting => t.at.None?
    case Reading(inode) => inode < |s.disk.inodes| && s.disk.tmp != Some(inode) && Saw(s, t, s.disk.inodes[inode])
    case Finished(outcome) =>
      if outcome == Failed then t.at.None?
      else outcome.Record? && Saw(s, t, AsFile(outcome.creds))
    case _ => false
  }

  ghost predicate WriterInv(s: Shared, id: int, t: Task) {
    match t.pc
    case Waiting => t.at.None?
    case Holding => t.at.None?
    case MustWrite(creds, outcome) => Pending(s, t, Whole(creds), outcome)
    case Writing(creds, outcome) => Pending(s, t, Whole(creds), outcome) && s.disk.tmp.Some?
    case Written(creds, outcome) =>
      Pending(s, t, Whole(creds), outcome) && s.disk.tmp.Some? && s.disk.tmp.value < |s.disk.inodes|
      && s.disk.inodes[s.disk.tmp.value] == Whole(creds)
    case MustUnlink(outcome) => Pending(s, t, Absent, outcome)
    case MustRelease(outcome) => if outcome == Failed then t.at.None? else TookEffect(s, id, t, outcome)
    case Finished(outcome) => if outcome == Failed then t.at.None? else TookEffect(s, id, t, outcome)
    case Reading(_) => false
  }

  predicate IsCritical(t: Task) {
    !t.op.Load? && !t.pc.Waiting? && !t.pc.Finished?
  }

  ghost predicate TaskInv(s: Shared, id: int, t: Task) {
    && t.since <= |s.log|
    && (IsCritical(t) ==> s.lock == Some(id))
    && IsLoggedAt(s, id, if t.op.Load? then None else t.at)
    && if t.op.Load? then LoadInv(s, t) else WriterInv(s, id, t)
  }

  ghost predicate Inv(s: State) {
    && SharedInv(s.shared)
    && (s.shared.lock.Some? ==> s.shared.lock.value in s.tasks && IsCritical(s.tasks[s.shared.lock.value]))
    && forall id :: id in s.tasks ==> TaskInv(s.shared, id, s.tasks[id])
  }

  // Each step keeps it

  lemma CommitKeepsInv(s: Shared, id: int, t: Task, disk: Disk, outcome: Outcome)
    requires SharedInv(s) && TaskInv(s, id, t) && !t.op.Load? && s.lock == Some(id)
    requires IsWellFormed(disk) && Pending(s, t, Contents(disk), outcome)
    ensures var after := Commit(s, id, t.op).(disk := disk);
            SharedInv(after) && TaskInv(after, id, t.(pc := MustRelease(outcome), at := Some(|s.log|)))
  {
  }

  lemma DecideKeepsInv(s: Shared, id: int, t: Task)
    requires SharedInv(s) && TaskInv(s, id, t) && !t.op.Load? && t.pc.Holding?
    ensures var (after, u) := Decide(s, id, t);
            SharedInv(after) && TaskInv(after, id, u) && IsCritical(u)
  {
    var outcome := OutcomeOf(t.op, Contents(s.disk));
    if outcome != Failed && Apply(t.op, Contents(s.disk)) == Contents(s.disk) {
      CommitKeepsInv(s, id, t, s.disk, outcome);
    }
  }

  /** The steps that touch the temporary file, and the lock. */
  lemma PreparationKeepsInv(s: Shared, id: int, t: Task, fails: bool)
    requires SharedInv(s) && TaskInv(s, id, t) && !t.op.Load?
    requires t.pc.Waiting? || t.pc.MustWrite? || t.pc.Writing?
    ensures var (after, u) := StepWriter(s, id, t, fails);
            SharedInv(after) && TaskInv(after, id, u)
  {
  }

  /** Rename and unlink. */
  lemma PublicationKeepsInv(s: Shared, id: int, t: Task, fails: bool)
    requires SharedInv(s) && TaskInv(s, id, t) && !t.op.Load?
    requires t.pc.Written? || t.pc.MustUnlink?
    ensures var (after, u) := StepWriter(s, id, t, fails);
            SharedInv(after) && TaskInv(after, id, u)
  {
    if !fails {
      var disk := if t.pc.Written? then s.disk.(file := s.disk.tmp, tmp := None) else s.disk.(file := None);
      CommitKeepsInv(s, id, t, disk, t.pc.outcome);
    }
  }

  lemma WriterKeepsInv(s: Shared, id: int, t: Task, fails: bool)
    requires SharedInv(s) && TaskInv(s, id, t) && !t.op.Load?
    ensures var (after, u) := StepWriter(s, id, t, fails);
            SharedInv(after) && TaskInv(after, id, u)
  {
    if t.pc.Holding? {
      DecideKeepsInv(s, id, t);
    } else if t.pc.Written? || t.pc.MustUnlink? {
      PublicationKeepsInv(s, id, t, fails);
    } else if !t.pc.MustRelease? && !t.pc.Finished? {
      PreparationKeepsInv(s, id, t, fails);
    }
  }

  lemma LoadKeepsInv(s: Shared, id: int, t: Task, fails: bool)
    requires SharedInv(s) && TaskInv(s, id, t) && t.op.Load?
    ensures TaskInv(s, id, StepLoad(s, t, fails))
  {
  }

  /** What a step leaves alone: the past, every inode but the temporary one, and the lock of others. */
  ghost predicate Grows(s: Shared, after: Shared, id: int) {
    && s.log <= after.log && s.history <= after.history
    && (forall k :: |s.log| <= k < |after.log| ==> after.log[k].id == id)
    && |s.disk.inodes| <= |after.disk.inodes|
    && (forall i :: 0 <= i < |s.disk.inodes| && s.disk.tmp != Some(i) ==> after.disk.inodes[i] == s.disk.inodes[i])
    && (after.disk.tmp == s.disk.tmp || after.disk.tmp.None? || after.disk.tmp.value >= |s.disk.inodes|)
    && (s.lock.Some? && s.lock != Some(id) ==> after == s)
  }

  lemma UnlessHolderNothingMoves(s: Shared, id: int, t: Task, fails: bool)
    requires |s.history| > 0 && (IsCritical(t) ==> s.lock == Some(id))
    ensures s.lock.Some? && s.lock != Some(id) ==> StepTask(s, id, t, fails).0 == s
  {
  }

  lemma DiskGrows(s: Shared, id: int, t: Task, fails: bool)
    requires |s.history| > 0 && IsWellFormed(s.disk)
    ensures var d := StepTask(s, id, t, fails).0.disk;
            && |s.disk.inodes| <= |d.inodes|
            && (forall i :: 0 <= i < |s.disk.inodes| && s.disk.tmp != Some(i) ==> d.inodes[i] == s.disk.inodes[i])
            && (d.tmp == s.disk.tmp || d.tmp.None? || d.tmp.value >= |s.disk.inodes|)
  {
  }

  lemma LogGrows(s: Shared, id: int, t: Task, fails: bool)
    requires |s.history| > 0
    ensures var after := StepTask(s, id, t, fails).0;
            s.log <= after.log <= s.log + [Entry(id, t.op)] && s.history <= after.history
  {
  }

  lemma StepGrows(s: Shared, id: int, t: Task, fails: bool)
    requires SharedInv(s) && TaskInv(s, id, t)
    ensures Grows(s, StepTask(s, id, t, fails).0, id)
  {
    UnlessHolderNothingMoves(s, id, t, fails);
    DiskGrows(s, id, t, fails);
    LogGrows(s, id, t, fails);
  }

  lemma OthersKeepInv(s: Shared, after: Shared, id: int, other: int, t: Task)
    requires SharedInv(s) && TaskInv(s, other, t) && other != id && Grows(s, after, id)
    ensures TaskInv(after, other, t)
  {
    if after != s {
      assert !IsCritical(t);
    }
  }

  lemma StepKeepsInv(s: State, id: int, fails: bool)
    requires Inv(s) && id in s.tasks
    ensures Inv(Next(s, Step(id, fails)))
  {
    var t := s.tasks[id];
    var (after, u) := StepTask(s.shared, id, t, fails);
    if t.op.Load? { LoadKeepsInv(s.shared, id, t, fails); } else { WriterKeepsInv(s.shared, id, t, fails); }
    StepGrows(s.shared, id, t, fails);
    forall other | other in s.tasks && other != id ensures TaskInv(after, other, s.tasks[other]) {
      OthersKeepInv(s.shared, after, id, other, s.tasks[other]);
    }
    StepKeepsHolder(s.shared, id, t, fails);
  }

  /** The lock is held exactly by the task in its critical section. */
  lemma StepKeepsHolder(s: Shared, id: int, t: Task, fails: bool)
    requires SharedInv(s) && TaskInv(s, id, t) && (s.lock == Some(id) ==> IsCritical(t))
    ensures var (after, u) := StepTask(s, id, t, fails);
            if IsCritical(u) then after.lock == Some(id) else after.lock == if s.lock == Some(id) then None else s.lock
  {
  }

  lemma NextKeepsInv(s: State, e: Event)
    requires Inv(s)
    ensures Inv(Next(s, e))
  {
    match e
    case Step(id, fails) => if id in s.tasks { StepKeepsInv(s, id, fails); }
    case Spawn(id, op) =>
    case Crash =>
  }

  function Run(s: State, events: seq<Event>): (t: State)
    requires Inv(s)
    ensures Inv(t)
    decreases |events|
  {
    if events == [] then s
    else
      NextKeepsInv(s, events[0]);
      Run(Next(s, events[0]), events[1..])
  }

  // Main results, over every run from any files on disk

  function Ops(log: seq<Entry>): (ops: seq<Op>)
    ensures |ops| == |log| && forall i :: 0 <= i < |log| ==> ops[i] == log[i].op
  {
    seq(|log|, i requires 0 <= i < |log| => log[i].op)
  }

  lemma {:induction false} HistoryIsFold(s: Shared, k: nat)
    requires SharedInv(s) && k <= |s.log|
    ensures s.history[k] == Fold(s.history[0], Ops(s.log)[..k])
  {
    if k > 0 {
      HistoryIsFold(s, k - 1);
      assert Ops(s.log)[..k] == Ops(s.log)[..k - 1] + [s.log[k - 1].op];
      FoldSnoc(s.history[0], Ops(s.log)[..k - 1], s.log[k - 1].op);
    }
  }

  lemma NextGrows(s: State, e: Event)
    requires Inv(s)
    ensures s.shared.log <= Next(s, e).shared.log && s.shared.history <= Next(s, e).shared.history
  {
    match e
    case Step(id, fails) => if id in s.tasks { StepGrows(s.shared, id, s.tasks[id], fails); }
    case _ =>
  }

  lemma {:induction false} RunGrows(s: State, events: seq<Event>)
    requires Inv(s)
    ensures s.shared.log <= Run(s, events).shared.log && s.shared.history <= Run(s, events).shared.history
    decreases |events|
  {
    if events != [] {
      NextGrows(s, events[0]);
      NextKeepsInv(s, events[0]);
      RunGrows(Next(s, events[0]), events[1..]);
    }
  }

  lemma {:induction false} RunConcat(s: State, a: seq<Event>, b: seq<Event>)
    requires Inv(s)
    ensures Run(s, a + b) == Run(Run(s, a), b)
    decreases |a|
  {
    if a == [] {
      assert a + b == b;
    } else {
      NextKeepsInv(s, a[0]);
      assert (a + b)[1..] == a[1..] + b;
      RunConcat(Next(s, a[0]), a[1..], b);
    }
  }

  /** The state a run reaches from the files `disk`. */
  function Reached(disk: Disk, events: seq<Event>): (s: State)
    requires IsWellFormed(disk)
    ensures Inv(s)
  {
    Run(Initial(disk), events)
  }

  /** What the record file holds after the first `k` committed operations. */
  function RecordAfter(disk: Disk, s: State, k: nat): File
    requires k <= |s.shared.log|
  {
    Fold(Contents(disk), Ops(s.shared.log)[..k])
  }

  lemma HistoryOfRun(disk: Disk, events: seq<Event>, k: nat)
    requires IsWellFormed(disk) && k <= |Reached(disk, events).shared.log|
    ensures Reached(disk, events).shared.history[k] == RecordAfter(disk, Reached(disk, events), k)
  {
    var s := Reached(disk, events);
    RunGrows(Initial(disk), events);
    assert s.shared.history[0] == Contents(disk);
    HistoryIsFold(s.shared, k);
  }

  /** The record is the sequential fold of the committed operations, in lock order. */
  lemma FileIsFoldOfCommittedOperations(disk: Disk, events: seq<Event>)
    requires IsWellFormed(disk)
    ensures var s := Reached(disk, events); Contents(s.shared.disk) == RecordAfter(disk, s, |s.shared.log|)
    ensures var s := Reached(disk, events); Contents(s.shared.disk) == Fold(Contents(disk), Ops(s.shared.log))
  {
    var s := Reached(disk, events);
    HistoryOfRun(disk, events, |s.shared.log|);
    assert Ops(s.shared.log)[..|s.shared.log|] == Ops(s.shared.log);
  }

  /** An unlocked load that returns a record returns one that was committed since it began. */
  lemma LoadReturnsCommittedRecord(disk: Disk, events: seq<Event>, id: int)
    requires IsWellFormed(disk)
    requires var s := Reached(disk, events);
             id in s.tasks && s.tasks[id].op.Load? && s.tasks[id].pc.Finished? && s.tasks[id].pc.outcome != Failed
    ensures var s := Reached(disk, events);
            exists k :: s.tasks[id].since <= k <= |s.shared.log|
              && s.tasks[id].pc.outcome == OutcomeOf(Load, RecordAfter(disk, s, k))
  {
    var s := Reached(disk, events);
    var t := s.tasks[id];
    assert TaskInv(s.shared, id, t);
    HistoryOfRun(disk, events, t.at.value);
    assert t.pc.outcome == OutcomeOf(Load, RecordAfter(disk, s, t.at.value));
  }

  /**
   * A writer that reports success is in the log once, after it began, and reports what the
   * record before it calls for. One that reports failure is not in the log.
   */
  lemma WriterTakesEffectOnceOrNever(disk: Disk, events: seq<Event>, id: int)
    requires IsWellFormed(disk)
    requires var s := Reached(disk, events); id in s.tasks && !s.tasks[id].op.Load? && s.tasks[id].pc.Finished?
    ensures var s := Reached(disk, events);
            var t := s.tasks[id];
            if t.pc.outcome == Failed then forall k :: 0 <= k < |s.shared.log| ==> s.shared.log[k].id != id
            else exists k ::
              && t.since <= k < |s.shared.log| && s.shared.log[k] == Entry(id, t.op)
              && (forall j :: 0 <= j < |s.shared.log| && s.shared.log[j].id == id ==> j == k)
              && t.pc.outcome == OutcomeOf(t.op, RecordAfter(disk, s, k))
  {
    var s := Reached(disk, events);
    var t := s.tasks[id];
    assert TaskInv(s.shared, id, t);
    if t.pc.outcome != Failed {
      HistoryOfRun(disk, events, t.at.value);
      assert s.shared.log[t.at.value] == Entry(id, t.op);
    }
  }

  /** A crash at any point leaves the record of the last committed operation. */
  lemma CrashKeepsLastCommittedRecord(disk: Disk, events: seq<Event>)
    requires IsWellFormed(disk)
    ensures var s := Reached(disk, events);
            var t := Reached(disk, events + [Crash]);
            && t.tasks == map[] && t.shared.lock.None? && t.shared.log == s.shared.log
            && Contents(t.shared.disk) == Fold(Contents(disk), Ops(s.shared.log))
  {
    var s := Reached(disk, events);
    NextKeepsInv(s, Crash);
    RunConcat(Initial(disk), events, [Crash]);
    assert Run(s, [Crash]) == Run(Next(s, Crash), []);
    FileIsFoldOfCommittedOperations(disk, events);
  }

  /** A half-written temporary file is never seen: a load fails only when a system call does. */
  lemma HalfWrittenRecordIsNeverRead(disk: Disk, events: seq<Event>, id: int)
    requires IsWellFormed(disk) && !Contents(disk).Torn?
    ensures var s := Reached(disk, events);
            && !Contents(s.shared.disk).Torn?
            && (id in s.tasks && s.tasks[id].op.Load? && s.tasks[id].pc.Reading? ==>
                  exists c, k :: Next(s, Step(id, false)).tasks[id].pc == Finished(Record(Some(c)))
                    && s.tasks[id].since <= k <= |s.shared.log| && Whole(c) == RecordAfter(disk, s, k))
  {
    var s := Reached(disk, events);
    FileIsFoldOfCommittedOperations(disk, events);
    FoldIsNeverTorn(Contents(disk), Ops(s.shared.log));
    if id in s.tasks && s.tasks[id].op.Load? && s.tasks[id].pc.Reading? {
      var t := s.tasks[id];
      assert TaskInv(s.shared, id, t);
      HistoryOfRun(disk, events, t.at.value);
      FoldIsNeverTorn(Contents(disk), Ops(s.shared.log)[..t.at.value]);
      var contents := s.shared.disk.inodes[t.pc.inode];
      assert Whole(contents.creds) == RecordAfter(disk, s, t.at.value);
      assert Next(s, Step(id, false)).tasks[id].pc == Finished(Record(Some(contents.creds)));
    }
  }

  // The requesting-client self-heal over a run

  /** Wherever a self-heal committed, it kept all but a matching dynamic registration. */
  lemma SelfHealNeverTouchesManualOrNewerRecords(disk: Disk, events: seq<Event>, k: nat)
    requires IsWellFormed(disk)
    requires var s := Reached(disk, events); k < |s.shared.log| && s.shared.log[k].op.Clear?
    ensures var s := Reached(disk, events);
            var before, after := RecordAfter(disk, s, k), RecordAfter(disk, s, k + 1);
            && (before.Whole? <==> after.Whole?)
            && (before.Whole? ==>
                  && SameResourcePair(before.creds, after.creds)
                  && after.creds.registeredViaDcr == before.creds.registeredViaDcr
                  && (!IsClearable(before.creds, s.shared.log[k].op.expectedClientId) ==> after == before))
  {
    var s := Reached(disk, events);
    HistoryOfRun(disk, events, k);
    HistoryOfRun(disk, events, k + 1);
    ClearTouchesOnlyTheRequestingPair(s.shared.history[k], s.shared.log[k].op.expectedClientId);
  }

  /**
   * Two runs over one record that commit the same resource updates in the same order, and
   * at least one self-heal each, wherever it falls, leave the same record.
   */
  lemma SelfHealOrderDoesNotMatter(disk: Disk, a: seq<Event>, b: seq<Event>, expected: string)
    requires IsWellFormed(disk) && Contents(disk).Whole?
    requires var p, q := Ops(Reached(disk, a).shared.log), Ops(Reached(disk, b).shared.log);
             && IsHealingLog(p, expected) && IsHealingLog(q, expected)
             && UpdatesOf(p) == UpdatesOf(q) && ClearsSomewhere(p) && ClearsSomewhere(q)
    ensures Contents(Reached(disk, a).shared.disk) == Contents(Reached(disk, b).shared.disk)
    ensures var updates := UpdatesOf(Ops(Reached(disk, a).shared.log));
            Contents(Reached(disk, a).shared.disk) == Apply(Clear(expected), Fold(Contents(disk), updates))
  {
    var creds := Contents(disk).creds;
    FileIsFoldOfCommittedOperations(disk, a);
    FileIsFoldOfCommittedOperations(disk, b);
    HealingIsIndependentOfOrder(creds, Ops(Reached(disk, a).shared.log), expected);
    HealingIsIndependentOfOrder(creds, Ops(Reached(disk, b).shared.log), expected);
  }

  // Real time

  lemma BeginsNow(s: State, e: Event, id: int)
    requires |s.shared.history| > 0 && id in Next(s, e).tasks
    ensures Next(s, e).tasks[id].since == if id in s.tasks then s.tasks[id].since else |s.shared.log|
  {
  }

  lemma {:induction false} BeganAfter(s: State, events: seq<Event>, id: int, floor: nat)
    requires Inv(s) && floor <= |s.shared.log| && (id in s.tasks ==> s.tasks[id].since >= floor)
    ensures id in Run(s, events).tasks ==> Run(s, events).tasks[id].since >= floor
    decreases |events|
  {
    if events != [] {
      NextGrows(s, events[0]);
      NextKeepsInv(s, events[0]);
      if id in Next(s, events[0]).tasks { BeginsNow(s, events[0], id); }
      BeganAfter(Next(s, events[0]), events[1..], id, floor);
    }
  }

  /** An operation sees every operation that was committed before it began. */
  lemma LaterOperationsSeeEarlierCommits(disk: Disk, before: seq<Event>, after: seq<Event>, id: int)
    requires IsWellFormed(disk) && id !in Reached(disk, before).tasks
    requires var t := Reached(disk, before + after);
             id in t.tasks && t.tasks[id].pc.Finished? && t.tasks[id].pc.outcome != Failed
    ensures var s, t := Reached(disk, before), Reached(disk, before + after);
            s.shared.log <= t.shared.log && exists k ::
              && |s.shared.log| <= k <= |t.shared.log|
              && t.tasks[id].pc.outcome == OutcomeOf(t.tasks[id].op, RecordAfter(disk, t, k))
  {
    var s := Reached(disk, before);
    RunConcat(Initial(disk), before, after);
    RunGrows(s, after);
    BeganAfter(s, after, id, |s.shared.log|);
    if Reached(disk, before + after).tasks[id].op.Load? {
      LoadReturnsCommittedRecord(disk, before + after, id);
    } else {
      WriterTakesEffectOnceOrNever(disk, before + after, id);
    }
  }
}
