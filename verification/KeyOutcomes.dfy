/**
 How a process of the key election ends: what its own calls in the run say about whether it returns
 a key, which one, or throws, and what it leaves on disk.
 */
module KeyOutcomes {
  import opened Wrappers
  import opened KeyElection

  // ---- What a call of the run means for the process that makes it

  /** The next call reads the key file. */
  predicate Reads(pc: Pc) {
    pc.FirstRead? || pc.BusyRead? || pc.FinalRead? || pc.LateRead? || pc.LockedRead?
  }

  /** The call reads a valid file that holds `key`. */
  predicate Finds(s: System, p: Pid, e: Event, key: nat) {
    Reads(PcOf(s, p)) && e.Success? && s.file == Key(key)
  }

  /** The call renames the freshly minted `key` into place. */
  predicate Publishes(s: System, p: Pid, e: Event, key: nat) {
    PcOf(s, p).Rename? && e.Success? && PcOf(s, p).minted == key
  }

  predicate FailsRename(s: System, p: Pid, e: Event) {
    PcOf(s, p).Rename? && e.Failure?
  }

  /**
   The call is one that makes the process throw: a create refused for another reason than that the
   lock exists, the last read of all without a key, a failed write or chmod, or a failed rename that
   is not worth repeating or is the fifth.
   */
  predicate Fails(s: System, p: Pid, e: Event, renames: nat) {
    match PcOf(s, p)
    case TryLock(_) => e.Failure? && e.code != EEXIST
    case LastTry => e.Failure? && e.code != EEXIST
    case LateRead => e.Failure? || (e.Success? && !s.file.Key?)
    case WriteTemp(_) => e.Failure?
    case Chmod(_) => e.Failure?
    case Rename(_, _) => e.Failure? && ((e.code != EACCES && e.code != EBUSY && e.code != EPERM) || renames == 4)
    case _ => false
  }

  /** An exclusive create that is refused because the lock exists. */
  predicate FindsLock(s: System, p: Pid, e: Event) {
    (PcOf(s, p).TryLock? || PcOf(s, p).LastTry?) && ((e.Success? && s.lock.Some?) || (e.Failure? && e.code == EEXIST))
  }

  /** The temporary file cannot be removed and has not been renamed away. */
  predicate KeepsTemp(s: System, p: Pid, e: Event) {
    PcOf(s, p).RemoveTemp? && !PcOf(s, p).renamed && e.Failure?
  }

  // ---- The same over a run

  function FailedRenames(s: System, schedule: Schedule, p: Pid): nat {
    if schedule == [] then 0
    else
      var m := |schedule| - 1;
      FailedRenames(s, schedule[..m], p) +
      if schedule[m].0 == p && FailsRename(Run(s, schedule[..m]), p, schedule[m].1) then 1 else 0
  }

  function RefusedCreates(s: System, schedule: Schedule, p: Pid): nat {
    if schedule == [] then 0
    else
      var m := |schedule| - 1;
      RefusedCreates(s, schedule[..m], p) +
      if schedule[m].0 == p && FindsLock(Run(s, schedule[..m]), p, schedule[m].1) then 1 else 0
  }

  predicate FindsAt(s: System, schedule: Schedule, i: nat, p: Pid, key: nat)
    requires i < |schedule|
  {
    schedule[i].0 == p && Finds(Run(s, schedule[..i]), p, schedule[i].1, key)
  }

  predicate PublishesAt(s: System, schedule: Schedule, i: nat, p: Pid, key: nat)
    requires i < |schedule|
  {
    schedule[i].0 == p && Publishes(Run(s, schedule[..i]), p, schedule[i].1, key)
  }

  predicate FailsAt(s: System, schedule: Schedule, i: nat, p: Pid)
    requires i < |schedule|
  {
    schedule[i].0 == p &&
    Fails(Run(s, schedule[..i]), p, schedule[i].1, FailedRenames(s, schedule[..i], p))
  }

  predicate DiesAt(s: System, schedule: Schedule, i: nat, p: Pid)
    requires i < |schedule|
  {
    schedule[i].0 == p && schedule[i].1.Die? && !Exited(PcOf(Run(s, schedule[..i]), p))
  }

  predicate KeepsTempAt(s: System, schedule: Schedule, i: nat, p: Pid)
    requires i < |schedule|
  {
    schedule[i].0 == p && KeepsTemp(Run(s, schedule[..i]), p, schedule[i].1)
  }

  ghost predicate HasFound(s: System, schedule: Schedule, p: Pid, key: nat) {
    exists i: nat :: i < |schedule| && (FindsAt(s, schedule, i, p, key) || PublishesAt(s, schedule, i, p, key))
  }

  ghost predicate HasFailed(s: System, schedule: Schedule, p: Pid) {
    exists i: nat :: i < |schedule| && FailsAt(s, schedule, i, p)
  }

  ghost predicate HasDied(s: System, schedule: Schedule, p: Pid) {
    exists i: nat :: i < |schedule| && DiesAt(s, schedule, i, p)
  }

  ghost predicate HasKeptTemp(s: System, schedule: Schedule, p: Pid) {
    exists i: nat :: i < |schedule| && KeepsTempAt(s, schedule, i, p)
  }

  /** What the longer run has is what the shorter one had, or what the last call adds. */
  lemma LastCall(s: System, schedule: Schedule, p: Pid, key: nat)
    requires schedule != []
    ensures var m := |schedule| - 1;
            var before, r := schedule[..m], Run(s, schedule[..m]);
            var mine, e := schedule[m].0 == p, schedule[m].1;
            && (HasFound(s, schedule, p, key) <==>
                  HasFound(s, before, p, key) || (mine && (Finds(r, p, e, key) || Publishes(r, p, e, key))))
            && (HasFailed(s, schedule, p) <==>
                  HasFailed(s, before, p) || (mine && Fails(r, p, e, FailedRenames(s, before, p))))
            && (HasDied(s, schedule, p) <==> HasDied(s, before, p) || (mine && e.Die? && !Exited(PcOf(r, p))))
            && (HasKeptTemp(s, schedule, p) <==> HasKeptTemp(s, before, p) || (mine && KeepsTemp(r, p, e)))
  {
    hide Run, Finds, Publishes, Fails, KeepsTemp, FailedRenames, Exited;
    var m := |schedule| - 1;
    var before := schedule[..m];
    forall i: nat | i < m
      ensures FindsAt(s, before, i, p, key) == FindsAt(s, schedule, i, p, key)
      ensures PublishesAt(s, before, i, p, key) == PublishesAt(s, schedule, i, p, key)
      ensures FailsAt(s, before, i, p) == FailsAt(s, schedule, i, p)
      ensures DiesAt(s, before, i, p) == DiesAt(s, schedule, i, p)
      ensures KeepsTempAt(s, before, i, p) == KeepsTempAt(s, schedule, i, p)
    {
      assert before[..i] == schedule[..i];
    }
    assert FindsAt(s, schedule, m, p, key) || PublishesAt(s, schedule, m, p, key) ==> HasFound(s, schedule, p, key);
    assert FailsAt(s, schedule, m, p) ==> HasFailed(s, schedule, p);
    assert DiesAt(s, schedule, m, p) ==> HasDied(s, schedule, p);
    assert KeepsTempAt(s, schedule, m, p) ==> HasKeptTemp(s, schedule, p);
  }

  // ---- Where the calls lead

  /** The process will throw when it has cleaned up, or has thrown. */
  predicate Doomed(pc: Pc) {
    match pc
    case RemoveTemp(_, renamed) => !renamed
    case CloseLock(selected) => selected.None?
    case Unlink(selected) => selected.None?
    case Threw => true
    case _ => false
  }

  /** How often the lock has been found, and the rename has failed, when a process is at `pc`. */
  predicate CountsAre(pc: Pc, creates: nat, renames: nat) {
    && creates <= 51
    && renames <= 5
    && (pc.FirstRead? ==> creates == 0)
    && (pc.TryLock? ==> creates == pc.attempt < 50)
    && (pc.BusyRead? ==> creates == pc.attempt + 1 <= 50)
    && (pc.FinalRead? || pc.LastTry? ==> creates == 50)
    && (pc.LateRead? ==> creates == 51)
    && (if pc.Rename? then renames == pc.attempt < 5
        else pc.RemoveTemp? || pc.CloseLock? || pc.Unlink? || Exited(pc) || renames == 0)
  }

  lemma StepCounts(s: System, p: Pid, e: Event, creates: nat, renames: nat)
    requires CountsAre(PcOf(s, p), creates, renames)
    ensures CountsAre(PcOf(Step(s, p, e), p), creates + if FindsLock(s, p, e) then 1 else 0,
                      renames + if FailsRename(s, p, e) then 1 else 0)
  {
  }

  /** A process gives up waiting after exactly 50 refused creates, and renaming after exactly five failures. */
  lemma {:induction false} AttemptsAreCounted(file: Content, schedule: Schedule, p: Pid)
    ensures var s := Initial(file);
            CountsAre(PcOf(Run(s, schedule), p), RefusedCreates(s, schedule, p), FailedRenames(s, schedule, p))
  {
    if schedule != [] {
      var m := |schedule| - 1;
      var s := Initial(file);
      AttemptsAreCounted(file, schedule[..m], p);
      hide CountsAre, Step;
      var r, e := Run(s, schedule[..m]), schedule[m].1;
      if schedule[m].0 == p {
        StepCounts(r, p, e, RefusedCreates(s, schedule[..m], p), FailedRenames(s, schedule[..m], p));
      } else {
        EachCallCounts(r, schedule[m].0, e, p);
      }
    }
  }

  lemma StepDooms(s: System, p: Pid, e: Event, renames: nat)
    requires PcOf(s, p).Rename? ==> renames == PcOf(s, p).attempt < 5
    ensures PcOf(Step(s, p, e), p) == Died <==> PcOf(s, p) == Died || (e.Die? && !Exited(PcOf(s, p)))
    ensures !PcOf(Step(s, p, e), p).Died? ==>
              (Doomed(PcOf(Step(s, p, e), p)) <==> Doomed(PcOf(s, p)) || Fails(s, p, e, renames))
  {
  }

  lemma StepSettles(s: System, p: Pid, e: Event, key: nat)
    requires !PcOf(Step(s, p, e), p).Died?
    ensures Settled(PcOf(Step(s, p, e), p)) == Some(key) <==>
            Settled(PcOf(s, p)) == Some(key) || Finds(s, p, e, key) || Publishes(s, p, e, key)
  {
  }

  /** In every run, what a process that has not died is about to return, or that it will throw, is in its own calls. */
  lemma {:induction false} CallsDecide(file: Content, schedule: Schedule, p: Pid, key: nat)
    ensures var s := Initial(file);
            var pc := PcOf(Run(s, schedule), p);
            && (pc == Died <==> HasDied(s, schedule, p))
            && (pc != Died ==> (Doomed(pc) <==> HasFailed(s, schedule, p)))
            && (pc != Died ==> (Settled(pc) == Some(key) <==> HasFound(s, schedule, p, key)))
  {
    if schedule != [] {
      var m := |schedule| - 1;
      var s := Initial(file);
      var r, e := Run(s, schedule[..m]), schedule[m].1;
      CallsDecide(file, schedule[..m], p, key);
      AttemptsAreCounted(file, schedule[..m], p);
      LastCall(s, schedule, p, key);
      hide Step, HasFound, HasFailed, HasDied, HasKeptTemp, Finds, Publishes, Fails, KeepsTemp, Doomed, Settled;
      if schedule[m].0 == p {
        StepDooms(r, p, e, FailedRenames(s, schedule[..m], p));
        if PcOf(Step(r, p, e), p) != Died { StepSettles(r, p, e, key); }
      } else {
        EachCallCounts(r, schedule[m].0, e, p);
      }
    }
  }

  /**
   How every run ends for a process.  It has died exactly when one of its calls was its last.  If it
   has exited otherwise, it has thrown exactly when one of its calls failed in a way that makes it
   throw, and has returned a key exactly when it read that key or renamed it into place.
   */
  lemma OutcomeIff(file: Content, schedule: Schedule, p: Pid, key: nat)
    ensures var s := Initial(file);
            var pc := PcOf(Run(s, schedule), p);
            && (pc == Died <==> HasDied(s, schedule, p))
            && (pc == Threw <==> Exited(pc) && !HasDied(s, schedule, p) && HasFailed(s, schedule, p))
            && (pc == Returned(key) <==> Exited(pc) && !HasDied(s, schedule, p) && HasFound(s, schedule, p, key))
  {
    hide Run, HasFound, HasFailed, HasDied;
    CallsDecide(file, schedule, p, key);
  }

  /** How many renames of the run have succeeded. */
  function Replacements(s: System, schedule: Schedule): nat {
    if schedule == [] then 0
    else
      var m := |schedule| - 1;
      var r, p := Run(s, schedule[..m]), schedule[m].0;
      Replacements(s, schedule[..m]) + if PcOf(r, p).Rename? && schedule[m].1.Success? then 1 else 0
  }

  /** The file counts as replaced once for each rename that succeeds. */
  lemma {:induction false} ReplacedIsCounted(file: Content, schedule: Schedule)
    ensures Run(Initial(file), schedule).replaced == Replacements(Initial(file), schedule)
  {
    if schedule != [] {
      var m := |schedule| - 1;
      var s, p := Run(Initial(file), schedule[..m]), schedule[m].0;
      ReplacedIsCounted(file, schedule[..m]);
      RunKeepsInvariant(Initial(file), schedule[..m]);
      assert LockOk(s, p);
      hide Step, LockOk;
      StepReplaces(s, p, schedule[m].1);
    }
  }

  lemma StepReplaces(s: System, p: Pid, e: Event)
    requires LockOk(s, p)
    ensures Step(s, p, e).replaced == s.replaced + if PcOf(s, p).Rename? && e.Success? then 1 else 0
  {
  }

  /** A process that has failed, or settled on a key, has at most three calls left to make. */
  lemma FewCallsLeft(file: Content, schedule: Schedule, p: Pid, key: nat)
    requires var s := Initial(file); HasFailed(s, schedule, p) || HasFound(s, schedule, p, key)
    ensures var s := Initial(file); HasDied(s, schedule, p) || CallsLeft(PcOf(Run(s, schedule), p)) <= 3
  {
    hide Run, HasFound, HasFailed, HasDied;
    CallsDecide(file, schedule, p, key);
  }

  /** Each of the reads without the lock that finds a key makes the process return it at once, for good. */
  lemma ReadReturns(s: System, schedule: Schedule, i: nat, p: Pid, key: nat)
    requires i < |schedule| && FindsAt(s, schedule, i, p, key)
    requires !PcOf(Run(s, schedule[..i]), p).LockedRead?
    ensures PcOf(Run(s, schedule), p) == Returned(key)
  {
    assert schedule[..i + 1][..i] == schedule[..i];
    assert PcOf(Run(s, schedule[..i + 1]), p) == Returned(key);
    HandedOutStays(s, schedule, i + 1, p);
  }

  lemma ThreeCalls(s: System, p: Pid, key: nat)
    requires PcOf(s, p).LockedRead? && s.file == Key(key)
    ensures var t := Step(Step(Step(s, p, Success(0)), p, Success(0)), p, Success(0));
            PcOf(t, p) == Returned(key) && t.lock.None? && t.file == Key(key) && OthersStay(s, t, p)
  {
    var a := Step(s, p, Success(0));
    var b := Step(a, p, Success(0));
    assert PcOf(a, p) == CloseLock(Some(key)) && PcOf(b, p) == Unlink(Some(key));
    StepMovesOne(s, p, Success(0));
    StepMovesOne(a, p, Success(0));
    StepMovesOne(b, p, Success(0));
  }

  /** A process under the lock that reads a key closes and removes the lock and returns the key. */
  lemma FindUnderLock(s: System, schedule: Schedule, p: Pid, key: nat) returns (longer: Schedule)
    requires PcOf(Run(s, schedule), p).LockedRead? && Run(s, schedule).file == Key(key)
    ensures longer == schedule + [(p, Success(0)), (p, Success(0)), (p, Success(0))]
    ensures var t := Run(s, longer); PcOf(t, p) == Returned(key) && t.lock.None? && t.file == Key(key)
    ensures OthersStay(Run(s, schedule), Run(s, longer), p)
  {
    var call := (p, Success(0));
    longer := schedule + [call, call, call];
    var r := Run(s, schedule);
    Extend(s, schedule, p, Success(0));
    Extend(s, schedule + [call], p, Success(0));
    Extend(s, schedule + [call] + [call], p, Success(0));
    assert schedule + [call] + [call] + [call] == longer;
    ThreeCalls(r, p, key);
  }

  /** The first read of a valid file fails, all later calls succeed: the key in the file is returned. */
  lemma LateFindIsReturned() returns (schedule: Schedule)
    ensures forall i :: 0 < i < |schedule| ==> schedule[i] == (0, Success(0))
    ensures |schedule| == 5 && schedule[0] == (0, Failure(EBUSY, 8))
    ensures var t := Run(Initial(Key(7)), schedule); PcOf(t, 0) == Returned(7) && t.file == Key(7) && t.lock.None?
  {
    var s := Initial(Key(7));
    var first, second := (0, Failure(EBUSY, 8)), (0, Success(0));
    RunOfTwo(s, first, second);
    assert Step(s, 0, first.1).procs == map[0 := TryLock(0)];
    assert Step(Step(s, 0, first.1), 0, Success(0)).procs == map[0 := LockedRead];
    hide Step, Run;
    schedule := FindUnderLock(s, [first, second], 0, 7);
  }

  // ---- What is left on disk

  /** Behind the removal a process has a temporary file exactly when it could not remove one it had not renamed. */
  predicate TempOk(s: System, p: Pid, kept: bool) {
    match PcOf(s, p)
    case CloseLock(_) => p in s.temps <==> kept
    case Unlink(_) => p in s.temps <==> kept
    case Returned(_) => p in s.temps <==> kept
    case Threw => p in s.temps <==> kept
    case Died => true
    case Chmod(_) => !kept
    case Rename(_, _) => !kept
    case RemoveTemp(_, renamed) => !kept && (renamed ==> p !in s.temps) && (!renamed ==> p in s.temps)
    case _ => !kept && p !in s.temps
  }

  lemma StepKeepsTempOk(s: System, p: Pid, e: Event, kept: bool)
    requires TempOk(s, p, kept) && LockOk(s, p)
    ensures TempOk(Step(s, p, e), p, kept || KeepsTemp(s, p, e))
  {
  }

  lemma OthersKeepTempOk(s: System, p: Pid, e: Event, q: Pid, kept: bool)
    requires p != q && TempOk(s, q, kept)
    ensures TempOk(Step(s, p, e), q, kept)
  {
    assert PcOf(Step(s, p, e), q) == PcOf(s, q);
    assert q in Step(s, p, e).temps <==> q in s.temps;
  }

  lemma {:induction false} TempsAreOk(file: Content, schedule: Schedule, p: Pid)
    ensures TempOk(Run(Initial(file), schedule), p, HasKeptTemp(Initial(file), schedule, p))
  {
    if schedule != [] {
      var m := |schedule| - 1;
      var s := Initial(file);
      var r, e := Run(s, schedule[..m]), schedule[m].1;
      TempsAreOk(file, schedule[..m], p);
      LastCall(s, schedule, p, 0);
      RunKeepsInvariant(s, schedule[..m]);
      assert LockOk(r, p);
      hide Step, HasFound, HasFailed, HasDied, HasKeptTemp, KeepsTemp, Fails, TempOk, LockOk;
      if schedule[m].0 == p {
        StepKeepsTempOk(r, p, e, HasKeptTemp(s, schedule[..m], p));
      } else {
        OthersKeepTempOk(r, schedule[m].0, e, p, HasKeptTemp(s, schedule[..m], p));
      }
    }
  }

  /** A process that has returned or thrown leaves a temporary file exactly when removing it failed. */
  lemma TempIsLeftIff(file: Content, schedule: Schedule, p: Pid)
    requires var pc := PcOf(Run(Initial(file), schedule), p); pc.Returned? || pc.Threw?
    ensures p in Run(Initial(file), schedule).temps <==> HasKeptTemp(Initial(file), schedule, p)
  {
    hide Run, HasKeptTemp;
    TempsAreOk(file, schedule, p);
  }

  // ---- The order of the calls

  datatype Call = ReadKeyFile | CreateLock | WriteFile | ChangeMode | RenameFile | RemoveFile | CloseFile | UnlinkLock

  function CallAt(pc: Pc): seq<Call> {
    match pc
    case TryLock(_) => [CreateLock]
    case LastTry => [CreateLock]
    case WriteTemp(_) => [WriteFile]
    case Chmod(_) => [ChangeMode]
    case Rename(_, _) => [RenameFile]
    case RemoveTemp(_, _) => [RemoveFile]
    case CloseLock(_) => [CloseFile]
    case Unlink(_) => [UnlinkLock]
    case Returned(_) => []
    case Threw => []
    case Died => []
    case _ => [ReadKeyFile]
  }

  /** The calls a process has made in a run, in order. */
  function CallsMade(s: System, schedule: Schedule, p: Pid): seq<Call> {
    if schedule == [] then []
    else
      var m := |schedule| - 1;
      CallsMade(s, schedule[..m], p) +
      if schedule[m].0 == p && !schedule[m].1.Die? then CallAt(PcOf(Run(s, schedule[..m]), p)) else []
  }

  /** The first read, and `n` times a create that is refused and a read. */
  function Waiting(n: nat): seq<Call> {
    if n == 0 then [ReadKeyFile] else Waiting(n - 1) + [CreateLock, ReadKeyFile]
  }

  function Renaming(n: nat): seq<Call> {
    if n == 0 then [] else Renaming(n - 1) + [RenameFile]
  }

  /** The calls up to and with the create that succeeds: one of the first 50, or the one after a last look. */
  ghost predicate IsEntry(calls: seq<Call>) {
    || calls == Waiting(50) + [ReadKeyFile, CreateLock]
    || exists n: nat :: n < 50 && calls == Waiting(n) + [CreateLock]
  }

  /** The calls that mint a key, up to the one that fails, or to the rename that succeeds. */
  ghost predicate IsMinting(calls: seq<Call>, renamed: bool) {
    || (!renamed && calls == [ReadKeyFile, WriteFile])
    || (!renamed && calls == [ReadKeyFile, WriteFile, ChangeMode])
    || exists n: nat :: 1 <= n <= 5 && calls == [ReadKeyFile, WriteFile, ChangeMode] + Renaming(n)
  }

  /** The calls under the lock up to its release, of a process that will return a key or not. */
  ghost predicate IsInside(calls: seq<Call>, withKey: bool) {
    || (withKey && calls == [ReadKeyFile])
    || exists minting :: IsMinting(minting, withKey) && calls == minting + [RemoveFile]
  }

  /** What a process at `pc` has called since it took the lock. */
  ghost predicate InsideAt(pc: Pc, calls: seq<Call>) {
    match pc
    case LockedRead => calls == []
    case WriteTemp(_) => calls == [ReadKeyFile]
    case Chmod(_) => calls == [ReadKeyFile, WriteFile]
    case Rename(_, attempt) => attempt < 5 && calls == [ReadKeyFile, WriteFile, ChangeMode] + Renaming(attempt)
    case RemoveTemp(_, renamed) => IsMinting(calls, renamed)
    case CloseLock(selected) => IsInside(calls, selected.Some?)
    case Unlink(selected) => exists inside :: IsInside(inside, selected.Some?) && calls == inside + [CloseFile]
    case _ => false
  }

  /** The calls of a process that has left without dying: without the lock, or through it. */
  ghost predicate IsWhole(calls: seq<Call>, withKey: bool) {
    || (withKey && exists n: nat :: n <= 50 && calls == Waiting(n))
    || (!withKey && exists n: nat :: n < 50 && calls == Waiting(n) + [CreateLock])
    || (withKey && calls == Waiting(50) + [ReadKeyFile])
    || (!withKey && calls == Waiting(50) + [ReadKeyFile, CreateLock])
    || calls == Waiting(50) + [ReadKeyFile, CreateLock, ReadKeyFile]
    || exists entry, inside ::
         IsEntry(entry) && IsInside(inside, withKey) && calls == entry + inside + [CloseFile, UnlinkLock]
  }

  /** The calls of a process under the lock: how it took the lock, and what it did there. */
  ghost predicate AreParts(pc: Pc, calls: seq<Call>, entry: seq<Call>, inside: seq<Call>) {
    IsEntry(entry) && InsideAt(pc, inside) && calls == entry + inside
  }

  ghost predicate CallsAre(pc: Pc, calls: seq<Call>) {
    match pc
    case FirstRead => calls == []
    case TryLock(attempt) => attempt < 50 && calls == Waiting(attempt)
    case BusyRead(attempt) => attempt < 50 && calls == Waiting(attempt) + [CreateLock]
    case FinalRead => calls == Waiting(50)
    case LastTry => calls == Waiting(50) + [ReadKeyFile]
    case LateRead => calls == Waiting(50) + [ReadKeyFile, CreateLock]
    case Returned(_) => IsWhole(calls, true)
    case Threw => IsWhole(calls, false)
    case Died => true
    case _ => exists entry, inside :: AreParts(pc, calls, entry, inside)
  }

  lemma WithoutLock(n: nat, withKey: bool)
    ensures n <= 50 ==> IsWhole(Waiting(n), true)
    ensures n < 50 ==> IsWhole(Waiting(n) + [CreateLock], false)
    ensures IsWhole(Waiting(50) + [ReadKeyFile], true)
    ensures IsWhole(Waiting(50) + [ReadKeyFile, CreateLock], false)
    ensures IsWhole(Waiting(50) + [ReadKeyFile, CreateLock, ReadKeyFile], withKey)
  {
    hide Waiting, IsEntry, IsInside;
  }

  lemma Longer(calls: seq<Call>)
    ensures calls + [ReadKeyFile] + [CreateLock] == calls + [ReadKeyFile, CreateLock]
    ensures calls + [ReadKeyFile, CreateLock] + [ReadKeyFile] == calls + [ReadKeyFile, CreateLock, ReadKeyFile]
    ensures calls + [CreateLock] + [ReadKeyFile] == calls + [CreateLock, ReadKeyFile]
    ensures [] + [ReadKeyFile] == [ReadKeyFile]
  {
  }

  /** The next call outside the lock. */
  lemma NextOutside(s: System, pc: Pc, e: Event, calls: seq<Call>)
    requires CallsAre(pc, calls) && !HoldsLock(pc) && !Exited(pc) && !e.Die?
    ensures CallsAre(NextPc(s, pc, e), calls + CallAt(pc))
  {
    hide IsWhole, IsEntry, InsideAt;
    WithoutLock(0, ReadKey(s, e).Some?);
    match pc
    case FirstRead =>
      Longer([]);
    case TryLock(attempt) =>
      WithoutLock(attempt, false);
      Entered(pc, calls);
    case BusyRead(attempt) =>
      Longer(Waiting(attempt));
      WithoutLock(attempt + 1, true);
    case FinalRead =>
    case LastTry =>
      Longer(Waiting(50));
      Entered(pc, calls);
    case LateRead =>
      Longer(Waiting(50));
  }

  lemma Entered(pc: Pc, calls: seq<Call>)
    requires CallsAre(pc, calls) && (pc.TryLock? || pc.LastTry?)
    ensures CallsAre(LockedRead, calls + [CreateLock])
  {
    var entry := calls + [CreateLock];
    if pc.LastTry? { assert entry == Waiting(50) + [ReadKeyFile, CreateLock]; }
    assert entry + [] == entry;
    assert AreParts(LockedRead, entry, entry, []);
  }

  /** The next call under the lock. */
  lemma NextInside(s: System, pc: Pc, e: Event, inside: seq<Call>)
    requires InsideAt(pc, inside) && !pc.Unlink? && !e.Die?
    ensures InsideAt(NextPc(s, pc, e), inside + CallAt(pc))
  {
    match pc
    case LockedRead =>
    case WriteTemp(_) =>
      assert inside + [WriteFile] == [ReadKeyFile, WriteFile];
    case Chmod(_) =>
      assert inside + [ChangeMode] == [ReadKeyFile, WriteFile, ChangeMode];
      assert Renaming(0) == [];
    case Rename(_, attempt) =>
      assert inside + [RenameFile] == [ReadKeyFile, WriteFile, ChangeMode] + Renaming(attempt + 1);
    case RemoveTemp(_, _) =>
    case CloseLock(_) =>
  }

  /** Leaving the lock. */
  lemma NextLeaves(s: System, selected: Option<nat>, e: Event, entry: seq<Call>, inside: seq<Call>)
    requires IsEntry(entry) && InsideAt(Unlink(selected), inside) && !e.Die?
    ensures CallsAre(NextPc(s, Unlink(selected), e), entry + inside + [UnlinkLock])
  {
    hide IsEntry, IsInside, Waiting;
    var before :| IsInside(before, selected.Some?) && inside == before + [CloseFile];
    assert entry + inside + [UnlinkLock] == entry + before + [CloseFile, UnlinkLock];
  }

  lemma NextUnderLock(s: System, pc: Pc, e: Event, calls: seq<Call>)
    requires CallsAre(pc, calls) && HoldsLock(pc) && !e.Die?
    ensures CallsAre(NextPc(s, pc, e), calls + CallAt(pc))
  {
    hide IsEntry, InsideAt, NextPc, IsWhole, Waiting;
    var entry, inside :| AreParts(pc, calls, entry, inside);
    if pc.Unlink? {
      NextLeaves(s, pc.selected, e, entry, inside);
    } else {
      NextInside(s, pc, e, inside);
      NextHolds(s, pc, e);
      assert calls + CallAt(pc) == entry + (inside + CallAt(pc));
      assert AreParts(NextPc(s, pc, e), calls + CallAt(pc), entry, inside + CallAt(pc));
    }
  }

  lemma NextHolds(s: System, pc: Pc, e: Event)
    requires HoldsLock(pc) && !pc.Unlink? && !e.Die?
    ensures HoldsLock(NextPc(s, pc, e))
  {
  }

  lemma {:induction false} CallsAreInOrder(file: Content, schedule: Schedule, p: Pid)
    ensures CallsAre(PcOf(Run(Initial(file), schedule), p), CallsMade(Initial(file), schedule, p))
  {
    if schedule != [] {
      var m := |schedule| - 1;
      var r, e := Run(Initial(file), schedule[..m]), schedule[m].1;
      CallsAreInOrder(file, schedule[..m], p);
      EachCallCounts(r, schedule[m].0, e, p);
      var calls := CallsMade(Initial(file), schedule[..m], p);
      if schedule[m].0 == p && !Exited(PcOf(r, p)) {
        StepIsNext(r, p, e);
        if !e.Die? {
          if HoldsLock(PcOf(r, p)) {
            NextUnderLock(r, PcOf(r, p), e, calls);
          } else {
            NextOutside(r, PcOf(r, p), e, calls);
          }
        }
      } else {
        assert CallsMade(Initial(file), schedule, p) == calls + [];
        assert calls + [] == calls;
      }
    }
  }

  lemma StepIsNext(s: System, p: Pid, e: Event)
    requires !Exited(PcOf(s, p))
    ensures PcOf(Step(s, p, e), p) == NextPc(s, PcOf(s, p), e)
    ensures e.Die? ==> NextPc(s, PcOf(s, p), e) == Died
  {
  }

  /**
   The calls of a process that has returned or thrown, in order: at most 50 times a refused create and
   a read, a last read and create and a very last read; or, with the lock, a read alone or a write, a
   chmod, at most five renames and a removal, and then always the close and the unlink.
   */
  lemma WholeOrder(file: Content, schedule: Schedule, p: Pid)
    ensures var pc, calls := PcOf(Run(Initial(file), schedule), p), CallsMade(Initial(file), schedule, p);
            && (pc.Returned? ==> IsWhole(calls, true))
            && (pc.Threw? ==> IsWhole(calls, false))
  {
    CallsAreInOrder(file, schedule, p);
  }
}
