/**
 The key-file election: any number of mock-server processes race to load or mint one
 server key.  Every file-system call is one atomic step of one process, a process may die
 before any of its calls, and any call may fail.  Only these processes touch the files.
 */
module KeyElection {
  import opened Wrappers

  type Pid = nat

  const LOCK_ATTEMPTS: nat := 50
  const RENAME_ATTEMPTS: nat := 5

  /** What a file holds: nothing, text that is no canonical 32-byte key, or a key. */
  datatype Content = Missing | Invalid | Key(key: nat)

  datatype Errno = EACCES | EBUSY | EPERM | EEXIST | OtherErrno

  /** How the environment answers the next call; `drawn` is the key minted if this call leads to minting. */
  datatype Event = Success(drawn: nat) | Failure(code: Errno, drawn: nat) | Die

  /** The call a process makes next, with the local variables that are live there. */
  datatype Pc =
    | FirstRead
    | TryLock(attempt: nat)
    | BusyRead(attempt: nat)
    | FinalRead
    | LastTry
    | LateRead
    | LockedRead
    | WriteTemp(minted: nat)
    | Chmod(minted: nat)
    | Rename(minted: nat, attempt: nat)
    | RemoveTemp(minted: nat, renamed: bool)
    | CloseLock(selected: Option<nat>)
    | Unlink(selected: Option<nat>)
    | Returned(key: nat)
    | Threw
    | Died

  /**
   The shared files, each process's position, and four history fields that no step reads:
   how often the key file was replaced, which processes left without removing their lock,
   whose read under the lock failed although the file was valid, and who created `lock`.
   */
  datatype System = System(
    file: Content,
    lock: Option<Pid>,
    temps: map<Pid, Content>,
    procs: map<Pid, Pc>,
    replaced: nat,
    abandoned: set<Pid>,
    misread: set<Pid>)

  /** A process that has taken no step yet is about to make its first read. */
  function PcOf(s: System, p: Pid): Pc {
    if p in s.procs then s.procs[p] else FirstRead
  }

  function Initial(file: Content): System {
    System(file, None, map[], map[], 0, {}, {})
  }

  predicate HoldsLock(pc: Pc) {
    pc.LockedRead? || pc.WriteTemp? || pc.Chmod? || pc.Rename? || pc.RemoveTemp? || pc.CloseLock? || pc.Unlink?
  }

  /** Between the locked read that found no key and the rename. */
  predicate Minting(pc: Pc) {
    pc.WriteTemp? || pc.Chmod? || pc.Rename?
  }

  predicate Exited(pc: Pc) {
    pc.Returned? || pc.Threw? || pc.Died?
  }

  /** `readKeyPair`: a failed call reads as an invalid file. */
  function ReadKey(s: System, e: Event): Option<nat> {
    if e.Success? && s.file.Key? then Some(s.file.key) else None
  }

  /** Exclusive create: refused when the lock exists or when the call fails. */
  predicate Creates(s: System, e: Event) {
    e.Success? && s.lock.None?
  }

  predicate SaysExists(s: System, e: Event) {
    if e.Success? then s.lock.Some? else e.Failure? && e.code.EEXIST?
  }

  /** What follows a refused exclusive create: look again, or rethrow. */
  function Refused(s: System, e: Event, retry: Pc): Pc {
    if SaysExists(s, e) then retry else Threw
  }

  function AfterBusyRead(attempt: nat): Pc {
    if attempt + 1 < LOCK_ATTEMPTS then TryLock(attempt + 1) else FinalRead
  }

  predicate Retryable(code: Errno) {
    code.EACCES? || code.EBUSY? || code.EPERM?
  }

  function AfterRenameFailure(minted: nat, attempt: nat, code: Errno): Pc {
    if !Retryable(code) || attempt + 1 >= RENAME_ATTEMPTS then RemoveTemp(minted, false)
    else Rename(minted, attempt + 1)
  }

  function Exit(selected: Option<nat>): Pc {
    if selected.Some? then Returned(selected.value) else Threw
  }

  /** Where the call `pc`, answered by `e`, leads: the control flow of one process. */
  function NextPc(s: System, pc: Pc, e: Event): Pc {
    if Exited(pc) then pc
    else if e.Die? then Died
    else
      match pc
      case FirstRead => if ReadKey(s, e).Some? then Returned(ReadKey(s, e).value) else TryLock(0)
      case TryLock(attempt) => if Creates(s, e) then LockedRead else Refused(s, e, BusyRead(attempt))
      case BusyRead(attempt) =>
        if ReadKey(s, e).Some? then Returned(ReadKey(s, e).value) else AfterBusyRead(attempt)
      case FinalRead => if ReadKey(s, e).Some? then Returned(ReadKey(s, e).value) else LastTry
      case LastTry => if Creates(s, e) then LockedRead else Refused(s, e, LateRead)
      case LateRead => Exit(ReadKey(s, e))
      case LockedRead => if ReadKey(s, e).Some? then CloseLock(ReadKey(s, e)) else WriteTemp(e.drawn)
      case WriteTemp(minted) => if e.Success? then Chmod(minted) else RemoveTemp(minted, false)
      case Chmod(minted) => if e.Success? then Rename(minted, 0) else RemoveTemp(minted, false)
      case Rename(minted, attempt) =>
        if e.Success? then RemoveTemp(minted, true) else AfterRenameFailure(minted, attempt, e.code)
      case RemoveTemp(minted, renamed) => CloseLock(if renamed then Some(minted) else None)
      case CloseLock(selected) => Unlink(selected)
      case Unlink(selected) => Exit(selected)
  }

  /** What the call does to the files, and what the history fields note about it. */
  function Effect(s: System, p: Pid, pc: Pc, e: Event): System {
    if e.Die? then
      if HoldsLock(pc) then s.(abandoned := s.abandoned + {p}) else s
    else
      match pc
      case TryLock(_) => if Creates(s, e) then s.(lock := Some(p)) else s
      case LastTry => if Creates(s, e) then s.(lock := Some(p)) else s
      case LockedRead => if e.Failure? && s.file.Key? then s.(misread := s.misread + {p}) else s
      case WriteTemp(minted) => s.(temps := s.temps[p := if e.Success? then Key(minted) else Invalid])
      case Rename(_, _) =>
        if e.Success? && p in s.temps then
          s.(file := s.temps[p], temps := s.temps - {p}, replaced := s.replaced + 1)
        else s
      case RemoveTemp(_, _) => if e.Success? then s.(temps := s.temps - {p}) else s
      case Unlink(_) => if e.Success? then s.(lock := None) else s.(abandoned := s.abandoned + {p})
      case _ => s
  }

  /** One call of process `p`, answered by `e`. */
  function Step(s: System, p: Pid, e: Event): System {
    var pc := PcOf(s, p);
    if Exited(pc) then s
    else Effect(s, p, pc, e).(procs := s.procs[p := NextPc(s, pc, e)])
  }

  type Schedule = seq<(Pid, Event)>

  function Run(s: System, schedule: Schedule): System {
    if schedule == [] then s
    else
      var last := schedule[|schedule| - 1];
      Step(Run(s, schedule[..|schedule| - 1]), last.0, last.1)
  }

  /** The key a process has settled on although it has not returned yet, or has returned. */
  function Settled(pc: Pc): Option<nat> {
    match pc
    case RemoveTemp(minted, true) => Some(minted)
    case CloseLock(selected) => selected
    case Unlink(selected) => selected
    case Returned(key) => Some(key)
    case _ => None
  }

  /** What holds of each process in every reachable state, whatever calls fail and whoever dies. */
  ghost predicate LockOk(s: System, p: Pid) {
    var pc := PcOf(s, p);
    && (s.lock == Some(p) <==> HoldsLock(pc) || p in s.abandoned)
    && (p in s.abandoned ==> Exited(pc))
    && (Minting(pc) && s.file.Key? ==> p in s.misread)
    && (pc.Chmod? || pc.Rename? ==> p in s.temps && s.temps[p] == Key(pc.minted))
  }

  /** What also holds while no locked read has failed on a valid file. */
  ghost predicate KeyOk(s: System, p: Pid) {
    Settled(PcOf(s, p)).Some? ==> s.file == Key(Settled(PcOf(s, p)).value)
  }

  ghost predicate LockInvariant(s: System) {
    forall p: Pid :: LockOk(s, p)
  }

  ghost predicate KeyInvariant(s: System) {
    && (forall p: Pid :: KeyOk(s, p))
    && s.replaced <= if s.file.Key? then 1 else 0
  }

  ghost predicate Invariant(s: System) {
    LockInvariant(s) && (s.misread == {} ==> KeyInvariant(s))
  }

  /** Only the lock holder can change the file or drop the lock, so the others keep their facts. */
  lemma StepKeepsOther(s: System, p: Pid, e: Event, q: Pid)
    requires q != p && LockOk(s, p) && LockOk(s, q)
    ensures LockOk(Step(s, p, e), q)
    ensures KeyOk(s, q) && p !in s.misread ==> KeyOk(Step(s, p, e), q)
  {
    var t := Step(s, p, e);
    assert PcOf(t, q) == PcOf(s, q);
  }

  lemma StepKeepsOwn(s: System, p: Pid, e: Event)
    requires LockOk(s, p)
    ensures LockOk(Step(s, p, e), p)
  {
  }

  lemma StepKeepsInvariant(s: System, p: Pid, e: Event)
    requires Invariant(s)
    ensures Invariant(Step(s, p, e))
  {
    var t := Step(s, p, e);
    assert LockOk(s, p);
    StepKeepsOwn(s, p, e);
    forall q: Pid ensures LockOk(t, q) {
      if q != p { assert LockOk(s, q); StepKeepsOther(s, p, e, q); }
    }
    if t.misread == {} {
      assert KeyOk(s, p);
      assert KeyOk(t, p);
      forall q: Pid ensures KeyOk(t, q) {
        if q != p { assert LockOk(s, q) && KeyOk(s, q); StepKeepsOther(s, p, e, q); }
      }
    }
  }

  lemma {:induction false} RunKeepsInvariant(s: System, schedule: Schedule)
    requires Invariant(s)
    ensures Invariant(Run(s, schedule))
  {
    if schedule != [] {
      var n := |schedule| - 1;
      RunKeepsInvariant(s, schedule[..n]);
      StepKeepsInvariant(Run(s, schedule[..n]), schedule[n].0, schedule[n].1);
    }
  }

  /**
   Safety of every run from every initial file: at most one process is inside the lock,
   and a lock on disk is one being held or one whose creator left without removing it.
   */
  lemma MutualExclusion(file: Content, schedule: Schedule, p: Pid, q: Pid)
    ensures var t := Run(Initial(file), schedule);
            && (HoldsLock(PcOf(t, p)) && HoldsLock(PcOf(t, q)) ==> p == q)
            && (t.lock == Some(p) <==> HoldsLock(PcOf(t, p)) || p in t.abandoned)
            && (Exited(PcOf(t, p)) && p !in t.abandoned ==> t.lock != Some(p))
  {
    RunKeepsInvariant(Initial(file), schedule);
    var t := Run(Initial(file), schedule);
    assert LockOk(t, p) && LockOk(t, q);
  }

  /** The step renames over a valid key a different one, which only a process that misread it can do. */
  predicate Overwrites(s: System, p: Pid, e: Event) {
    s.file.Key? && PcOf(s, p).Rename? && e.Success? && p in s.misread && PcOf(s, p).minted != s.file.key
  }

  predicate OverwritesAt(s: System, schedule: Schedule, i: nat)
    requires i < |schedule|
  {
    Overwrites(Run(s, schedule[..i]), schedule[i].0, schedule[i].1)
  }

  ghost predicate NeverOverwrites(s: System, schedule: Schedule) {
    forall i: nat :: i < |schedule| ==> !OverwritesAt(s, schedule, i)
  }

  /** The process that holds the lock has settled on the key in the file, or on none. */
  ghost predicate HolderOk(s: System, p: Pid) {
    HoldsLock(PcOf(s, p)) && Settled(PcOf(s, p)).Some? ==> s.file == Key(Settled(PcOf(s, p)).value)
  }

  lemma StepKeepsHolder(s: System, p: Pid, e: Event, q: Pid)
    requires LockOk(s, p) && LockOk(s, q) && HolderOk(s, p) && HolderOk(s, q)
    ensures HolderOk(Step(s, p, e), q)
  {
    if q != p { assert PcOf(Step(s, p, e), q) == PcOf(s, q); }
  }

  lemma {:induction false} HolderIsOk(file: Content, schedule: Schedule, p: Pid)
    ensures HolderOk(Run(Initial(file), schedule), p)
  {
    if schedule != [] {
      var m := |schedule| - 1;
      var s := Run(Initial(file), schedule[..m]);
      HolderIsOk(file, schedule[..m], p);
      HolderIsOk(file, schedule[..m], schedule[m].0);
      RunKeepsInvariant(Initial(file), schedule[..m]);
      assert LockOk(s, p) && LockOk(s, schedule[m].0);
      StepKeepsHolder(s, schedule[m].0, schedule[m].1, p);
    }
  }

  /** Some process has returned this key. */
  ghost predicate HandsOut(s: System, key: nat) {
    exists p: Pid :: PcOf(s, p) == Returned(key)
  }

  /** Step `i` of the run overwrites this key, which some process has returned before. */
  ghost predicate SpoilsAt(s: System, schedule: Schedule, i: nat, key: nat)
    requires i < |schedule|
  {
    OverwritesAt(s, schedule, i) && Run(s, schedule[..i]).file == Key(key) && HandsOut(Run(s, schedule[..i]), key)
  }

  ghost predicate NeverSpoils(s: System, schedule: Schedule) {
    forall i: nat, key: nat :: i < |schedule| ==> !SpoilsAt(s, schedule, i, key)
  }

  lemma SpoilsInPrefix(s: System, schedule: Schedule, n: nat, i: nat, key: nat)
    requires i < n <= |schedule|
    ensures SpoilsAt(s, schedule[..n], i, key) <==> SpoilsAt(s, schedule, i, key)
  {
    assert schedule[..n][..i] == schedule[..i];
  }

  /** A key is returned when it is in the file, and stays there unless a key that has been returned is overwritten. */
  lemma StepKeepsReturned(s: System, p: Pid, e: Event, q: Pid)
    requires LockOk(s, p) && HolderOk(s, p)
    requires forall r: Pid :: PcOf(s, r).Returned? ==> s.file == Key(PcOf(s, r).key)
    requires Overwrites(s, p, e) ==> !HandsOut(s, s.file.key)
    ensures PcOf(Step(s, p, e), q).Returned? ==> Step(s, p, e).file == Key(PcOf(Step(s, p, e), q).key)
  {
    var t := Step(s, p, e);
    if q != p && PcOf(t, q).Returned? {
      assert PcOf(t, q) == PcOf(s, q);
      assert s.file == Key(PcOf(s, q).key) && HandsOut(s, s.file.key);
    }
  }

  lemma {:induction false} ReturnedIsInFile(file: Content, schedule: Schedule, q: Pid)
    requires NeverSpoils(Initial(file), schedule)
    ensures var t := Run(Initial(file), schedule); PcOf(t, q).Returned? ==> t.file == Key(PcOf(t, q).key)
  {
    if schedule != [] {
      var m := |schedule| - 1;
      var s, p := Run(Initial(file), schedule[..m]), schedule[m].0;
      forall i: nat, key: nat | i < m ensures !SpoilsAt(Initial(file), schedule[..m], i, key) {
        SpoilsInPrefix(Initial(file), schedule, m, i, key);
      }
      forall r: Pid ensures PcOf(s, r).Returned? ==> s.file == Key(PcOf(s, r).key) {
        ReturnedIsInFile(file, schedule[..m], r);
      }
      RunKeepsInvariant(Initial(file), schedule[..m]);
      HolderIsOk(file, schedule[..m], p);
      assert LockOk(s, p);
      assert s.file.Key? ==> !SpoilsAt(Initial(file), schedule, m, s.file.key);
      hide Step, Initial, LockOk, HolderOk;
      StepKeepsReturned(s, p, schedule[m].1, q);
    }
  }

  /** Unless some step overwrites a key that has been returned, all keys handed out are the one in the file. */
  lemma Agreement(file: Content, schedule: Schedule, p: Pid, q: Pid)
    requires NeverSpoils(Initial(file), schedule)
    ensures var t := Run(Initial(file), schedule);
            && (PcOf(t, p).Returned? ==> t.file == Key(PcOf(t, p).key))
            && (PcOf(t, p).Returned? && PcOf(t, q).Returned? ==> PcOf(t, p).key == PcOf(t, q).key)
  {
    ReturnedIsInFile(file, schedule, p);
    ReturnedIsInFile(file, schedule, q);
  }

  lemma {:induction false} HandedOutStays(s: System, schedule: Schedule, n: nat, p: Pid)
    requires n <= |schedule| && PcOf(Run(s, schedule[..n]), p).Returned?
    ensures PcOf(Run(s, schedule), p) == PcOf(Run(s, schedule[..n]), p)
  {
    if n < |schedule| {
      var m := |schedule| - 1;
      assert schedule[..m][..n] == schedule[..n];
      HandedOutStays(s, schedule[..m], n, p);
      EachCallCounts(Run(s, schedule[..m]), schedule[m].0, schedule[m].1, p);
    } else {
      assert schedule[..n] == schedule;
    }
  }

  ghost predicate Disagrees(s: System) {
    exists a: nat, b: nat :: a != b && HandsOut(s, a) && HandsOut(s, b)
  }

  /**
   In every run two processes have returned different keys exactly when a step has overwritten a key
   returned before it, and some process has returned another key than that.
   */
  lemma DisagreesIff(file: Content, schedule: Schedule)
    ensures var t := Run(Initial(file), schedule);
            Disagrees(t) <==>
            exists i: nat, key: nat, other: nat ::
              i < |schedule| && SpoilsAt(Initial(file), schedule, i, key) && other != key && HandsOut(t, other)
  {
    var t := Run(Initial(file), schedule);
    if Disagrees(t) {
      var a: nat, b: nat :| a != b && HandsOut(t, a) && HandsOut(t, b);
      var p: Pid, q: Pid :| PcOf(t, p) == Returned(a) && PcOf(t, q) == Returned(b);
      if NeverSpoils(Initial(file), schedule) { Agreement(file, schedule, p, q); }
      var i: nat, key: nat :| i < |schedule| && SpoilsAt(Initial(file), schedule, i, key);
      assert HandsOut(t, if a == key then b else a);
    }
    if i: nat, key: nat, other: nat :|
        i < |schedule| && SpoilsAt(Initial(file), schedule, i, key) && other != key && HandsOut(t, other) {
      var p: Pid :| PcOf(Run(Initial(file), schedule[..i]), p) == Returned(key);
      HandedOutStays(Initial(file), schedule, i, p);
      assert HandsOut(t, key);
    }
  }

  /** In particular while every locked read is accurate; and then the file is replaced at most once. */
  lemma AccurateReadsAgree(file: Content, schedule: Schedule, p: Pid, q: Pid)
    requires Run(Initial(file), schedule).misread == {}
    ensures NeverOverwrites(Initial(file), schedule)
    ensures var t := Run(Initial(file), schedule);
            && (PcOf(t, p).Returned? ==> t.file == Key(PcOf(t, p).key))
            && (PcOf(t, p).Returned? && PcOf(t, q).Returned? ==> PcOf(t, p).key == PcOf(t, q).key)
            && t.replaced <= 1
  {
    RunKeepsInvariant(Initial(file), schedule);
    forall i: nat | i < |schedule| ensures !OverwritesAt(Initial(file), schedule, i) {
      HistoryGrows(Initial(file), schedule, i);
    }
    Agreement(file, schedule, p, q);
  }

  /** A step changes a valid key file exactly when it is the rename of a process that misread it. */
  lemma ValidKeyReplacedIff(s: System, p: Pid, e: Event)
    requires Invariant(s) && s.file.Key?
    ensures Step(s, p, e).file != s.file <==>
            PcOf(s, p).Rename? && e.Success? && p in s.misread && PcOf(s, p).minted != s.file.key
    ensures Step(s, p, e).file != s.file <==> Overwrites(s, p, e)
  {
    assert LockOk(s, p);
  }

  lemma {:induction false} KeyStaysUnlessOverwritten(file: Content, schedule: Schedule, m: nat, n: nat)
    requires m <= n <= |schedule| && NeverOverwrites(Initial(file), schedule)
    requires Run(Initial(file), schedule[..m]).file.Key?
    ensures Run(Initial(file), schedule[..n]).file == Run(Initial(file), schedule[..m]).file
    decreases n - m
  {
    if m < n {
      KeyStaysUnlessOverwritten(file, schedule, m, n - 1);
      RunKeepsInvariant(Initial(file), schedule[..n - 1]);
      assert schedule[..n][..n - 1] == schedule[..n - 1];
      assert !OverwritesAt(Initial(file), schedule, n - 1);
      ValidKeyReplacedIff(Run(Initial(file), schedule[..n - 1]), schedule[n - 1].0, schedule[n - 1].1);
    }
  }

  ghost predicate KeyIsStable(s: System, schedule: Schedule) {
    forall m: nat, n: nat :: m <= n <= |schedule| && Run(s, schedule[..m]).file.Key? ==>
                               Run(s, schedule[..n]).file == Run(s, schedule[..m]).file
  }

  /** In every run: the file, once valid, never changes again exactly when no step overwrites a valid key. */
  lemma KeyIsStableIff(file: Content, schedule: Schedule)
    ensures KeyIsStable(Initial(file), schedule) <==> NeverOverwrites(Initial(file), schedule)
  {
    if NeverOverwrites(Initial(file), schedule) {
      forall m: nat, n: nat | m <= n <= |schedule| && Run(Initial(file), schedule[..m]).file.Key?
        ensures Run(Initial(file), schedule[..n]).file == Run(Initial(file), schedule[..m]).file
      {
        KeyStaysUnlessOverwritten(file, schedule, m, n);
      }
    } else {
      var i: nat :| i < |schedule| && OverwritesAt(Initial(file), schedule, i);
      RunKeepsInvariant(Initial(file), schedule[..i]);
      ValidKeyReplacedIff(Run(Initial(file), schedule[..i]), schedule[i].0, schedule[i].1);
      assert schedule[..i + 1][..i] == schedule[..i];
      assert Run(Initial(file), schedule[..i + 1]).file != Run(Initial(file), schedule[..i]).file;
    }
  }

  lemma ValidKeyStays(s: System, p: Pid, e: Event)
    requires Invariant(s) && s.file.Key? && p !in s.misread
    ensures Step(s, p, e).file == s.file && Step(s, p, e).replaced == s.replaced
  {
    assert LockOk(s, p);
  }

  lemma {:induction false} HistoryGrows(s: System, schedule: Schedule, n: nat)
    requires n <= |schedule|
    ensures Run(s, schedule[..n]).misread <= Run(s, schedule).misread
    ensures Run(s, schedule[..n]).abandoned <= Run(s, schedule).abandoned
    ensures Run(s, schedule[..n]).replaced <= Run(s, schedule).replaced
  {
    if n < |schedule| {
      var m := |schedule| - 1;
      assert schedule[..m][..n] == schedule[..n];
      HistoryGrows(s, schedule[..m], n);
    } else {
      assert schedule[..n] == schedule;
    }
  }

  /** Once valid, the file keeps its key, and a file valid from the start is never replaced. */
  lemma {:induction false} KeyNeverChanges(file: Content, schedule: Schedule, n: nat)
    requires n <= |schedule|
    requires Run(Initial(file), schedule).misread == {}
    requires Run(Initial(file), schedule[..n]).file.Key?
    ensures Run(Initial(file), schedule).file == Run(Initial(file), schedule[..n]).file
    ensures Run(Initial(file), schedule).replaced == Run(Initial(file), schedule[..n]).replaced
  {
    if n < |schedule| {
      var m := |schedule| - 1;
      var s := Run(Initial(file), schedule[..m]);
      hide Invariant, Step, Initial;
      assert schedule[..m][..n] == schedule[..n];
      HistoryGrows(Initial(file), schedule, m);
      KeyNeverChanges(file, schedule[..m], n);
      RunKeepsInvariant(Initial(file), schedule[..m]);
      HistoryStep(s, schedule[m].0, schedule[m].1, schedule[m].0);
      ValidKeyStays(s, schedule[m].0, schedule[m].1);
    } else {
      assert schedule[..n] == schedule;
    }
  }

  /** Step `i` of the run is a call of `p` after which its lock stays on disk. */
  predicate LeavesLockAt(s: System, schedule: Schedule, i: nat, p: Pid)
    requires i < |schedule|
  {
    var pc, e := PcOf(Run(s, schedule[..i]), p), schedule[i].1;
    schedule[i].0 == p && ((HoldsLock(pc) && e.Die?) || (pc.Unlink? && e.Failure?))
  }

  /** Step `i` of the run is `p` failing to read, under the lock, a file that holds a key. */
  predicate MisreadsAt(s: System, schedule: Schedule, i: nat, p: Pid)
    requires i < |schedule|
  {
    var t := Run(s, schedule[..i]);
    schedule[i].0 == p && PcOf(t, p).LockedRead? && schedule[i].1.Failure? && t.file.Key?
  }

  lemma HistoryStep(s: System, p: Pid, e: Event, q: Pid)
    ensures q in Step(s, p, e).abandoned <==>
            q in s.abandoned ||
            (q == p && ((HoldsLock(PcOf(s, p)) && e.Die?) || (PcOf(s, p).Unlink? && e.Failure?)))
    ensures q in Step(s, p, e).misread <==>
            q in s.misread || (q == p && PcOf(s, p).LockedRead? && e.Failure? && s.file.Key?)
  {
  }

  /** The two history sets say exactly who died inside the lock or failed to unlink, and who misread. */
  lemma {:induction false} HistoryIsExact(file: Content, schedule: Schedule, p: Pid)
    ensures p in Run(Initial(file), schedule).abandoned <==>
            exists i :: 0 <= i < |schedule| && LeavesLockAt(Initial(file), schedule, i, p)
    ensures p in Run(Initial(file), schedule).misread <==>
            exists i :: 0 <= i < |schedule| && MisreadsAt(Initial(file), schedule, i, p)
  {
    var init := Initial(file);
    if schedule != [] {
      var m := |schedule| - 1;
      var shorter := schedule[..m];
      HistoryIsExact(file, shorter, p);
      HistoryStep(Run(init, shorter), schedule[m].0, schedule[m].1, p);
      forall i: nat | i < m
        ensures LeavesLockAt(init, shorter, i, p) == LeavesLockAt(init, schedule, i, p)
        ensures MisreadsAt(init, shorter, i, p) == MisreadsAt(init, schedule, i, p)
      {
        assert shorter[..i] == schedule[..i];
      }
      assert p in Run(init, schedule).abandoned <==>
             p in Run(init, shorter).abandoned || LeavesLockAt(init, schedule, m, p);
      assert p in Run(init, schedule).misread <==> p in Run(init, shorter).misread || MisreadsAt(init, schedule, m, p);
    }
  }

  lemma AbandonedLockBlocks(t: System, p: Pid, q: Pid)
    requires Invariant(t) && p in t.abandoned
    ensures t.lock == Some(p) && !HoldsLock(PcOf(t, q))
  {
    assert LockOk(t, p) && LockOk(t, q);
  }

  /** An abandoned lock is never taken again: from then on nobody else mints. */
  lemma AbandonedLockIsFinal(file: Content, schedule: Schedule, n: nat, p: Pid, q: Pid)
    requires n <= |schedule| && p in Run(Initial(file), schedule[..n]).abandoned
    ensures var t := Run(Initial(file), schedule); t.lock == Some(p) && !HoldsLock(PcOf(t, q))
  {
    var t := Run(Initial(file), schedule);
    assert Invariant(t) by { RunKeepsInvariant(Initial(file), schedule); }
    assert p in t.abandoned by { HistoryGrows(Initial(file), schedule, n); }
    AbandonedLockBlocks(t, p, q);
  }

  function Remaining(limit: nat, attempt: nat): nat {
    if attempt < limit then limit - attempt else 1
  }

  /** How many more calls a process can make. */
  function CallsLeft(pc: Pc): nat {
    match pc
    case FirstRead => 14 + 2 * LOCK_ATTEMPTS
    case TryLock(attempt) => 13 + 2 * Remaining(LOCK_ATTEMPTS, attempt)
    case BusyRead(attempt) => 12 + 2 * Remaining(LOCK_ATTEMPTS, attempt)
    case FinalRead => 13
    case LastTry => 12
    case LockedRead => 11
    case WriteTemp(_) => 10
    case Chmod(_) => 9
    case Rename(_, attempt) => 3 + Remaining(RENAME_ATTEMPTS, attempt)
    case RemoveTemp(_, _) => 3
    case CloseLock(_) => 2
    case Unlink(_) => 1
    case LateRead => 1
    case _ => 0
  }

  function CallsOf(schedule: Schedule, p: Pid): nat {
    if schedule == [] then 0
    else CallsOf(schedule[..|schedule| - 1], p) + if schedule[|schedule| - 1].0 == p then 1 else 0
  }

  lemma NextCallCounts(s: System, pc: Pc, e: Event)
    ensures Exited(pc) || CallsLeft(NextPc(s, pc, e)) < CallsLeft(pc)
  {
  }

  lemma EachCallCounts(s: System, p: Pid, e: Event, q: Pid)
    ensures p != q ==> PcOf(Step(s, p, e), q) == PcOf(s, q)
    ensures Exited(PcOf(s, q)) ==> PcOf(Step(s, p, e), q) == PcOf(s, q)
    ensures !Exited(PcOf(s, p)) ==> CallsLeft(PcOf(Step(s, p, e), p)) < CallsLeft(PcOf(s, p))
  {
    NextCallCounts(s, PcOf(s, p), e);
  }

  /** No process waits for ever: after 114 calls of its own it has returned, thrown or died. */
  lemma {:induction false} EveryProcessExits(file: Content, schedule: Schedule, p: Pid)
    ensures var pc := PcOf(Run(Initial(file), schedule), p);
            Exited(pc) || CallsOf(schedule, p) + CallsLeft(pc) <= 114
    ensures CallsOf(schedule, p) >= 114 ==> Exited(PcOf(Run(Initial(file), schedule), p))
  {
    if schedule != [] {
      var m := |schedule| - 1;
      EveryProcessExits(file, schedule[..m], p);
      EachCallCounts(Run(Initial(file), schedule[..m]), schedule[m].0, schedule[m].1, p);
    }
  }

  lemma Extend(s: System, schedule: Schedule, p: Pid, e: Event)
    ensures Run(s, schedule + [(p, e)]) == Step(Run(s, schedule), p, e)
  {
    var longer := schedule + [(p, e)];
    assert longer[..|longer| - 1] == schedule;
  }

  /** How far a process that met no further failure has got with publishing `key`. */
  predicate Publishing(s: System, p: Pid, key: nat) {
    match PcOf(s, p)
    case WriteTemp(minted) => minted == key
    case Chmod(minted) => minted == key && p in s.temps && s.temps[p] == Key(key)
    case Rename(minted, _) => minted == key && p in s.temps && s.temps[p] == Key(key)
    case RemoveTemp(minted, renamed) => minted == key && renamed && s.file == Key(key)
    case CloseLock(selected) => selected == Some(key) && s.file == Key(key)
    case Unlink(selected) => selected == Some(key) && s.file == Key(key)
    case Returned(returned) => returned == key && s.file == Key(key) && s.lock.None?
    case _ => false
  }

  lemma PublishingContinues(s: System, p: Pid, key: nat)
    requires Publishing(s, p, key)
    ensures Publishing(Step(s, p, Success(0)), p, key)
  {
  }

  /** Only `p` has moved. */
  ghost predicate OthersStay(s: System, t: System, p: Pid) {
    forall q: Pid :: q != p ==> PcOf(t, q) == PcOf(s, q)
  }

  lemma StepMovesOne(s: System, p: Pid, e: Event)
    ensures OthersStay(s, Step(s, p, e), p)
  {
    forall q: Pid | q != p ensures PcOf(Step(s, p, e), q) == PcOf(s, q) { EachCallCounts(s, p, e, q); }
  }

  lemma PublishToEnd(s: System, schedule: Schedule, p: Pid, key: nat) returns (longer: Schedule)
    requires Publishing(Run(s, schedule), p, key)
    ensures var t := Run(s, longer); PcOf(t, p) == Returned(key) && t.lock.None? && t.file == Key(key)
    ensures OthersStay(Run(s, schedule), Run(s, longer), p)
  {
    longer := schedule;
    while !Exited(PcOf(Run(s, longer), p))
      invariant Publishing(Run(s, longer), p, key)
      invariant OthersStay(Run(s, schedule), Run(s, longer), p)
      decreases CallsLeft(PcOf(Run(s, longer), p))
    {
      Extend(s, longer, p, Success(0));
      StepMovesOne(Run(s, longer), p, Success(0));
      EachCallCounts(Run(s, longer), p, Success(0), p);
      PublishingContinues(Run(s, longer), p, key);
      longer := longer + [(p, Success(0))];
    }
  }

  /** A process under the lock that reads no key can publish and return the one it mints. */
  lemma MintUnderLock(s: System, schedule: Schedule, p: Pid, read: Event) returns (longer: Schedule)
    requires !read.Die? && PcOf(Run(s, schedule), p).LockedRead? && ReadKey(Run(s, schedule), read).None?
    ensures var t := Run(s, longer); PcOf(t, p) == Returned(read.drawn) && t.lock.None? && t.file == Key(read.drawn)
    ensures OthersStay(Run(s, schedule), Run(s, longer), p)
  {
    Extend(s, schedule, p, read);
    StepMovesOne(Run(s, schedule), p, read);
    longer := PublishToEnd(s, schedule + [(p, read)], p, read.drawn);
  }

  /** Whenever a step overwrites a key that some process has returned, the run can go on to hand out a second key. */
  lemma OverwriteBreaksAgreement(file: Content, schedule: Schedule, p: Pid, e: Event, q: Pid) returns (longer: Schedule)
    requires Overwrites(Run(Initial(file), schedule), p, e)
    requires PcOf(Run(Initial(file), schedule), q) == Returned(Run(Initial(file), schedule).file.key)
    ensures var t := Run(Initial(file), longer);
            PcOf(t, p).Returned? && PcOf(t, q).Returned? && PcOf(t, p).key != PcOf(t, q).key
  {
    var s := Run(Initial(file), schedule);
    RunKeepsInvariant(Initial(file), schedule);
    assert LockOk(s, p);
    Extend(Initial(file), schedule, p, e);
    EachCallCounts(s, p, e, q);
    longer := PublishToEnd(Initial(file), schedule + [(p, e)], p, PcOf(s, p).minted);
    assert OthersStay(Run(Initial(file), schedule + [(p, e)]), Run(Initial(file), longer), p);
  }

  /** Process 0 fails its first read of a valid file and takes the lock. */
  lemma FailsThenLocks(s: System, failed: Event)
    requires s == Initial(Key(7)) && failed == Failure(EACCES, 8)
    ensures Step(Step(s, 0, failed), 0, Success(0)) == s.(lock := Some(0), procs := map[0 := LockedRead])
  {
    assert Step(s, 0, failed).procs == map[0 := TryLock(0)];
    assert Step(Step(s, 0, failed), 0, Success(0)).procs == map[0 := LockedRead];
  }

  lemma RunOfTwo(s: System, first: (Pid, Event), second: (Pid, Event))
    ensures Run(s, [first, second]) == Step(Step(s, first.0, first.1), second.0, second.1)
  {
    hide Step;
    assert Run(s, []) == s;
    Extend(s, [], first.0, first.1);
    assert [] + [first] == [first];
    Extend(s, [first], second.0, second.1);
    assert [first] + [second] == [first, second];
  }

  /** An overwrite does no harm while nobody has returned the key: here the one key handed out is the new one. */
  lemma HarmlessOverwrite() returns (schedule: Schedule)
    ensures var t := Run(Initial(Key(7)), schedule); PcOf(t, 0) == Returned(8) && t.file == Key(8) && !Disagrees(t)
    ensures !NeverOverwrites(Initial(Key(7)), schedule)
  {
    hide Step, Run, Initial, NeverOverwrites;
    var s, failed := Initial(Key(7)), Failure(EACCES, 8);
    RunOfTwo(s, (0, failed), (0, Success(0)));
    FailsThenLocks(s, failed);
    schedule := MintUnderLock(s, [(0, failed), (0, Success(0))], 0, failed);
    InitialIs(Key(7));
    ChangedKeyIsOverwritten(Key(7), schedule);
  }

  lemma InitialIs(file: Content)
    ensures Initial(file).file == file && Initial(file).procs == map[]
  {
  }

  lemma ChangedKeyIsOverwritten(file: Content, schedule: Schedule)
    requires file.Key? && Run(Initial(file), schedule).file != file
    ensures !NeverOverwrites(Initial(file), schedule)
  {
    assert schedule[..0] == [] && schedule[..|schedule|] == schedule;
    assert Run(Initial(file), schedule[..0]).file == file;
    if NeverOverwrites(Initial(file), schedule) {
      hide NeverOverwrites, Run;
      KeyStaysUnlessOverwritten(file, schedule, 0, |schedule|);
    }
  }

  /**
   A returned key can be overwritten: one failed read under the lock, on a file that is valid
   by then, makes a second process replace the key the first has already returned.
   */
  lemma OneMisreadBreaksAgreement() returns (schedule: Schedule)
    ensures var t := Run(Initial(Missing), schedule);
            PcOf(t, 0) == Returned(1) && PcOf(t, 1) == Returned(2) && t.file == Key(2)
  {
    var s, ok := Initial(Missing), Success(0);
    Extend(s, [], 0, ok);
    Extend(s, [(0, ok)], 1, ok);
    Extend(s, [(0, ok), (1, ok)], 0, ok);
    assert [] + [(0, ok)] == [(0, ok)];
    assert [(0, ok)] + [(1, ok)] == [(0, ok), (1, ok)];
    schedule := MintUnderLock(s, [(0, ok), (1, ok)] + [(0, ok)], 0, Success(1));
    assert PcOf(Run(s, schedule), 1) == PcOf(Run(s, [(0, ok), (1, ok)] + [(0, ok)]), 1);
    Extend(s, schedule, 1, ok);
    schedule := MintUnderLock(s, schedule + [(1, ok)], 1, Failure(EACCES, 2));
  }
}
