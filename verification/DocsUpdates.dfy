/** The whole of it: start-up, any number of readers, and any number of goroutines calling `Update`,
    which takes the updater's mutex, checks, fetches, swaps under the lock and records the hash. The
    system is proved to behave as if the calls had been made one after the other. */
module DocsUpdates {
  import opened Text
  import opened DocsProtocol
  import opened DocsSafety
  import opened DocsProgress
  import opened DocsIndex
  import opened DocsHandlers
  import opened Updater
  import opened Archive
  import opened DocsLive

  /** Start-up: no documentation was configured, building its state failed, or it was built. */
  datatype Boot = NoDocs | Unbuilt | Loaded(state: DocsState)

  /** The updater's mutex is free, or held by a goroutine in one call of `Update`: before its check,
      before its download, or from the built state to the recorded hash. */
  datatype Phase =
    | Free
    | Checking(t: Tid, remote: Remote)
    | Fetching(t: Tid, remote: Remote)
    | Swapping(t: Tid, remote: Remote)

  /** `trace` is what was executed of the locking protocol, `store` the states built, `calls` what
      the calls of `Update` met, in the order in which they took the mutex. */
  datatype System = System(
    trace: Schedule,
    store: seq<DocsState>,
    phase: Phase,
    hash: string,
    fetches: nat,
    failures: nat,
    calls: seq<Remote>)

  datatype Move =
    | Reader(t: Tid, a: Action)
    | Enter(t: Tid, remote: Remote)
    | Check
    | Fetch
    | Swap(a: Action)
    | Finish

  predicate IsReader(a: Action) {
    a.RLock? || a.Load? || a.Read? || a.RUnlock?
  }

  predicate IsSwap(a: Action) {
    a.Lock? || a.LoadOld? || a.Store? || a.Unlock? || a.CloseOld?
  }

  predicate Holds(phase: Phase, t: Tid) {
    !phase.Free? && phase.t == t
  }

  /** One scheduled statement of the system; a goroutine that is blocked or elsewhere does nothing. */
  function Act(sys: System, m: Move, libs: Libs): System {
    match (m, sys.phase)
    case (Reader(t, a), _) =>
      if IsReader(a) && !Holds(sys.phase, t) then sys.(trace := sys.trace + [(t, a)]) else sys
    case (Enter(t, remote), Free) =>
      if Run(sys.trace).At(t).Idle? then sys.(phase := Checking(t, remote), calls := sys.calls + [remote]) else sys
    case (Check, Checking(t, remote)) =>
      if remote.refs.None? || MAIN !in remote.refs.value then sys.(phase := Free, failures := sys.failures + 1)
      else if remote.refs.value[MAIN] == sys.hash then sys.(phase := Free)
      else sys.(phase := Fetching(t, remote))
    case (Fetch, Fetching(t, remote)) =>
      (match Fetched(remote, libs)
       case Err => sys.(phase := Free, fetches := sys.fetches + 1, failures := sys.failures + 1)
       case Ok(state) =>
         sys.(phase := Swapping(t, remote), fetches := sys.fetches + 1,
              trace := sys.trace + [(t, Build(true))], store := sys.store + [state]))
    case (Swap(a), Swapping(t, _)) =>
      if IsSwap(a) then sys.(trace := sys.trace + [(t, a)]) else sys
    case (Finish, Swapping(t, remote)) =>
      if Run(sys.trace).At(t).Idle? && remote.refs.Some? && MAIN in remote.refs.value
      then sys.(phase := Free, hash := remote.refs.value[MAIN])
      else sys
    case _ => sys
  }

  // ----- Start-up

  function BootTrace(boot: Boot): Schedule {
    if boot.NoDocs? then []
    else [(0, Build(boot.Loaded?)), (0, Lock), (0, LoadOld), (0, Store), (0, Unlock), (0, CloseOld)]
  }

  /** What start-up installs. */
  function BootStates(boot: Boot): seq<Option<DocsState>> {
    match boot
    case NoDocs => []
    case Unbuilt => [None]
    case Loaded(state) => [Some(state)]
  }

  function Started(boot: Boot, hash: string): System {
    System(BootTrace(boot), if boot.Loaded? then [boot.state] else [], Free, hash, 0, 0, [])
  }

  /** The same, as the updater's calls see it. */
  function BootSnapshot(boot: Boot, hash: string): Snapshot {
    Snapshot(hash, if boot.Loaded? then Some(boot.state) else None, [], |BootStates(boot)|, 0, 0)
  }

  /** A run of the system. */
  function Runs(boot: Boot, hash: string, moves: seq<Move>, libs: Libs): System {
    if moves == [] then Started(boot, hash)
    else Act(Runs(boot, hash, moves[..|moves| - 1], libs), moves[|moves| - 1], libs)
  }

  const NO_STATE := DocsState(DocsFS(None, map[]), map[])

  function StoreOf(store: seq<DocsState>): nat -> DocsState {
    (i: nat) => if i < |store| then store[i] else NO_STATE
  }

  // ----- The invariant

  /** The states that the run has installed, oldest first. */
  function InstalledStates(sys: System): seq<Option<DocsState>> {
    DerefAll(InstallLog(Run(sys.trace).hist), StoreOf(sys.store))
  }

  /** What the calls met that have given the mutex back. */
  function Done(sys: System): seq<Remote> {
    if sys.phase.Free? || sys.calls == [] then sys.calls else sys.calls[..|sys.calls| - 1]
  }

  predicate Passive(pc: Pc) {
    pc.Idle? || pc.ReadLocked? || pc.Reading?
  }

  /** Only the call that has the mutex is ever in a swap. */
  ghost predicate OneSwapper(sys: System) {
    var s := Run(sys.trace);
    && |sys.store| == s.built
    && (forall u: Tid :: !Holds(sys.phase, u) ==> Passive(s.At(u)))
    && (sys.phase.Checking? || sys.phase.Fetching? ==> s.At(sys.phase.t).Idle?)
    && (sys.phase.Swapping? ==> !s.At(sys.phase.t).ReadLocked? && !s.At(sys.phase.t).Reading?)
  }

  predicate BeforeStore(pc: Pc) {
    pc.Prepared? || pc.WriteLocked? || pc.Replacing?
  }

  /** Hash and counters are those of the calls so far, one after the other. */
  ghost predicate Recorded(sys: System, st: Snapshot, libs: Libs) {
    var done := AfterAll(st, Done(sys), libs);
    && sys.hash == done.hash && sys.failures == done.failures
    && sys.fetches == done.fetches + (if sys.phase.Swapping? then 1 else 0)
    && (!sys.phase.Free? ==> sys.calls == Done(sys) + [sys.phase.remote])
    && (sys.phase.Fetching? ==> NewCommit(done, sys.phase.remote))
    && (sys.phase.Swapping? ==> Applies(done, sys.phase.remote, libs))
  }

  /** What was installed is what the calls so far install one after the other, and what the call
      in progress does if it has got beyond its store. */
  ghost predicate LogInStep(sys: System, st: Snapshot, boot: seq<Option<DocsState>>, libs: Libs) {
    var sofar := boot + Applied(st, Done(sys), libs);
    if sys.phase.Swapping? && Fetched(sys.phase.remote, libs).Ok?
    then SwapInStep(sys, sofar, Fetched(sys.phase.remote, libs).value)
    else InstalledStates(sys) == sofar
  }

  ghost predicate SwapInStep(sys: System, sofar: seq<Option<DocsState>>, state: DocsState)
    requires sys.phase.Swapping?
  {
    var pc := Run(sys.trace).At(sys.phase.t);
    if BeforeStore(pc) then
      && InstalledStates(sys) == sofar
      && sys.store != [] && sys.store[|sys.store| - 1] == state
      && pc.next == Ptr(|sys.store| - 1)
    else InstalledStates(sys) == sofar + [Some(state)]
  }

  ghost predicate InStep(sys: System, st: Snapshot, boot: seq<Option<DocsState>>, libs: Libs) {
    OneSwapper(sys) && Recorded(sys, st, libs) && LogInStep(sys, st, boot, libs)
  }

  lemma RunMore(trace: Schedule, t: Tid, a: Action)
    ensures Run(trace + [(t, a)]) == Step(Run(trace), t, a)
  {
    assert (trace + [(t, a)])[..|trace|] == trace;
  }

  /** A step adds to the install log only by storing. */
  lemma StepInstalls(s: State, t: Tid, a: Action)
    ensures InstallLog(Step(s, t, a).hist) ==
      InstallLog(s.hist) + if a.Store? && s.At(t).Replacing? then [s.At(t).next] else []
  {
    StepEmits(s, t, a);
    var e := Emitted(s, t, a);
    if e.Some? {
      assert (s.hist + [e.value])[..|s.hist|] == s.hist;
    }
    hide Step;
  }

  /** Every index in the log was built. */
  lemma LogIsBuilt(trace: Schedule)
    ensures forall ds :: ds in InstallLog(Run(trace).hist) && ds.Ptr? ==> ds.id < Run(trace).built
  {
    Reachable(trace);
    forall ds | ds in InstallLog(Run(trace).hist) && ds.Ptr?
      ensures ds.id < Run(trace).built
    {
      InstallLogHolds(Run(trace).hist, ds);
      assert Installed(Run(trace), ds.id);
    }
  }

  /** Building another state changes none that the log refers to. */
  lemma StoreMore(log: seq<Docs>, store: seq<DocsState>, state: DocsState)
    requires forall ds :: ds in log && ds.Ptr? ==> ds.id < |store|
    ensures DerefAll(log, StoreOf(store + [state])) == DerefAll(log, StoreOf(store))
  {
    var longer := StoreOf(store + [state]);
    forall i | 0 <= i < |log|
      ensures Deref(log[i], longer) == Deref(log[i], StoreOf(store))
    {
      assert log[i] in log;
    }
  }

  lemma DerefAllAppend(log: seq<Docs>, ds: Docs, store: nat -> DocsState)
    ensures DerefAll(log + [ds], store) == DerefAll(log, store) + [Deref(ds, store)]
  {
  }

  // ----- Every move keeps it

  /** What a step of goroutine `t` leaves alone. */
  lemma StepBeside(trace: Schedule, t: Tid, a: Action)
    ensures var s, s' := Run(trace), Run(trace + [(t, a)]);
      && (forall u: Tid :: u != t ==> s'.At(u) == s.At(u))
      && (!a.Build? ==> s'.built == s.built)
  {
    RunMore(trace, t, a);
    hide Run;
  }

  lemma ReaderStep(trace: Schedule, t: Tid, a: Action)
    requires IsReader(a) && Passive(Run(trace).At(t))
    ensures var s, s' := Run(trace), Run(trace + [(t, a)]);
      Passive(s'.At(t)) && InstallLog(s'.hist) == InstallLog(s.hist)
  {
    RunMore(trace, t, a);
    StepInstalls(Run(trace), t, a);
    hide Run, InstallLog;
  }

  lemma SameRecorded(sys: System, trace: Schedule, st: Snapshot, libs: Libs)
    requires Recorded(sys, st, libs)
    ensures Recorded(sys.(trace := trace), st, libs)
  {
    hide AfterAll, Applies, NewCommit;
    assert Done(sys.(trace := trace)) == Done(sys);
  }

  lemma ReaderKeeps(sys: System, t: Tid, a: Action, st: Snapshot, boot: seq<Option<DocsState>>, libs: Libs)
    requires InStep(sys, st, boot, libs)
    ensures InStep(Act(sys, Reader(t, a), libs), st, boot, libs)
  {
    if IsReader(a) && !Holds(sys.phase, t) {
      var sys' := sys.(trace := sys.trace + [(t, a)]);
      SameRecorded(sys, sys'.trace, st, libs);
      ReaderKeepsSwapper(sys, t, a);
      assert Done(sys') == Done(sys);
      ReaderKeepsPc(sys, t, a);
      hide Run, InstalledStates, OneSwapper, Recorded, Applied, Fetched, Done, Step;
    }
  }

  lemma ReaderKeepsSwapper(sys: System, t: Tid, a: Action)
    requires OneSwapper(sys) && IsReader(a) && !Holds(sys.phase, t)
    ensures OneSwapper(sys.(trace := sys.trace + [(t, a)]))
  {
    StepBeside(sys.trace, t, a);
    ReaderStep(sys.trace, t, a);
    hide Run, InstallLog;
  }

  lemma ReaderKeepsPc(sys: System, t: Tid, a: Action)
    requires OneSwapper(sys) && IsReader(a) && !Holds(sys.phase, t)
    ensures var sys' := sys.(trace := sys.trace + [(t, a)]);
      && InstalledStates(sys') == InstalledStates(sys)
      && (!sys.phase.Free? ==> Run(sys'.trace).At(sys.phase.t) == Run(sys.trace).At(sys.phase.t))
  {
    StepBeside(sys.trace, t, a);
    ReaderStep(sys.trace, t, a);
    hide Run, InstallLog, DerefAll;
  }

  /** A statement of a swap: the log grows by what `Store` stores. */
  lemma SwapStep(trace: Schedule, t: Tid, a: Action)
    requires IsSwap(a)
    requires !Run(trace).At(t).ReadLocked? && !Run(trace).At(t).Reading?
    ensures var pc, pc' := Run(trace).At(t), Run(trace + [(t, a)]).At(t);
      && !pc'.ReadLocked? && !pc'.Reading?
      && if BeforeStore(pc) && !BeforeStore(pc')
         then InstallLog(Run(trace + [(t, a)]).hist) == InstallLog(Run(trace).hist) + [pc.next]
         else
           && InstallLog(Run(trace + [(t, a)]).hist) == InstallLog(Run(trace).hist)
           && (BeforeStore(pc) <==> BeforeStore(pc'))
           && (BeforeStore(pc) ==> pc'.next == pc.next)
  {
    RunMore(trace, t, a);
    StepInstalls(Run(trace), t, a);
    hide Run, InstallLog;
  }

  lemma SwapKeeps(sys: System, a: Action, st: Snapshot, boot: seq<Option<DocsState>>, libs: Libs)
    requires InStep(sys, st, boot, libs)
    ensures InStep(Act(sys, Swap(a), libs), st, boot, libs)
  {
    if sys.phase.Swapping? && IsSwap(a) {
      var sys' := sys.(trace := sys.trace + [(sys.phase.t, a)]);
      SameRecorded(sys, sys'.trace, st, libs);
      SwapKeepsSwapper(sys, a);
      assert Done(sys') == Done(sys);
      var sofar := boot + Applied(st, Done(sys), libs);
      assert Fetched(sys.phase.remote, libs).Ok?;
      hide Run, InstalledStates, Recorded, Applied, Fetched, Done, Step, SwapInStep;
      SwapKeepsLog(sys, a, sofar, Fetched(sys.phase.remote, libs).value);
      hide OneSwapper;
    }
  }

  lemma SwapKeepsSwapper(sys: System, a: Action)
    requires OneSwapper(sys) && sys.phase.Swapping? && IsSwap(a)
    ensures OneSwapper(sys.(trace := sys.trace + [(sys.phase.t, a)]))
  {
    StepBeside(sys.trace, sys.phase.t, a);
    SwapStep(sys.trace, sys.phase.t, a);
    hide Run, InstallLog;
  }

  lemma SwapKeepsLog(sys: System, a: Action, sofar: seq<Option<DocsState>>, state: DocsState)
    requires sys.phase.Swapping? && IsSwap(a) && OneSwapper(sys) && SwapInStep(sys, sofar, state)
    ensures SwapInStep(sys.(trace := sys.trace + [(sys.phase.t, a)]), sofar, state)
  {
    hide Run, Step, InstallLog, DerefAll;
    var t, pc := sys.phase.t, Run(sys.trace).At(sys.phase.t);
    SwapStep(sys.trace, t, a);
    hide OneSwapper;
    if BeforeStore(pc) {
      DerefAllAppend(InstallLog(Run(sys.trace).hist), pc.next, StoreOf(sys.store));
      if !BeforeStore(Run(sys.trace + [(t, a)]).At(t)) {
        assert Deref(pc.next, StoreOf(sys.store)) == Some(state);
      }
    }
  }

  lemma BuildStep(trace: Schedule, t: Tid)
    requires Run(trace).At(t).Idle?
    ensures var s, s' := Run(trace), Run(trace + [(t, Build(true))]);
      s'.At(t) == Prepared(Ptr(s.built)) && s'.built == s.built + 1 && InstallLog(s'.hist) == InstallLog(s.hist)
  {
    RunMore(trace, t, Build(true));
    StepInstalls(Run(trace), t, Build(true));
    hide Run, InstallLog;
  }

  lemma FetchKeeps(sys: System, st: Snapshot, boot: seq<Option<DocsState>>, libs: Libs)
    requires InStep(sys, st, boot, libs)
    ensures InStep(Act(sys, Fetch, libs), st, boot, libs)
  {
    hide InstallLog, Fetched, Applied, AfterAll, DerefAll;
    if sys.phase.Fetching? {
      var t, remote := sys.phase.t, sys.phase.remote;
      if Fetched(remote, libs).Ok? {
        StepBeside(sys.trace, t, Build(true));
        BuildStep(sys.trace, t);
        LogIsBuilt(sys.trace);
        StoreMore(InstallLog(Run(sys.trace).hist), sys.store, Fetched(remote, libs).value);
        hide Run;
        assert OneSwapper(Act(sys, Fetch, libs));
        hide OneSwapper;
      } else {
        EndKeeps(sys, sys.hash, sys.fetches + 1, sys.failures + 1, st, boot, libs);
      }
    }
  }

  /** The call in progress gives the mutex back. */
  function Ended(sys: System, hash: string, fetches: nat, failures: nat): System {
    sys.(phase := Free, hash := hash, fetches := fetches, failures := failures)
  }

  /** When a call ends as it would alone, the system is in step with one more call. */
  lemma EndKeeps(sys: System, hash: string, fetches: nat, failures: nat, st: Snapshot, boot: seq<Option<DocsState>>, libs: Libs)
    requires InStep(sys, st, boot, libs) && !sys.phase.Free?
    requires sys.phase.Swapping? ==> Run(sys.trace).At(sys.phase.t).Idle?
    requires var done := AfterAll(st, Done(sys), libs);
      var after := After(done, sys.phase.remote, libs);
      && hash == after.hash && fetches == after.fetches && failures == after.failures
      && (sys.phase.Swapping? <==> Applies(done, sys.phase.remote, libs))
    ensures InStep(Ended(sys, hash, fetches, failures), st, boot, libs)
  {
    EndKeepsSwapper(sys, hash, fetches, failures);
    EndKeepsRecord(sys, hash, fetches, failures, st, libs);
    EndKeepsLog(sys, hash, fetches, failures, st, boot, libs);
    hide OneSwapper, Recorded, LogInStep, Run;
  }

  lemma EndKeepsRecord(sys: System, hash: string, fetches: nat, failures: nat, st: Snapshot, libs: Libs)
    requires Recorded(sys, st, libs) && !sys.phase.Free?
    requires var after := After(AfterAll(st, Done(sys), libs), sys.phase.remote, libs);
      hash == after.hash && fetches == after.fetches && failures == after.failures
    ensures Recorded(Ended(sys, hash, fetches, failures), st, libs)
  {
    hide AfterAll, After, Applied, Done, Applies, NewCommit, Fetched;
    DoneAtEnd(sys, hash, fetches, failures);
    AppliedMore(st, Done(sys), sys.phase.remote, libs);
  }

  lemma DoneAtEnd(sys: System, hash: string, fetches: nat, failures: nat)
    ensures Done(Ended(sys, hash, fetches, failures)) == sys.calls
  {
  }

  lemma EndKeepsLog(sys: System, hash: string, fetches: nat, failures: nat, st: Snapshot, boot: seq<Option<DocsState>>, libs: Libs)
    requires LogInStep(sys, st, boot, libs) && !sys.phase.Free? && sys.calls == Done(sys) + [sys.phase.remote]
    requires sys.phase.Swapping? ==> Run(sys.trace).At(sys.phase.t).Idle?
    requires sys.phase.Swapping? <==> Applies(AfterAll(st, Done(sys), libs), sys.phase.remote, libs)
    ensures LogInStep(Ended(sys, hash, fetches, failures), st, boot, libs)
  {
    hide AfterAll, After, Applied, Done, NewCommit, Fetched, InstalledStates, Run;
    var sys' := Ended(sys, hash, fetches, failures);
    DoneAtEnd(sys, hash, fetches, failures);
    AppliedMore(st, Done(sys), sys.phase.remote, libs);
    SameInstalled(sys, sys');
  }

  lemma EndKeepsSwapper(sys: System, hash: string, fetches: nat, failures: nat)
    requires OneSwapper(sys) && (sys.phase.Swapping? ==> Run(sys.trace).At(sys.phase.t).Idle?)
    ensures OneSwapper(Ended(sys, hash, fetches, failures))
  {
    hide Run;
  }

  /** What one more call adds. */
  lemma AppliedMore(st: Snapshot, remotes: seq<Remote>, remote: Remote, libs: Libs)
    ensures AfterAll(st, remotes + [remote], libs) == After(AfterAll(st, remotes, libs), remote, libs)
    ensures Applied(st, remotes + [remote], libs) == Applied(st, remotes, libs) +
      if Applies(AfterAll(st, remotes, libs), remote, libs) then [Some(Fetched(remote, libs).value)] else []
  {
    hide After, Applies, Fetched;
    assert (remotes + [remote])[..|remotes|] == remotes;
  }

  lemma EnterKeeps(sys: System, t: Tid, remote: Remote, st: Snapshot, boot: seq<Option<DocsState>>, libs: Libs)
    requires InStep(sys, st, boot, libs)
    ensures InStep(Act(sys, Enter(t, remote), libs), st, boot, libs)
  {
    hide InstallLog, Fetched, Run, DerefAll, Applied, AfterAll;
    if sys.phase.Free? {
      assert (sys.calls + [remote])[..|sys.calls|] == sys.calls;
    }
  }

  lemma CheckKeeps(sys: System, st: Snapshot, boot: seq<Option<DocsState>>, libs: Libs)
    requires InStep(sys, st, boot, libs)
    ensures InStep(Act(sys, Check, libs), st, boot, libs)
  {
    hide InstallLog, Fetched, Run, DerefAll, Applied, AfterAll, InstalledStates;
    if sys.phase.Checking? {
      var done, remote := AfterAll(st, Done(sys), libs), sys.phase.remote;
      if NewCommit(done, remote) {
        var sys' := Act(sys, Check, libs);
        assert InstalledStates(sys') == InstalledStates(sys) by { SameInstalled(sys, sys'); }
      } else {
        EndKeeps(sys, sys.hash, sys.fetches, sys.failures + (if Fails(done, remote, libs) then 1 else 0), st, boot, libs);
      }
    }
  }

  lemma SameInstalled(sys: System, sys': System)
    requires sys'.trace == sys.trace && sys'.store == sys.store
    ensures InstalledStates(sys') == InstalledStates(sys)
  {
  }

  lemma FinishKeeps(sys: System, st: Snapshot, boot: seq<Option<DocsState>>, libs: Libs)
    requires InStep(sys, st, boot, libs)
    ensures InStep(Act(sys, Finish, libs), st, boot, libs)
  {
    hide InstallLog, Fetched, Run, DerefAll, Applied, AfterAll, InstalledStates, LogInStep;
    if sys.phase.Swapping? && Run(sys.trace).At(sys.phase.t).Idle? {
      EndKeeps(sys, sys.phase.remote.refs.value[MAIN], sys.fetches, sys.failures, st, boot, libs);
    }
  }

  /** What start-up executes installs one state. */
  lemma BootRun(boot: Boot)
    requires !boot.NoDocs?
    ensures var s, next := Run(BootTrace(boot)), if boot.Loaded? then Ptr(0) else Nil;
      && s.hist == [Install(next)] && s.built == (if boot.Loaded? then 1 else 0)
      && forall u: Tid :: s.At(u).Idle?
  {
    var built := Step(INIT, 0, Build(boot.Loaded?));
    SwapAlone(built, 0);
    var more := [(0, Lock), (0, LoadOld), (0, Store), (0, Unlock), (0, CloseOld)];
    assert BootTrace(boot)[1..] == more;
    RunInTwoParts([], BootTrace(boot));
    assert [] + BootTrace(boot) == BootTrace(boot);
    hide Step;
    assert Run([]) == INIT;
    assert Run(BootTrace(boot)) == RunFrom(built, more);
  }

  lemma StartKeeps(boot: Boot, hash: string, libs: Libs)
    ensures InStep(Started(boot, hash), BootSnapshot(boot, hash), BootStates(boot), libs)
  {
    var sys := Started(boot, hash);
    if !boot.NoDocs? {
      BootRun(boot);
      hide Run;
      var next := if boot.Loaded? then Ptr(0) else Nil;
      assert InstallLog([Install(next)]) == [next];
      assert DerefAll([next], StoreOf(sys.store)) == BootStates(boot);
    }
  }

  /** After every run of the system. */
  lemma {:induction false} AlwaysInStep(boot: Boot, hash: string, moves: seq<Move>, libs: Libs)
    ensures var sys := Runs(boot, hash, moves, libs);
      InStep(sys, BootSnapshot(boot, hash), BootStates(boot), libs)
  {
    var st, states := BootSnapshot(boot, hash), BootStates(boot);
    if moves == [] {
      StartKeeps(boot, hash, libs);
    } else {
      hide InStep, Act;
      var init, m := moves[..|moves| - 1], moves[|moves| - 1];
      AlwaysInStep(boot, hash, init, libs);
      var sys := Runs(boot, hash, init, libs);
      match m
      case Reader(t, a) => ReaderKeeps(sys, t, a, st, states, libs);
      case Swap(a) => SwapKeeps(sys, a, st, states, libs);
      case Fetch => FetchKeeps(sys, st, states, libs);
      case Enter(t, remote) => EnterKeeps(sys, t, remote, st, states, libs);
      case Check => CheckKeeps(sys, st, states, libs);
      case Finish => FinishKeeps(sys, st, states, libs);
    }
  }

  // ----- What every run of the system guarantees

  /** The installs of any run are those of start-up and of the calls of `Update`, in the order in
      which these took the mutex. */
  lemma InstallsFollowCalls(boot: Boot, hash: string, moves: seq<Move>, libs: Libs)
    ensures var sys := Runs(boot, hash, moves, libs);
      InstalledByUpdates(Run(sys.trace).hist, StoreOf(sys.store), BootStates(boot),
                         BootSnapshot(boot, hash), sys.calls, libs)
  {
    AlwaysInStep(boot, hash, moves, libs);
    var sys, st := Runs(boot, hash, moves, libs), BootSnapshot(boot, hash);
    hide Runs, Run, Applied, AfterAll, Applies, Fetched, InstallLog, DerefAll, OneSwapper;
    if !sys.phase.Free? {
      AppliedMore(st, Done(sys), sys.phase.remote, libs);
    }
  }

  /** While no call has the mutex, everything that can be observed of updater and container is what
      the calls so far, made one after the other, would have left: hash, counters, current state,
      closed states and number of swaps, no matter how calls and readers interleaved. */
  lemma CallsAmountToSequence(boot: Boot, hash: string, moves: seq<Move>, libs: Libs)
    requires Runs(boot, hash, moves, libs).phase.Free?
    ensures var sys := Runs(boot, hash, moves, libs);
      var st := AfterAll(BootSnapshot(boot, hash), sys.calls, libs);
      && sys.hash == st.hash && sys.fetches == st.fetches && sys.failures == st.failures
      && ContainerIs(Run(sys.trace), StoreOf(sys.store), st)
  {
    AlwaysInStep(boot, hash, moves, libs);
    var sys, st := Runs(boot, hash, moves, libs), BootSnapshot(boot, hash);
    BootIsSwap(boot, hash);
    hide Runs, Run, Applied, AfterAll, Applies, Fetched, InstallLog, DerefAll, SwapAll;
    assert forall t: Tid :: Passive(Run(sys.trace).At(t));
    QuiescentServerIsUpdaters(sys.trace, StoreOf(sys.store), BootStates(boot), st, sys.calls, libs);
    hide ContainerIs;
  }

  lemma BootIsSwap(boot: Boot, hash: string)
    ensures ServerOf(BootSnapshot(boot, hash)) == SwapAll(NEW_SERVER, BootStates(boot))
    ensures StartedWith(BootStates(boot), BootSnapshot(boot, hash))
  {
    var states := BootStates(boot);
    if states != [] {
      assert states[..0] == [];
    }
  }

  /** In any run, every use sees nothing, the state of start-up, or what the call of `Update` that
      installed last before it has fetched. */
  lemma EveryUseSeesUpdate(boot: Boot, hash: string, moves: seq<Move>, libs: Libs, k: nat)
    requires var hist := Run(Runs(boot, hash, moves, libs).trace).hist; k < |hist| && hist[k].Use?
    ensures var sys := Runs(boot, hash, moves, libs);
      var hist := Run(sys.trace).hist;
      UseSeesUpdate(Deref(hist[k].ds, StoreOf(sys.store)), |InstallLog(hist[..k])|, BootStates(boot),
                    BootSnapshot(boot, hash), sys.calls, libs)
  {
    var sys := Runs(boot, hash, moves, libs);
    InstallsFollowCalls(boot, hash, moves, libs);
    BootIsSwap(boot, hash);
    hide Runs, Run, InstalledByUpdates, UseSeesUpdate, StartedWith;
    UsesSeeUpdates(sys.trace, k, StoreOf(sys.store), BootStates(boot), BootSnapshot(boot, hash), sys.calls, libs);
  }

  lemma {:induction false} TraceGrows(boot: Boot, hash: string, moves: seq<Move>, more: seq<Move>, libs: Libs)
    ensures Runs(boot, hash, moves, libs).trace <= Runs(boot, hash, moves + more, libs).trace
    decreases |more|
  {
    if more == [] {
      assert moves + more == moves;
    } else {
      var init := more[..|more| - 1];
      TraceGrows(boot, hash, moves, init, libs);
      assert (moves + more)[..|moves + more| - 1] == moves + init;
      hide Fetched, Run;
    }
  }

  lemma {:induction false} HistGrows(sched: Schedule, more: Schedule)
    ensures Run(sched).hist <= Run(sched + more).hist
    decreases |more|
  {
    if more == [] {
      assert sched + more == sched;
    } else {
      var init, last := more[..|more| - 1], more[|more| - 1];
      HistGrows(sched, init);
      assert sched + more == (sched + init) + [last];
      RunMore(sched + init, last.0, last.1);
      StepEmits(Run(sched + init), last.0, last.1);
      hide Run, Step;
    }
  }

  /** A finished call is visible: a use after it is preceded by the installs of that call and of all
      calls before it, so that it sees what the last of these to apply has fetched, or a later one. */
  lemma FinishedCallsAreSeen(
      boot: Boot, hash: string, moves: seq<Move>, more: seq<Move>, libs: Libs, k: nat)
    requires Runs(boot, hash, moves, libs).phase.Free?
    requires var hist := Run(Runs(boot, hash, moves + more, libs).trace).hist;
      |Run(Runs(boot, hash, moves, libs).trace).hist| <= k < |hist| && hist[k].Use?
    ensures var hist := Run(Runs(boot, hash, moves + more, libs).trace).hist;
      |InstallLog(hist[..k])| >=
        |BootStates(boot)| + |Applied(BootSnapshot(boot, hash), Runs(boot, hash, moves, libs).calls, libs)|
  {
    var sys, sys' := Runs(boot, hash, moves, libs), Runs(boot, hash, moves + more, libs);
    AlwaysInStep(boot, hash, moves, libs);
    TraceGrows(boot, hash, moves, more, libs);
    hide Runs, Applied, AfterAll, Applies, Fetched, InstallLog, OneSwapper, Recorded;
    var rest := sys'.trace[|sys.trace|..];
    assert sys'.trace == sys.trace + rest;
    HistGrows(sys.trace, rest);
    hide Run;
    var hist, hist' := Run(sys.trace).hist, Run(sys'.trace).hist;
    assert hist'[..k][..|hist|] == hist;
    InstallLogOfPrefix(hist'[..k], |hist|);
  }

  /** A statement that brings some goroutine nearer to its end: of the call that has the mutex, or
      of a reader that has started. */
  ghost predicate Proceeds(sys: System, m: Move, libs: Libs) {
    match m
    case Enter(_, _) => false
    case Reader(t, a) => IsReader(a) && !Holds(sys.phase, t) && Advances(Run(sys.trace), t, a)
    case Swap(a) => sys.phase.Swapping? && IsSwap(a) && Advances(Run(sys.trace), sys.phase.t, a)
    case _ => Act(sys, m, libs).phase != sys.phase
  }

  /** In every run: while a call has the mutex, it or a reader that holds the lock can proceed. */
  lemma CallsNeverStuck(boot: Boot, hash: string, moves: seq<Move>, libs: Libs)
    requires !Runs(boot, hash, moves, libs).phase.Free?
    ensures exists m :: Proceeds(Runs(boot, hash, moves, libs), m, libs)
  {
    AlwaysInStep(boot, hash, moves, libs);
    var sys := Runs(boot, hash, moves, libs);
    hide Runs, LogInStep, Fetched, AfterAll;
    if sys.phase.Checking? {
      assert Proceeds(sys, Check, libs);
    } else if sys.phase.Fetching? {
      assert Proceeds(sys, Fetch, libs);
    } else if Run(sys.trace).At(sys.phase.t).Idle? {
      assert Proceeds(sys, Finish, libs);
    } else {
      NeverStuck(sys.trace);
      hide Run;
      var s := Run(sys.trace);
      var t: Tid :| !s.At(t).Idle? && Advances(s, t, Next(s.At(t)));
      if t == sys.phase.t {
        assert Proceeds(sys, Swap(Next(s.At(t))), libs);
      } else {
        assert Passive(s.At(t));
        assert Proceeds(sys, Reader(t, Next(s.At(t))), libs);
      }
    }
  }

  // ----- Calls and readers get through

  lemma {:induction false} MoreMoves(boot: Boot, hash: string, moves: seq<Move>, m: Move, libs: Libs)
    ensures Runs(boot, hash, moves + [m], libs) == Act(Runs(boot, hash, moves, libs), m, libs)
  {
    assert (moves + [m])[..|moves|] == moves;
  }

  const SWAP_MOVES: seq<Move> := [Swap(Lock), Swap(LoadOld), Swap(Store), Swap(Unlock), Swap(CloseOld)]

  /** The moves of one call of `Update` by `t`; when the call ends early, those that are left do
      nothing. */
  function CallMoves(t: Tid, remote: Remote): seq<Move> {
    [Enter(t, remote), Check, Fetch] + (SWAP_MOVES + [Finish])
  }

  function ActAll(sys: System, moves: seq<Move>, libs: Libs): System
    decreases |moves|
  {
    if moves == [] then sys else ActAll(Act(sys, moves[0], libs), moves[1..], libs)
  }

  lemma {:induction false} RunsInTwoParts(boot: Boot, hash: string, moves: seq<Move>, more: seq<Move>, libs: Libs)
    ensures Runs(boot, hash, moves + more, libs) == ActAll(Runs(boot, hash, moves, libs), more, libs)
    decreases |more|
  {
    hide Act;
    if more == [] {
      assert moves + more == moves;
    } else {
      MoreMoves(boot, hash, moves, more[0], libs);
      assert moves + [more[0]] + more[1..] == moves + more;
      RunsInTwoParts(boot, hash, moves + [more[0]], more[1..], libs);
    }
  }

  /** A goroutine outside the mutex can read at any time when nobody holds the write lock, a call of
      `Update` in progress or not. */
  lemma ReadersGetThrough(boot: Boot, hash: string, moves: seq<Move>, libs: Libs, t: Tid)
    requires var sys := Runs(boot, hash, moves, libs);
      !Holds(sys.phase, t) && Run(sys.trace).writer == {} && Run(sys.trace).At(t).Idle?
    ensures var sys := Runs(boot, hash, moves, libs);
      var sys' := Runs(boot, hash, moves + [Reader(t, RLock), Reader(t, Load), Reader(t, Read), Reader(t, RUnlock)], libs);
      && Run(sys'.trace).hist == Run(sys.trace).hist + [Use(t, Run(sys.trace).docs)]
      && Run(sys'.trace).At(t).Idle? && sys' == sys.(trace := sys'.trace)
  {
    hide Fetched;
    var sys := Runs(boot, hash, moves, libs);
    var more := [Reader(t, RLock), Reader(t, Load), Reader(t, Read), Reader(t, RUnlock)];
    RunsInTwoParts(boot, hash, moves, more, libs);
    hide Runs;
    CanReadNow(sys.trace, t);
    FourReads(sys, t, libs);
    hide Run;
  }

  lemma FourReads(sys: System, t: Tid, libs: Libs)
    requires !Holds(sys.phase, t)
    ensures ActAll(sys, [Reader(t, RLock), Reader(t, Load), Reader(t, Read), Reader(t, RUnlock)], libs)
         == sys.(trace := sys.trace + [(t, RLock), (t, Load), (t, Read), (t, RUnlock)])
  {
    hide Run, Fetched;
    var more := [Reader(t, RLock), Reader(t, Load), Reader(t, Read), Reader(t, RUnlock)];
    var s1 := Act(sys, more[0], libs);
    var s2 := Act(s1, more[1], libs);
    var s3 := Act(s2, more[2], libs);
    var s4 := Act(s3, more[3], libs);
    var last := [more[3]];
    assert more[1..][1..] == [more[2], more[3]] && [more[2], more[3]][1..] == last && last[1..] == [];
    assert ActAll(sys, more, libs) == ActAll(s2, [more[2], more[3]], libs);
    assert ActAll(s2, [more[2], more[3]], libs) == ActAll(s3, last, libs);
    assert ActAll(s3, last, libs) == s4;
    assert s4.trace == sys.trace + [(t, RLock), (t, Load), (t, Read), (t, RUnlock)];
  }

  lemma {:induction false} ActAllInTwoParts(sys: System, a: seq<Move>, b: seq<Move>, libs: Libs)
    ensures ActAll(sys, a + b, libs) == ActAll(ActAll(sys, a, libs), b, libs)
    decreases |a|
  {
    hide Act;
    if a == [] {
      assert a + b == b;
    } else {
      assert (a + b)[1..] == a[1..] + b;
      ActAllInTwoParts(Act(sys, a[0], libs), a[1..], b, libs);
    }
  }

  lemma {:induction false} NothingLeftToDo(sys: System, moves: seq<Move>, libs: Libs)
    requires sys.phase.Free? && forall m :: m in moves ==> !m.Enter? && !m.Reader?
    ensures ActAll(sys, moves, libs) == sys
    decreases |moves|
  {
    if moves != [] {
      assert moves[0] in moves;
      NothingLeftToDo(sys, moves[1..], libs);
    }
  }

  lemma {:induction false} SwapActions(sys: System, actions: seq<Action>, libs: Libs)
    requires sys.phase.Swapping? && forall a :: a in actions ==> IsSwap(a)
    ensures ActAll(sys, seq(|actions|, i requires 0 <= i < |actions| => Swap(actions[i])), libs)
         == sys.(trace := sys.trace + seq(|actions|, i requires 0 <= i < |actions| => (sys.phase.t, actions[i])))
    decreases |actions|
  {
    hide Run, Fetched;
    var moves := seq(|actions|, i requires 0 <= i < |actions| => Swap(actions[i]));
    var steps := seq(|actions|, i requires 0 <= i < |actions| => (sys.phase.t, actions[i]));
    if actions == [] {
      assert sys.trace + steps == sys.trace;
    } else {
      var rest := actions[1..];
      assert moves[1..] == seq(|rest|, i requires 0 <= i < |rest| => Swap(rest[i]));
      var sys' := Act(sys, moves[0], libs);
      SwapActions(sys', rest, libs);
      assert sys.trace + steps
        == sys'.trace + seq(|rest|, i requires 0 <= i < |rest| => (sys.phase.t, rest[i]));
    }
  }

  lemma SwapTrace(sys: System, libs: Libs)
    requires sys.phase.Swapping?
    ensures var t := sys.phase.t;
      ActAll(sys, SWAP_MOVES, libs)
        == sys.(trace := sys.trace + [(t, Lock), (t, LoadOld), (t, Store), (t, Unlock), (t, CloseOld)])
  {
    hide Act;
    var actions := [Lock, LoadOld, Store, Unlock, CloseOld];
    var t := sys.phase.t;
    SwapActions(sys, actions, libs);
    assert SWAP_MOVES == seq(|actions|, i requires 0 <= i < |actions| => Swap(actions[i]));
    assert [(t, Lock), (t, LoadOld), (t, Store), (t, Unlock), (t, CloseOld)]
        == seq(|actions|, i requires 0 <= i < |actions| => (t, actions[i]));
  }

  /** The first three moves: the call ends, or its goroutine is about to swap. */
  lemma CallUntilSwap(sys: System, t: Tid, remote: Remote, libs: Libs)
    requires sys.phase.Free? && Run(sys.trace).At(t).Idle?
    ensures var sys' := ActAll(sys, [Enter(t, remote), Check, Fetch], libs);
      && sys'.calls == sys.calls + [remote]
      && if sys'.phase.Free? then sys'.trace == sys.trace
         else
           && sys'.phase == Swapping(t, remote) && sys'.trace == sys.trace + [(t, Build(true))]
           && remote.refs.Some? && MAIN in remote.refs.value
  {
    hide Run, Fetched;
    var moves := [Enter(t, remote), Check, Fetch];
    var s1 := Act(sys, moves[0], libs);
    var s2 := Act(s1, moves[1], libs);
    var s3 := Act(s2, moves[2], libs);
    var last := [moves[2]];
    assert moves[1..][1..] == last && last[1..] == [];
    assert ActAll(sys, moves, libs) == ActAll(s2, last, libs) == s3;
  }

  /** With the lock free, the swap leaves the goroutine idle again. */
  lemma SwapEndsIdle(trace: Schedule, t: Tid)
    requires Run(trace).At(t).Idle? && Run(trace).writer == {} && Run(trace).readers == {}
    ensures Run(trace + [(t, Build(true))] + [(t, Lock), (t, LoadOld), (t, Store), (t, Unlock), (t, CloseOld)]).At(t).Idle?
  {
    RunMore(trace, t, Build(true));
    var built := trace + [(t, Build(true))];
    SwapAlone(Run(built), t);
    RunInTwoParts(built, [(t, Lock), (t, LoadOld), (t, Store), (t, Unlock), (t, CloseOld)]);
    hide Run, RunFrom;
  }

  lemma CallEnds(sys: System, t: Tid, remote: Remote, libs: Libs)
    requires sys.phase.Free? && Run(sys.trace).At(t).Idle?
    requires Run(sys.trace).writer == {} && Run(sys.trace).readers == {}
    ensures var sys' := ActAll(sys, CallMoves(t, remote), libs);
      sys'.phase.Free? && sys'.calls == sys.calls + [remote]
  {
    hide Fetched;
    var first, rest := [Enter(t, remote), Check, Fetch], SWAP_MOVES + [Finish];
    ActAllInTwoParts(sys, first, rest, libs);
    CallUntilSwap(sys, t, remote, libs);
    var mid := ActAll(sys, first, libs);
    hide Act;
    if mid.phase.Free? {
      NothingLeftToDo(mid, rest, libs);
    } else {
      ActAllInTwoParts(mid, SWAP_MOVES, [Finish], libs);
      SwapTrace(mid, libs);
      SwapEndsIdle(sys.trace, t);
      FinishEnds(ActAll(mid, SWAP_MOVES, libs), libs);
    }
  }

  lemma FinishEnds(sys: System, libs: Libs)
    requires sys.phase.Swapping? && Run(sys.trace).At(sys.phase.t).Idle?
    requires sys.phase.remote.refs.Some? && MAIN in sys.phase.remote.refs.value
    ensures var sys' := ActAll(sys, [Finish], libs);
      sys'.phase.Free? && sys'.calls == sys.calls
  {
    hide Run, Fetched;
    assert [Finish][1..] == [];
  }

  /** With the mutex free and no reader inside, any idle goroutine can make a call of `Update`, which
      undisturbed leaves exactly what that call leaves when made alone. */
  lemma CallsGetThrough(boot: Boot, hash: string, moves: seq<Move>, libs: Libs, t: Tid, remote: Remote)
    requires var sys := Runs(boot, hash, moves, libs);
      sys.phase.Free? && Run(sys.trace).At(t).Idle? && Run(sys.trace).readers == {}
    ensures var sys, sys' := Runs(boot, hash, moves, libs), Runs(boot, hash, moves + CallMoves(t, remote), libs);
      var st := After(AfterAll(BootSnapshot(boot, hash), sys.calls, libs), remote, libs);
      && sys'.phase.Free? && sys'.calls == sys.calls + [remote]
      && sys'.hash == st.hash && sys'.fetches == st.fetches && sys'.failures == st.failures
      && ContainerIs(Run(sys'.trace), StoreOf(sys'.store), st)
  {
    var sys := Runs(boot, hash, moves, libs);
    FreeHasNoWriter(boot, hash, moves, libs);
    RunsInTwoParts(boot, hash, moves, CallMoves(t, remote), libs);
    CallEnds(sys, t, remote, libs);
    CallsAmountToSequence(boot, hash, moves + CallMoves(t, remote), libs);
    AppliedMore(BootSnapshot(boot, hash), sys.calls, remote, libs);
    hide Runs, Run, ActAll, AfterAll, After, ContainerIs, Applied, Applies;
  }

  lemma FreeHasNoWriter(boot: Boot, hash: string, moves: seq<Move>, libs: Libs)
    requires Runs(boot, hash, moves, libs).phase.Free?
    ensures Run(Runs(boot, hash, moves, libs).trace).writer == {}
  {
    AlwaysInStep(boot, hash, moves, libs);
    var sys := Runs(boot, hash, moves, libs);
    Reachable(sys.trace);
    hide Runs, Run, Recorded, LogInStep, OwnerInv, NoneForgotten, HistInv;
    assert forall u: Tid :: Passive(Run(sys.trace).At(u));
  }
}
