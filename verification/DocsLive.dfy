/** The locking protocol and the updater together: concurrent swaps amount to swaps made one after
    the other, and readers see what the updates installed. */
module DocsLive {
  import opened Text
  import opened DocsProtocol
  import opened DocsSafety
  import opened DocsIndex
  import opened DocsHandlers
  import opened Updater

  // ----- Swaps made one after the other

  const NEW_SERVER := Server(None, [], 0)

  function SwapAll(sv: Server, states: seq<Option<DocsState>>): Server {
    if states == [] then sv
    else Swapped(SwapAll(sv, states[..|states| - 1]), states[|states| - 1])
  }

  lemma SwapAllAppend(sv: Server, states: seq<Option<DocsState>>, state: Option<DocsState>)
    ensures SwapAll(sv, states + [state]) == Swapped(SwapAll(sv, states), state)
  {
    assert (states + [state])[..|states|] == states;
  }

  lemma {:induction false} SwapAllInTwoParts(sv: Server, a: seq<Option<DocsState>>, b: seq<Option<DocsState>>)
    ensures SwapAll(sv, a + b) == SwapAll(SwapAll(sv, a), b)
  {
    if b == [] {
      assert a + b == a;
    } else {
      var init, last := b[..|b| - 1], b[|b| - 1];
      SwapAllInTwoParts(sv, a, init);
      assert a + b == a + init + [last];
      SwapAllAppend(sv, a + init, last);
    }
  }

  // ----- What a run installed

  /** The values installed, oldest first. */
  function InstallLog(hist: seq<Event>): seq<Docs> {
    if hist == [] then []
    else
      var e := hist[|hist| - 1];
      InstallLog(hist[..|hist| - 1]) + if e.Install? then [e.ds] else []
  }

  function Last(log: seq<Docs>): Docs {
    if log == [] then Nil else log[|log| - 1]
  }

  /** The indexes that a later install superseded, in order. */
  function Superseded(log: seq<Docs>): seq<nat> {
    if log == [] then []
    else
      var before := log[..|log| - 1];
      Superseded(before) + if Last(before).Ptr? then [Last(before).id] else []
  }

  function DerefAll(log: seq<Docs>, store: nat -> DocsState): seq<Option<DocsState>> {
    seq(|log|, i requires 0 <= i < |log| => Deref(log[i], store))
  }

  function StatesOf(ids: seq<nat>, store: nat -> DocsState): seq<DocsState> {
    seq(|ids|, i requires 0 <= i < |ids| => store(ids[i]))
  }

  /** Swapping the states behind a log one after the other. */
  lemma {:induction false} SwapLog(log: seq<Docs>, store: nat -> DocsState)
    ensures SwapAll(NEW_SERVER, DerefAll(log, store))
         == Server(Deref(Last(log), store), StatesOf(Superseded(log), store), |log|)
  {
    if log != [] {
      var init, ds := log[..|log| - 1], log[|log| - 1];
      SwapLog(init, store);
      assert DerefAll(log, store) == DerefAll(init, store) + [Deref(ds, store)];
      SwapAllAppend(NEW_SERVER, DerefAll(init, store), Deref(ds, store));
      if Last(init).Ptr? {
        assert StatesOf(Superseded(init) + [Last(init).id], store)
            == StatesOf(Superseded(init), store) + [store(Last(init).id)];
      }
    }
  }

  /** The register holds what was installed last. */
  lemma {:induction false} RegisterIsLast(hist: seq<Event>)
    ensures Register(hist) == Last(InstallLog(hist))
  {
    if hist != [] {
      RegisterIsLast(hist[..|hist| - 1]);
    }
  }

  lemma {:induction false} InstallLogHolds(hist: seq<Event>, ds: Docs)
    ensures ds in InstallLog(hist) <==> Install(ds) in hist
  {
    if hist != [] {
      InstallLogHolds(hist[..|hist| - 1], ds);
      assert hist == hist[..|hist| - 1] + [hist[|hist| - 1]];
    }
  }

  /** No index occurs twice in a log. */
  ghost predicate Distinct(log: seq<Docs>) {
    forall j, k :: 0 <= j < k < |log| && log[j] == log[k] ==> log[j] == Nil
  }

  lemma {:induction false} OnceIsDistinct(hist: seq<Event>)
    requires Once(hist)
    ensures Distinct(InstallLog(hist))
  {
    if hist != [] {
      var init, e := hist[..|hist| - 1], hist[|hist| - 1];
      assert forall j :: 0 <= j < |init| ==> init[j] == hist[j];
      OnceIsDistinct(init);
      if e.Install? && e.ds.Ptr? {
        InstallLogHolds(init, e.ds);
        assert e !in init;
      }
    }
  }

  lemma {:induction false} SupersededMeans(log: seq<Docs>)
    requires Distinct(log)
    ensures forall i: nat :: i in Superseded(log) <==> Ptr(i) in log && Last(log) != Ptr(i)
    ensures forall j, k :: 0 <= j < k < |Superseded(log)| ==> Superseded(log)[j] != Superseded(log)[k]
  {
    if log != [] {
      var init, ds := log[..|log| - 1], log[|log| - 1];
      assert log == init + [ds];
      assert forall j :: 0 <= j < |init| ==> init[j] == log[j];
      SupersededMeans(init);
      assert ds.Ptr? ==> ds !in init;
    }
  }

  // ----- Concurrent swaps

  ghost predicate AwaitsClose(s: State, i: nat) {
    exists t: Tid :: Stale(s.At(t)) == Ptr(i)
  }

  /** After every schedule, whatever the interleaving of swaps and readers: swapping the installed
      states one after the other leaves the same state current, and would have closed exactly the
      indexes that are closed or that the goroutine which superseded them is about to close. */
  lemma SwapsAmountToSequence(sched: Schedule, store: nat -> DocsState)
    ensures var s := Run(sched);
      var log := InstallLog(s.hist);
      && SwapAll(NEW_SERVER, DerefAll(log, store))
           == Server(Deref(s.docs, store), StatesOf(Superseded(log), store), |log|)
      && (forall i: nat :: i in Superseded(log) <==> Closed(s, i) || AwaitsClose(s, i))
      && (forall j, k :: 0 <= j < k < |Superseded(log)| ==> Superseded(log)[j] != Superseded(log)[k])
  {
    Reachable(sched);
    var s := Run(sched);
    var log := InstallLog(s.hist);
    SwapLog(log, store);
    RegisterIsLast(s.hist);
    OnceIsDistinct(s.hist);
    SupersededMeans(log);
    forall i: nat
      ensures i in Superseded(log) <==> Closed(s, i) || AwaitsClose(s, i)
    {
      InstallLogHolds(s.hist, Ptr(i));
      OnceSuperseded(s, i);
    }
  }

  /** An index was installed and is no longer current if and only if it is closed or somebody
      is about to close it. */
  lemma OnceSuperseded(s: State, i: nat)
    requires OwnerInv(s) && NoneForgotten(s)
    ensures Installed(s, i) && s.docs != Ptr(i) <==> Closed(s, i) || AwaitsClose(s, i)
  {
    hide Fresh, Stale, Closed, Installed;
    if Installed(s, i) {
      assert AccountedFor(s, i);
    }
  }

  /** The five statements of a swap by one goroutine, with nobody else holding the lock or taking
      a step in between: the effect is that of one swap. */
  lemma SwapAlone(s: State, t: Tid)
    requires s.At(t).Prepared? && s.writer == {} && s.readers == {}
    ensures var next := s.At(t).next;
      RunFrom(s, [(t, Lock), (t, LoadOld), (t, Store), (t, Unlock), (t, CloseOld)])
        == s.(docs := next, pcs := s.pcs[t := Idle],
              hist := s.hist + [Install(next)] + if s.docs.Ptr? then [Close(s.docs.id)] else [])
  {
    var next := s.At(t).next;
    var s1 := Step(s, t, Lock);
    var s2 := Step(s1, t, LoadOld);
    var s3 := Step(s2, t, Store);
    var s4 := Step(s3, t, Unlock);
    var s5 := Step(s4, t, CloseOld);
    assert s5.pcs == s.pcs[t := Idle];
    assert s5 == s.(docs := next, pcs := s.pcs[t := Idle],
                    hist := s.hist + [Install(next)] + if s.docs.Ptr? then [Close(s.docs.id)] else []);
    RunSteps(s, t);
  }

  lemma RunSteps(s: State, t: Tid)
    ensures RunFrom(s, [(t, Lock), (t, LoadOld), (t, Store), (t, Unlock), (t, CloseOld)])
         == Step(Step(Step(Step(Step(s, t, Lock), t, LoadOld), t, Store), t, Unlock), t, CloseOld)
  {
    hide Step;
    var more := [(t, Lock), (t, LoadOld), (t, Store), (t, Unlock), (t, CloseOld)];
    var s2 := Step(Step(s, t, Lock), t, LoadOld);
    assert more[1..] == [(t, LoadOld), (t, Store), (t, Unlock), (t, CloseOld)];
    assert more[1..][1..] == [(t, Store), (t, Unlock), (t, CloseOld)];
    assert RunFrom(s, more) == RunFrom(s2, more[1..][1..]);
    assert more[1..][1..][1..] == [(t, Unlock), (t, CloseOld)];
    assert RunFrom(s2, more[1..][1..]) == RunFrom(Step(Step(s2, t, Store), t, Unlock), [(t, CloseOld)]);
  }

  // ----- Updates

  function ServerOf(st: Snapshot): Server {
    Server(st.docs, st.closed, st.swaps)
  }

  /** What a sequence of update calls installs, oldest first. */
  function Applied(st: Snapshot, remotes: seq<Remote>, libs: Libs): seq<Option<DocsState>> {
    if remotes == [] then []
    else
      var init, last := remotes[..|remotes| - 1], remotes[|remotes| - 1];
      Applied(st, init, libs) +
      if Applies(AfterAll(st, init, libs), last, libs) then [Some(Fetched(last, libs).value)] else []
  }

  /** A sequence of update calls does to the container what the swaps of the applied ones do. */
  lemma {:induction false} UpdatesAmountToSwaps(st: Snapshot, remotes: seq<Remote>, libs: Libs)
    ensures ServerOf(AfterAll(st, remotes, libs)) == SwapAll(ServerOf(st), Applied(st, remotes, libs))
  {
    hide Fetched;
    if remotes != [] {
      var init, last := remotes[..|remotes| - 1], remotes[|remotes| - 1];
      UpdatesAmountToSwaps(st, init, libs);
      if Applies(AfterAll(st, init, libs), last, libs) {
        SwapAllAppend(ServerOf(st), Applied(st, init, libs), Some(Fetched(last, libs).value));
      } else {
        assert Applied(st, remotes, libs) == Applied(st, init, libs);
      }
    }
  }

  /** Call `n` applies, and is number `count` (from 0) among those that do. */
  ghost predicate AppliedAs(st: Snapshot, remotes: seq<Remote>, libs: Libs, n: nat, count: nat) {
    && n < |remotes| && Applies(Before(st, remotes, libs, n), remotes[n], libs)
    && |Applied(st, remotes[..n], libs)| == count
  }

  /** The list of what was installed, said by call. */
  lemma {:induction false} AppliedMeans(st: Snapshot, remotes: seq<Remote>, libs: Libs, k: nat) returns (n: nat)
    requires k < |Applied(st, remotes, libs)|
    ensures AppliedAs(st, remotes, libs, n, k)
    ensures Applied(st, remotes, libs)[k] == Some(Fetched(remotes[n], libs).value)
    ensures Applied(st, remotes, libs)[k] == AfterAll(st, remotes[..n + 1], libs).docs
    decreases |remotes|
  {
    hide Fetched, Applies;
    var last := |remotes| - 1;
    var init := remotes[..last];
    if k < |Applied(st, init, libs)| {
      hide After;
      n := AppliedMeans(st, init, libs, k);
      assert init[..n] == remotes[..n] && init[..n + 1] == remotes[..n + 1];
    } else {
      n := last;
      assert remotes[..n + 1] == remotes;
    }
  }

  // ----- Readers while updates happen

  /** What start-up installs, if anything, and the state that is current after it. */
  ghost predicate StartedWith(boot: seq<Option<DocsState>>, st: Snapshot) {
    (boot == [] && st.docs == None) || boot == [st.docs]
  }

  /** The run installed what start-up installs and then, in order, what these update calls install;
      the last of them may not have got there yet. */
  ghost predicate InstalledByUpdates(
      hist: seq<Event>, store: nat -> DocsState, boot: seq<Option<DocsState>>, st: Snapshot,
      remotes: seq<Remote>, libs: Libs)
  {
    DerefAll(InstallLog(hist), store) <= boot + Applied(st, remotes, libs)
  }

  lemma {:induction false} InstallLogOfPrefix(hist: seq<Event>, k: nat)
    requires k <= |hist|
    ensures InstallLog(hist[..k]) <= InstallLog(hist)
    decreases |hist|
  {
    if k == |hist| {
      assert hist[..k] == hist;
    } else {
      var init := hist[..|hist| - 1];
      InstallLogOfPrefix(init, k);
      assert init[..k] == hist[..k];
    }
  }

  /** What a use sees is decided by how many states were installed before it: what start-up left,
      or what the last call of `Update` to be installed has fetched. */
  lemma UsesSeeUpdates(
      sched: Schedule, k: nat, store: nat -> DocsState, boot: seq<Option<DocsState>>, st: Snapshot,
      remotes: seq<Remote>, libs: Libs)
    requires k < |Run(sched).hist| && Run(sched).hist[k].Use? && StartedWith(boot, st)
    requires InstalledByUpdates(Run(sched).hist, store, boot, st, remotes, libs)
    ensures var hist := Run(sched).hist;
      UseSeesUpdate(Deref(hist[k].ds, store), |InstallLog(hist[..k])|, boot, st, remotes, libs)
  {
    hide Fetched, Applied, After, Applies;
    ReadsAreAtomic(sched);
    var hist := Run(sched).hist;
    hide Run;
    var count := |InstallLog(hist[..k])|;
    UseSeesLogEntry(hist, k, store);
    if count > |boot| {
      var n := AppliedMeans(st, remotes, libs, count - |boot| - 1);
    }
  }

  /** After `count` installs a use sees nothing, the state of start-up, or what the call that made
      the last of these installs has fetched. */
  ghost predicate UseSeesUpdate(
      seen: Option<DocsState>, count: nat, boot: seq<Option<DocsState>>, st: Snapshot,
      remotes: seq<Remote>, libs: Libs)
  {
    if count == 0 then seen == None
    else if count <= |boot| then seen == st.docs
    else
      exists n: nat ::
        && AppliedAs(st, remotes, libs, n, count - |boot| - 1)
        && seen == Some(Fetched(remotes[n], libs).value) == AfterAll(st, remotes[..n + 1], libs).docs
  }

  lemma UseSeesLogEntry(hist: seq<Event>, k: nat, store: nat -> DocsState)
    requires Atomic(hist) && k < |hist| && hist[k].Use?
    ensures var seen, count := Deref(hist[k].ds, store), |InstallLog(hist[..k])|;
      && count <= |InstallLog(hist)|
      && seen == if count == 0 then None else DerefAll(InstallLog(hist), store)[count - 1]
  {
    RegisterIsLast(hist[..k]);
    InstallLogOfPrefix(hist, k);
  }

  /** Once everything is installed and no swap is in progress, the updater's view of the container
      is the container's: the same state is current, and the states closed are the ones that the
      calls, one after the other, would have closed. */
  lemma QuiescentServerIsUpdaters(
      sched: Schedule, store: nat -> DocsState, boot: seq<Option<DocsState>>, st: Snapshot,
      remotes: seq<Remote>, libs: Libs)
    requires ServerOf(st) == SwapAll(NEW_SERVER, boot)
    requires var s := Run(sched);
      && DerefAll(InstallLog(s.hist), store) == boot + Applied(st, remotes, libs)
      && forall t: Tid :: Stale(s.At(t)) == Nil
    ensures ContainerIs(Run(sched), store, AfterAll(st, remotes, libs))
  {
    hide Applied, Superseded, Closed;
    SwapsAmountToSequence(sched, store);
    UpdatesAmountToSwaps(st, remotes, libs);
    SwapAllInTwoParts(NEW_SERVER, boot, Applied(st, remotes, libs));
  }

  /** The current state, the closed states in the order of their replacement and the number of swaps
      are those of `st`. */
  ghost predicate ContainerIs(s: State, store: nat -> DocsState, st: Snapshot) {
    var ids := Superseded(InstallLog(s.hist));
    && st.docs == Deref(s.docs, store)
    && st.closed == StatesOf(ids, store)
    && st.swaps == |InstallLog(s.hist)|
    && forall i: nat :: i in ids <==> Closed(s, i)
  }
}
