/** What every interleaving of readers and swappers of the documentation state guarantees. */
module DocsSafety {
  import opened DocsProtocol

  // ----- No use of a closed index

  /** A search index is never closed while some reader that loaded it still holds the read
      lock, and no use of it follows its closing. */
  lemma NoReaderMeetsClosedIndex(sched: Schedule)
    ensures forall t, i: nat :: Run(sched).At(t) == Reading(Ptr(i)) ==> !Closed(Run(sched), i)
    ensures NoUseAfterClose(Run(sched).hist)
  {
    Reachable(sched);
  }

  /** The current index is open, and no index is installed twice or closed twice. */
  lemma CurrentIndexOpenAndClosesUnique(sched: Schedule)
    ensures forall i: nat :: Run(sched).docs == Ptr(i) ==> !Closed(Run(sched), i)
    ensures Once(Run(sched).hist)
  {
    Reachable(sched);
  }

  // ----- Conservation

  function Installs(hist: seq<Event>): nat {
    if hist == [] then 0
    else
      var e := hist[|hist| - 1];
      Installs(hist[..|hist| - 1]) + if e.Install? && e.ds.Ptr? then 1 else 0
  }

  function Closes(hist: seq<Event>): nat {
    if hist == [] then 0
    else Closes(hist[..|hist| - 1]) + if hist[|hist| - 1].Close? then 1 else 0
  }

  /** Goroutines that still have to install the index they built. */
  function Installing(s: State): set<Tid> {
    set t | t in s.pcs && Fresh(s.pcs[t]).Ptr?
  }

  /** Goroutines that still have to close the index they superseded. */
  function AwaitingClose(s: State): set<Tid> {
    set t | t in s.pcs && Stale(s.pcs[t]).Ptr?
  }

  function Current(s: State): nat {
    if s.docs.Ptr? then 1 else 0
  }

  lemma CountAppend(hist: seq<Event>, e: Event)
    ensures Installs(hist + [e]) == Installs(hist) + if e.Install? && e.ds.Ptr? then 1 else 0
    ensures Closes(hist + [e]) == Closes(hist) + if e.Close? then 1 else 0
  {
    assert (hist + [e])[..|hist|] == hist;
  }

  lemma SizeWithout(ts: set<Tid>, t: Tid)
    ensures |ts| == |ts - {t}| + if t in ts then 1 else 0
  {
    if t in ts {
      assert ts == (ts - {t}) + {t};
    } else {
      assert ts == ts - {t};
    }
  }

  /** Sets that agree away from `t` differ in size by whether they hold `t`. */
  lemma SizesAgree(ts: set<Tid>, us: set<Tid>, t: Tid)
    requires forall u :: u != t ==> (u in ts <==> u in us)
    ensures |ts| - (if t in ts then 1 else 0) == |us| - (if t in us then 1 else 0)
  {
    assert ts - {t} == us - {t};
    SizeWithout(ts, t);
    SizeWithout(us, t);
  }

  /** Moving one goroutine changes the two counts by what that goroutine holds. */
  lemma GotoCounts(s: State, s': State, t: Tid, pc: Pc)
    requires s'.pcs == s.pcs[t := pc]
    ensures |Installing(s')| - (if Fresh(pc).Ptr? then 1 else 0)
         == |Installing(s)| - (if Fresh(s.At(t)).Ptr? then 1 else 0)
    ensures |AwaitingClose(s')| - (if Stale(pc).Ptr? then 1 else 0)
         == |AwaitingClose(s)| - (if Stale(s.At(t)).Ptr? then 1 else 0)
  {
    SizesAgree(Installing(s), Installing(s'), t);
    SizesAgree(AwaitingClose(s), AwaitingClose(s'), t);
  }

  /** What one step does to the program counter and the event log. */
  lemma StepShape(s: State, t: Tid, a: Action)
    ensures var s' := Step(s, t, a);
      && (s'.pcs == s.pcs || s'.pcs == s.pcs[t := s'.At(t)])
      && (s'.hist == s.hist || (s'.hist != [] && s'.hist == s.hist + [s'.hist[|s'.hist| - 1]]))
  {
  }

  lemma StepConserves(s: State, t: Tid, a: Action)
    requires s.At(t).Replacing? ==> s.At(t).prev == s.docs
    ensures var s' := Step(s, t, a);
      && s'.built - Installs(s'.hist) - |Installing(s')| == s.built - Installs(s.hist) - |Installing(s)|
      && Installs(s'.hist) - Closes(s'.hist) - |AwaitingClose(s')| - Current(s')
         == Installs(s.hist) - Closes(s.hist) - |AwaitingClose(s)| - Current(s)
  {
    hide Installs, Closes, Installing, AwaitingClose;
    var s' := Step(s, t, a);
    StepShape(s, t, a);
    if s'.pcs != s.pcs {
      GotoCounts(s, s', t, s'.At(t));
    } else {
      SameCounts(s, s');
    }
    if s'.hist != s.hist {
      CountAppend(s.hist, s'.hist[|s'.hist| - 1]);
    }
  }

  lemma SameCounts(s: State, s': State)
    requires s'.pcs == s.pcs
    ensures Installing(s') == Installing(s) && AwaitingClose(s') == AwaitingClose(s)
  {
  }

  /** After every schedule: built = installed + still to be installed, and
      installed = closed + awaiting close + current. */
  lemma {:induction false} IndexesConserved(sched: Schedule)
    ensures var s := Run(sched);
      && s.built == Installs(s.hist) + |Installing(s)|
      && Installs(s.hist) == Closes(s.hist) + |AwaitingClose(s)| + Current(s)
  {
    if sched != [] {
      var before, last := sched[..|sched| - 1], sched[|sched| - 1];
      IndexesConserved(before);
      Reachable(before);
      StepConserves(Run(before), last.0, last.1);
    }
  }

  /** When no swap is in progress, every index ever built is closed, except the current one. */
  lemma QuiescentLeavesOneOpen(sched: Schedule, i: nat)
    requires i < Run(sched).built
    requires forall t :: Fresh(Run(sched).At(t)) == Nil && Stale(Run(sched).At(t)) == Nil
    ensures Closed(Run(sched), i) <==> Run(sched).docs != Ptr(i)
  {
    Reachable(sched);
    assert AccountedFor(Run(sched), i);
  }

  // ----- Readers see an atomic register

  /** Every use of the docs state, however late it happens in the critical section, returns
      the state most recently installed at that very moment. */
  lemma ReadsAreAtomic(sched: Schedule)
    ensures Atomic(Run(sched).hist)
  {
    Reachable(sched);
  }

  /** Running on from a state. */
  function RunFrom(s: State, more: Schedule): State
    decreases |more|
  {
    if more == [] then s else RunFrom(Step(s, more[0].0, more[0].1), more[1..])
  }

  lemma {:induction false} RunInTwoParts(sched: Schedule, more: Schedule)
    ensures Run(sched + more) == RunFrom(Run(sched), more)
    decreases |more|
  {
    if more == [] {
      assert sched + more == sched;
    } else {
      var longer := sched + [more[0]];
      assert longer[..|longer| - 1] == sched;
      assert longer + more[1..] == sched + more;
      RunInTwoParts(longer, more[1..]);
    }
  }

  /** Goroutine `t` holds the read lock from `s` through all of `more`. */
  predicate StaysReading(s: State, more: Schedule, t: Tid)
    decreases |more|
  {
    HoldsReadLock(s.At(t)) && (more != [] ==> StaysReading(Step(s, more[0].0, more[0].1), more[1..], t))
  }

  /** While some reader holds the read lock, no step installs anything. */
  lemma StepBesideReader(s: State, t: Tid, u: Tid, a: Action)
    requires LockInv(s) && HoldsReadLock(s.At(t)) && HoldsReadLock(Step(s, u, a).At(t))
    ensures var s' := Step(s, u, a);
      && s'.docs == s.docs && (s'.At(t) == s.At(t) || s'.At(t) == Reading(s.docs))
      && s.hist <= s'.hist
      && forall k :: |s.hist| <= k < |s'.hist| ==> !s'.hist[k].Install?
  {
    assert t in s.readers && s.writer == {};
    assert u !in s.writer && !s.At(u).Replacing?;
  }

  lemma {:induction false} NothingInstalledBeside(s: State, more: Schedule, t: Tid)
    requires LockInv(s) && StaysReading(s, more, t)
    ensures var s' := RunFrom(s, more);
      && s'.docs == s.docs && (s'.At(t) == s.At(t) || s'.At(t) == Reading(s.docs))
      && s.hist <= s'.hist
      && forall k :: |s.hist| <= k < |s'.hist| ==> !s'.hist[k].Install?
    decreases |more|
  {
    if more != [] {
      StepBesideReader(s, t, more[0].0, more[0].1);
      StepKeepsLockInv(s, more[0].0, more[0].1);
      NothingInstalledBeside(Step(s, more[0].0, more[0].1), more[1..], t);
    }
  }

  /** While a reader holds the read lock nothing is installed, so that, whenever it loads the
      state, everything it does there belongs to one generation of the documentation. */
  lemma CriticalSectionIsOneGeneration(sched: Schedule, more: Schedule, t: Tid)
    requires StaysReading(Run(sched), more, t)
    ensures var s, s' := Run(sched), Run(sched + more);
      && s'.docs == s.docs && (s'.At(t) == ReadLocked || s'.At(t) == Reading(s.docs))
      && forall k :: |s.hist| <= k < |s'.hist| ==> !s'.hist[k].Install?
  {
    Reachable(sched);
    RunInTwoParts(sched, more);
    NothingInstalledBeside(Run(sched), more, t);
  }

  /** If the register holds `Ptr(i)`, then `Ptr(i)` was the last thing installed. */
  lemma {:induction false} LastInstall(hist: seq<Event>, i: nat) returns (p: nat)
    requires Register(hist) == Ptr(i)
    ensures p < |hist| && hist[p] == Install(Ptr(i))
    ensures forall q :: p < q < |hist| ==> !hist[q].Install?
  {
    p := |hist| - 1;
    if !hist[p].Install? {
      p := LastInstall(hist[..p], i);
    }
  }

  lemma {:induction false} RegisterUnchanged(hist: seq<Event>, n: nat)
    requires n <= |hist|
    requires forall q :: n <= q < |hist| ==> !hist[q].Install?
    ensures Register(hist) == Register(hist[..n])
    decreases |hist|
  {
    if n < |hist| {
      var shorter := hist[..|hist| - 1];
      RegisterUnchanged(shorter, n);
      assert shorter[..n] == hist[..n];
    } else {
      assert hist[..n] == hist;
    }
  }

  /** After an install, and until the next one, the register holds what was installed. */
  lemma RegisterAfter(hist: seq<Event>, p: nat, k: nat)
    requires p < k <= |hist| && hist[p].Install?
    requires forall q :: p < q < k ==> !hist[q].Install?
    ensures Register(hist[..k]) == hist[p].ds
  {
    RegisterUnchanged(hist[..k], p + 1);
    assert hist[..k][..p + 1] == hist[..p + 1];
  }

  /** Uses with no swap in between see the same state, whoever makes them. */
  lemma NoSwapSameState(sched: Schedule, j: nat, k: nat)
    requires j <= k < |Run(sched).hist|
    requires Run(sched).hist[j].Use? && Run(sched).hist[k].Use?
    requires forall q :: j < q < k ==> !Run(sched).hist[q].Install?
    ensures Run(sched).hist[j].ds == Run(sched).hist[k].ds
  {
    Reachable(sched);
    var hist := Run(sched).hist;
    RegisterUnchanged(hist[..k], j);
    assert hist[..k][..j] == hist[..j];
  }

  /** `Ptr(i)` became current at position `p` of the log. */
  predicate InstalledAt(hist: seq<Event>, p: nat, i: nat) {
    p < |hist| && hist[p] == Install(Ptr(i))
  }

  /** `Ptr(b)` never became current before `Ptr(a)` did. */
  ghost predicate NotOlder(hist: seq<Event>, a: nat, b: nat) {
    forall p: nat, r: nat :: InstalledAt(hist, p, a) && InstalledAt(hist, r, b) ==> p <= r
  }

  /** Generations are seen in the order of their installation: of two uses, whoever makes them,
      the later one never sees a state that was installed before the one the earlier use saw. */
  lemma GenerationsNeverGoBack(sched: Schedule, j: nat, k: nat, a: nat, b: nat)
    requires j <= k < |Run(sched).hist|
    requires var h := Run(sched).hist; h[j].Use? && h[j].ds == Ptr(a) && h[k].Use? && h[k].ds == Ptr(b)
    ensures var h := Run(sched).hist;
      exists p: nat, r: nat :: p < j && r < k && p <= r && InstalledAt(h, p, a) && InstalledAt(h, r, b)
    ensures NotOlder(Run(sched).hist, a, b)
  {
    Reachable(sched);
    InstallOrder(Run(sched).hist, j, k, a, b);
  }

  lemma InstallOrder(hist: seq<Event>, j: nat, k: nat, a: nat, b: nat)
    requires Atomic(hist) && Once(hist)
    requires j <= k < |hist| && hist[j].Use? && hist[j].ds == Ptr(a) && hist[k].Use? && hist[k].ds == Ptr(b)
    ensures exists p: nat, r: nat ::
              p < j && r < k && p <= r && InstalledAt(hist, p, a) && InstalledAt(hist, r, b)
    ensures NotOlder(hist, a, b)
  {
    hide Register;
    var p := LastInstall(hist[..j], a);
    var r := LastInstall(hist[..k], b);
    assert hist[..k][p] == hist[p];
    assert InstalledAt(hist, p, a) && InstalledAt(hist, r, b);
    assert p <= r;
    forall q: nat, u: nat | InstalledAt(hist, q, a) && InstalledAt(hist, u, b)
      ensures q == p && u == r
    {
      assert hist[q] == hist[p] && hist[u] == hist[r];
    }
  }

  /** In particular, once anybody has seen another state after `Ptr(i)` was seen, nobody sees
      `Ptr(i)` again. */
  lemma ReplacedNeverSeenAgain(sched: Schedule, j: nat, k: nat, l: nat, i: nat)
    requires j < k < l < |Run(sched).hist|
    requires var h := Run(sched).hist; h[j].Use? && h[k].Use? && h[l].Use?
    requires var h := Run(sched).hist; h[j].ds == Ptr(i) && h[k].ds != Ptr(i)
    ensures Run(sched).hist[l].ds != Ptr(i)
  {
    Reachable(sched);
    GoBackImpossible(Run(sched).hist, j, k, l, i);
  }

  lemma GoBackImpossible(hist: seq<Event>, j: nat, k: nat, l: nat, i: nat)
    requires Atomic(hist) && Once(hist)
    requires j < k < l < |hist| && hist[j].Use? && hist[k].Use? && hist[l].Use?
    requires hist[j].ds == Ptr(i) && hist[k].ds != Ptr(i)
    ensures hist[l].ds != Ptr(i)
  {
    hide Register;
    if hist[l].ds == Ptr(i) {
      var p := LastInstall(hist[..j], i);
      var r := LastInstall(hist[..l], i);
      assert hist[p] == hist[r];
      RegisterAfter(hist, p, k);
    }
  }
}
