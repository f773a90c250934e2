/** No deadlock in the locking protocol: whatever has been scheduled so far, the goroutines that
    have started can finish, and nothing but new arrivals or idle reading can delay them. */
module DocsProgress {
  import opened DocsProtocol
  import opened DocsSafety

  /** How many statements a goroutine still has to execute, uses of the state apart. */
  function Remaining(pc: Pc): nat {
    match pc
    case Idle => 0
    case ReadLocked => 2
    case Reading(_) => 1
    case Prepared(_) => 5
    case WriteLocked(_) => 4
    case Replacing(_, _) => 3
    case Replaced(_) => 2
    case Closing(_) => 1
  }

  function AtLeast(s: State, k: nat): set<Tid> {
    set t | t in s.pcs && Remaining(s.pcs[t]) >= k
  }

  /** How many statements all goroutines that have started still have to execute. */
  function Work(s: State): nat {
    |AtLeast(s, 1)| + |AtLeast(s, 2)| + |AtLeast(s, 3)| + |AtLeast(s, 4)| + |AtLeast(s, 5)|
  }

  ghost predicate AllIdle(s: State) {
    forall t: Tid :: s.At(t).Idle?
  }

  /** A goroutine that has started executes a statement other than a use, and is not blocked. */
  predicate Advances(s: State, t: Tid, a: Action) {
    !s.At(t).Idle? && !a.Read? && Step(s, t, a) != s
  }

  /** Each such step brings one goroutine one statement closer to its end. */
  lemma AdvanceShrinksWork(s: State, t: Tid, a: Action)
    requires Advances(s, t, a)
    ensures Work(Step(s, t, a)) == Work(s) - 1
  {
    var s' := Step(s, t, a);
    AdvancesOne(s, t, a);
    hide Step, Remaining;
    SizesAgree(AtLeast(s, 1), AtLeast(s', 1), t);
    SizesAgree(AtLeast(s, 2), AtLeast(s', 2), t);
    SizesAgree(AtLeast(s, 3), AtLeast(s', 3), t);
    SizesAgree(AtLeast(s, 4), AtLeast(s', 4), t);
    SizesAgree(AtLeast(s, 5), AtLeast(s', 5), t);
  }

  lemma AdvancesOne(s: State, t: Tid, a: Action)
    requires Advances(s, t, a)
    ensures var s' := Step(s, t, a);
      && t in s.pcs && t in s'.pcs && s'.pcs == s.pcs[t := s'.pcs[t]]
      && Remaining(s'.pcs[t]) == Remaining(s.pcs[t]) - 1 && Remaining(s.pcs[t]) <= 5
  {
  }

  /** The statement a goroutine is at. */
  function Next(pc: Pc): Action
    requires !pc.Idle?
  {
    match pc
    case ReadLocked => Load
    case Reading(_) => RUnlock
    case Prepared(_) => Lock
    case WriteLocked(_) => LoadOld
    case Replacing(_, _) => Store
    case Replaced(_) => Unlock
    case Closing(_) => CloseOld
  }

  /** A goroutine is blocked only before `Lock`, by somebody who holds the lock. */
  lemma OnlyLockBlocks(s: State, t: Tid)
    requires !s.At(t).Idle?
    ensures Advances(s, t, Next(s.At(t))) <==> s.At(t).Prepared? ==> s.writer == {} && s.readers == {}
  {
    var pc := Step(s, t, Next(s.At(t))).At(t);
  }

  /** If some goroutine has started and not finished, then some such goroutine can execute its
      next statement. */
  lemma SomeoneAdvances(s: State)
    requires LockInv(s) && !AllIdle(s)
    ensures exists t: Tid :: !s.At(t).Idle? && Advances(s, t, Next(s.At(t)))
  {
    hide Advances;
    var t: Tid :| !s.At(t).Idle?;
    if w: Tid :| w in s.writer {
      t := w;
    } else if r: Tid :| r in s.readers {
      t := r;
    }
    OnlyLockBlocks(s, t);
  }

  /** That is so after every schedule. */
  lemma NeverStuck(sched: Schedule)
    ensures var s := Run(sched);
      AllIdle(s) || exists t: Tid :: !s.At(t).Idle? && Advances(s, t, Next(s.At(t)))
  {
    Reachable(sched);
    if !AllIdle(Run(sched)) {
      SomeoneAdvances(Run(sched));
    }
  }

  /** Every step of `more` advances some goroutine. */
  predicate OnlyAdvances(s: State, more: Schedule)
    decreases |more|
  {
    more == [] ||
    (Advances(s, more[0].0, more[0].1) && OnlyAdvances(Step(s, more[0].0, more[0].1), more[1..]))
  }

  /** However the goroutines that have started are scheduled, they take no more than `Work` steps,
      and exactly as many when they all finish. */
  lemma {:induction false} AdvancesAreBounded(s: State, more: Schedule)
    requires OnlyAdvances(s, more)
    ensures Work(RunFrom(s, more)) == Work(s) - |more|
    decreases |more|
  {
    if more != [] {
      AdvanceShrinksWork(s, more[0].0, more[0].1);
      AdvancesAreBounded(Step(s, more[0].0, more[0].1), more[1..]);
    }
  }

  lemma NoWorkAllIdle(s: State)
    ensures Work(s) == 0 <==> AllIdle(s)
  {
    if Work(s) == 0 {
      forall t
        ensures s.At(t).Idle?
      {
        assert t !in AtLeast(s, 1);
      }
    } else if AllIdle(s) {
      assert forall t :: t in s.pcs ==> s.At(t) == s.pcs[t];
      assert forall k :: k >= 1 ==> AtLeast(s, k) == {};
    }
  }

  lemma {:induction false} CanFinishFrom(s: State) returns (more: Schedule)
    requires LockInv(s)
    ensures OnlyAdvances(s, more) && |more| == Work(s) && AllIdle(RunFrom(s, more))
    decreases Work(s)
  {
    NoWorkAllIdle(s);
    if AllIdle(s) {
      more := [];
    } else {
      SomeoneAdvances(s);
      var t: Tid :| !s.At(t).Idle? && Advances(s, t, Next(s.At(t)));
      var a := Next(s.At(t));
      AdvanceShrinksWork(s, t, a);
      StepKeepsLockInv(s, t, a);
      hide Step, LockInv, Work, AllIdle, Advances;
      var rest := CanFinishFrom(Step(s, t, a));
      more := [(t, a)] + rest;
      assert more[0] == (t, a) && more[1..] == rest;
    }
  }

  /** After every schedule, a schedule of the goroutines that have started lets all of them
      finish, in exactly `Work` steps. */
  lemma CanFinish(sched: Schedule) returns (more: Schedule)
    ensures OnlyAdvances(Run(sched), more) && |more| == Work(Run(sched))
    ensures AllIdle(Run(sched + more))
  {
    Reachable(sched);
    more := CanFinishFrom(Run(sched));
    RunInTwoParts(sched, more);
  }

  /** A schedule that only advances and cannot be extended has let every goroutine finish; then
      the lock is free, and every index ever built is closed, except the current one. */
  lemma FinishedMeansDrained(sched: Schedule, more: Schedule)
    requires OnlyAdvances(Run(sched), more)
    requires var s := Run(sched + more);
      forall t: Tid, a :: !Advances(s, t, a)
    ensures var s := Run(sched + more);
      && AllIdle(s) && s.writer == {} && s.readers == {} && |more| == Work(Run(sched))
      && forall i: nat :: i < s.built ==> (Closed(s, i) <==> s.docs != Ptr(i))
  {
    var s := Run(sched + more);
    NeverStuck(sched + more);
    RunInTwoParts(sched, more);
    AdvancesAreBounded(Run(sched), more);
    NoWorkAllIdle(s);
    Reachable(sched + more);
    forall i: nat | i < s.built
      ensures Closed(s, i) <==> s.docs != Ptr(i)
    {
      QuiescentLeavesOneOpen(sched + more, i);
    }
  }

  // ----- Readers get through

  /** The four statements of a reader, with no writer holding the lock and whatever other readers
      do: the current state is used once, and nothing else has changed. */
  lemma ReadAlone(s: State, t: Tid)
    requires s.writer == {} && s.At(t).Idle?
    ensures RunFrom(s, [(t, RLock), (t, Load), (t, Read), (t, RUnlock)])
         == s.(readers := s.readers - {t}, pcs := s.pcs[t := Idle], hist := s.hist + [Use(t, s.docs)])
  {
    var s1 := Step(s, t, RLock);
    var s2 := Step(s1, t, Load);
    var s3 := Step(s2, t, Read);
    var s4 := Step(s3, t, RUnlock);
    assert s4.pcs == s.pcs[t := Idle] && s4.readers == s.readers - {t};
    FourSteps(s, (t, RLock), (t, Load), (t, Read), (t, RUnlock));
  }

  lemma FourSteps(s: State, a: (Tid, Action), b: (Tid, Action), c: (Tid, Action), d: (Tid, Action))
    ensures RunFrom(s, [a, b, c, d])
         == Step(Step(Step(Step(s, a.0, a.1), b.0, b.1), c.0, c.1), d.0, d.1)
  {
    hide Step;
    var more := [a, b, c, d];
    assert more[1..] == [b, c, d] && more[1..][1..] == [c, d] && more[1..][1..][1..] == [d];
    var s2 := Step(Step(s, a.0, a.1), b.0, b.1);
    assert RunFrom(s, more) == RunFrom(s2, more[1..][1..]);
    var s3 := Step(s2, c.0, c.1);
    assert RunFrom(s2, [c, d]) == RunFrom(s3, [d]);
    assert [d][1..] == [] && RunFrom(s3, [d]) == Step(s3, d.0, d.1);
  }

  /** After every schedule, readers share the lock: while one holds it, another can take it, and
      then both hold it. */
  lemma ReadersShare(sched: Schedule, t: Tid, u: Tid)
    requires HoldsReadLock(Run(sched).At(t)) && Run(sched).At(u).Idle?
    ensures var s := Run(sched + [(u, RLock)]);
      && s.At(u) == ReadLocked && s.At(t) == Run(sched).At(t)
      && t in s.readers && u in s.readers && t != u
      && s.docs == Run(sched).docs && s.hist == Run(sched).hist
  {
    Reachable(sched);
    assert t in Run(sched).readers;
    assert (sched + [(u, RLock)])[..|sched|] == sched;
  }

  /** After every schedule in which nobody holds the write lock, an idle goroutine can use the
      state that is current there. */
  lemma CanReadNow(sched: Schedule, t: Tid)
    requires Run(sched).writer == {} && Run(sched).At(t).Idle?
    ensures var s, s' := Run(sched), Run(sched + [(t, RLock), (t, Load), (t, Read), (t, RUnlock)]);
      s'.hist == s.hist + [Use(t, s.docs)] && s'.docs == s.docs && s'.readers == s.readers && s'.At(t).Idle?
  {
    Reachable(sched);
    assert t !in Run(sched).readers;
    ReadAlone(Run(sched), t);
    RunInTwoParts(sched, [(t, RLock), (t, Load), (t, Read), (t, RUnlock)]);
  }

  /** After every schedule, whoever holds or awaits the lock: the run can be continued so that any
      given goroutine uses the state that is then current. */
  lemma CanAlwaysRead(sched: Schedule, t: Tid) returns (more: Schedule)
    ensures var s := Run(sched + more);
      s.hist != [] && s.hist[|s.hist| - 1] == Use(t, s.docs) && AllIdle(s)
  {
    var first := CanFinish(sched);
    var four := [(t, RLock), (t, Load), (t, Read), (t, RUnlock)];
    Reachable(sched + first);
    hide Run, RunFrom, Step, OwnerInv, NoneForgotten, HistInv, OnlyAdvances;
    var s := Run(sched + first);
    FinishedIsFree(s);
    ReadAlone(s, t);
    RunInTwoParts(sched + first, four);
    more := first + four;
    assert sched + more == sched + first + four;
    var s' := Run(sched + more);
    assert s'.pcs == s.pcs[t := Idle];
    assert forall u: Tid :: s'.At(u) == if u == t then Idle else s.At(u);
  }

  lemma FinishedIsFree(s: State)
    requires LockInv(s) && AllIdle(s)
    ensures s.writer == {}
  {
  }
}
