/** The locking protocol around `ServerContainer.docs`: any number of goroutines read the
    documentation state under the read lock, any number replace it under the write lock and
    close the superseded search index after unlocking. */
module DocsProtocol {
  import opened Text

  type Tid = nat

  /** `s.docs`: nil, or a pointer to a state built with its own search index. */
  datatype Docs = Nil | Ptr(id: nat)

  /** Where a goroutine is. A reader runs `RLock; ds := s.docs; use ds ...; RUnlock`, a
      swapper runs `Lock; old := s.docs; s.docs = new; Unlock; close old`. */
  datatype Pc =
    | Idle
    | ReadLocked
    | Reading(ds: Docs)
    | Prepared(next: Docs)
    | WriteLocked(next: Docs)
    | Replacing(next: Docs, prev: Docs)
    | Replaced(prev: Docs)
    | Closing(prev: Docs)

  /** What the outside can see, oldest first: a reader using the state it loaded, a state
      becoming current, a search index being closed. */
  datatype Event =
    | Use(t: Tid, ds: Docs)
    | Install(ds: Docs)
    | Close(id: nat)

  datatype State = State(
    docs: Docs,
    readers: set<Tid>,
    writer: set<Tid>,
    pcs: map<Tid, Pc>,
    built: nat,
    hist: seq<Event>)
  {
    function At(t: Tid): Pc {
      if t in pcs then pcs[t] else Idle
    }

    function Goto(t: Tid, pc: Pc): State {
      this.(pcs := pcs[t := pc])
    }
  }

  /** The statements a goroutine can be scheduled to execute. `Build(false)` prepares the nil
      state that start-up installs when building fails. */
  datatype Action =
    | RLock | Load | Read | RUnlock
    | Build(ok: bool) | Lock | LoadOld | Store | Unlock | CloseOld

  const INIT := State(Nil, {}, {}, map[], 0, [])

  /** One scheduled statement. A goroutine that is blocked, or not at that statement, leaves
      the state as it is. */
  function Step(s: State, t: Tid, a: Action): State {
    match (a, s.At(t)) {
      case (RLock, Idle) =>
        if s.writer == {} then s.Goto(t, ReadLocked).(readers := s.readers + {t}) else s
      case (Load, ReadLocked) => s.Goto(t, Reading(s.docs))
      case (Read, Reading(ds)) => s.(hist := s.hist + [Use(t, ds)])
      case (RUnlock, Reading(_)) => s.Goto(t, Idle).(readers := s.readers - {t})
      case (Build(ok), Idle) =>
        if ok then s.Goto(t, Prepared(Ptr(s.built))).(built := s.built + 1)
        else s.Goto(t, Prepared(Nil))
      case (Lock, Prepared(next)) =>
        if s.writer == {} && s.readers == {}
        then s.Goto(t, WriteLocked(next)).(writer := {t})
        else s
      case (LoadOld, WriteLocked(next)) => s.Goto(t, Replacing(next, s.docs))
      case (Store, Replacing(next, prev)) =>
        s.Goto(t, Replaced(prev)).(docs := next, hist := s.hist + [Install(next)])
      case (Unlock, Replaced(prev)) => s.Goto(t, Closing(prev)).(writer := {})
      case (CloseOld, Closing(prev)) =>
        var s' := s.Goto(t, Idle);
        if prev.Ptr? then s'.(hist := s.hist + [Close(prev.id)]) else s'
      case _ => s
    }
  }

  /** Every interleaving is a schedule: which goroutine runs which statement, in order. */
  type Schedule = seq<(Tid, Action)>

  function Run(sched: Schedule): State {
    if sched == [] then INIT
    else
      var last := sched[|sched| - 1];
      Step(Run(sched[..|sched| - 1]), last.0, last.1)
  }

  // ----- The inductive invariant

  /** The index a goroutine is responsible for before it is current (`Fresh`) or after it
      has been superseded (`Stale`). */
  function Fresh(pc: Pc): Docs {
    match pc
    case Prepared(next) => next
    case WriteLocked(next) => next
    case Replacing(next, _) => next
    case _ => Nil
  }

  function Stale(pc: Pc): Docs {
    match pc
    case Replaced(prev) => prev
    case Closing(prev) => prev
    case _ => Nil
  }

  predicate HoldsReadLock(pc: Pc) {
    pc.ReadLocked? || pc.Reading?
  }

  predicate HoldsWriteLock(pc: Pc) {
    pc.WriteLocked? || pc.Replacing? || pc.Replaced?
  }

  /** Mutual exclusion, and what a goroutine holding the lock knows about `s.docs`. */
  ghost predicate LockInv(s: State) {
    && (forall t :: t in s.readers <==> HoldsReadLock(s.At(t)))
    && (forall t :: t in s.writer <==> HoldsWriteLock(s.At(t)))
    && (s.writer != {} ==> s.readers == {})
    && (forall t, u :: t in s.writer && u in s.writer ==> t == u)
    && (forall t :: s.At(t).Reading? ==> s.At(t).ds == s.docs)
    && (forall t :: s.At(t).Replacing? ==> s.At(t).prev == s.docs)
  }

  ghost predicate Installed(s: State, i: nat) {
    Install(Ptr(i)) in s.hist
  }

  ghost predicate Closed(s: State, i: nat) {
    Close(i) in s.hist
  }

  /** An index has at most one owner: the goroutine that will install it, the server, the
      goroutine that will close it, or the closed past. */
  ghost predicate OwnerInv(s: State) {
    FreshInv(s) && StaleInv(s) && PastInv(s)
  }

  ghost predicate FreshInv(s: State) {
    && (forall t, i: nat :: Fresh(s.At(t)) == Ptr(i) ==> i < s.built && !Installed(s, i))
    && (forall t, u, i: nat :: Fresh(s.At(t)) == Ptr(i) && Fresh(s.At(u)) == Ptr(i) ==> t == u)
  }

  ghost predicate StaleInv(s: State) {
    && (forall t, i: nat :: Stale(s.At(t)) == Ptr(i) ==>
          s.docs != Ptr(i) && Installed(s, i) && !Closed(s, i))
    && (forall t, u, i: nat :: Stale(s.At(t)) == Ptr(i) && Stale(s.At(u)) == Ptr(i) ==> t == u)
  }

  ghost predicate PastInv(s: State) {
    && (forall i: nat :: s.docs == Ptr(i) ==> Installed(s, i) && !Closed(s, i))
    && (forall i: nat :: Closed(s, i) ==> Installed(s, i))
    && (forall i: nat :: Installed(s, i) ==> i < s.built)
  }

  /** No built index is forgotten. */
  ghost predicate AccountedFor(s: State, i: nat) {
    || (exists t :: Fresh(s.At(t)) == Ptr(i))
    || s.docs == Ptr(i)
    || (exists t :: Stale(s.At(t)) == Ptr(i))
    || Closed(s, i)
  }

  ghost predicate NoneForgotten(s: State) {
    forall i: nat :: i < s.built ==> AccountedFor(s, i)
  }

  /** The value an atomic register would hold after these events. */
  function Register(hist: seq<Event>): Docs {
    if hist == [] then Nil
    else
      var e := hist[|hist| - 1];
      if e.Install? then e.ds else Register(hist[..|hist| - 1])
  }

  /** Every use sees the register's value at that moment. */
  ghost predicate Atomic(hist: seq<Event>) {
    forall k :: 0 <= k < |hist| && hist[k].Use? ==> hist[k].ds == Register(hist[..k])
  }

  /** No event happens twice: an index is installed at most once and closed at most once. */
  ghost predicate Once(hist: seq<Event>) {
    forall j, k :: 0 <= j < k < |hist| && hist[j] == hist[k] ==>
      hist[j].Use? || hist[j] == Install(Nil)
  }

  ghost predicate NoUseAfterClose(hist: seq<Event>) {
    forall j, k :: 0 <= j < k < |hist| && hist[j].Close? && hist[k].Use? ==>
      hist[k].ds != Ptr(hist[j].id)
  }

  ghost predicate HistInv(s: State) {
    && Register(s.hist) == s.docs
    && Atomic(s.hist)
    && Once(s.hist)
    && NoUseAfterClose(s.hist)
  }

  ghost predicate Inv(s: State) {
    LockInv(s) && OwnerInv(s) && NoneForgotten(s) && HistInv(s)
  }

  lemma StepKeepsLockInv(s: State, t: Tid, a: Action)
    requires LockInv(s)
    ensures LockInv(Step(s, t, a))
  {
    var s' := Step(s, t, a);
    assert forall u :: u != t ==> s'.At(u) == s.At(u);
  }

  /** How one step changes the event log. */
  lemma StepEvents(s: State, t: Tid, a: Action)
    ensures var s' := Step(s, t, a);
      forall i: nat ::
        && (Installed(s', i) <==> Installed(s, i) || (a.Store? && s.At(t).Replacing? && s.At(t).next == Ptr(i)))
        && (Closed(s', i) <==> Closed(s, i) || (a.CloseOld? && s.At(t).Closing? && s.At(t).prev == Ptr(i)))
  {
    StepEmits(s, t, a);
  }

  lemma StepKeepsOwnerInv(s: State, t: Tid, a: Action)
    requires LockInv(s) && OwnerInv(s)
    ensures OwnerInv(Step(s, t, a))
  {
    StepKeepsFreshInv(s, t, a);
    StepKeepsStaleInv(s, t, a);
    StepKeepsPastInv(s, t, a);
  }

  lemma StepKeepsFreshInv(s: State, t: Tid, a: Action)
    requires FreshInv(s) && PastInv(s)
    ensures FreshInv(Step(s, t, a))
  {
    StepEvents(s, t, a);
    hide Installed, Closed;
    var s' := Step(s, t, a);
    assert forall u :: u != t ==> s'.At(u) == s.At(u);
  }

  lemma StepKeepsStaleInv(s: State, t: Tid, a: Action)
    requires LockInv(s) && OwnerInv(s)
    ensures StaleInv(Step(s, t, a))
  {
    StepEvents(s, t, a);
    hide Installed, Closed;
    var s' := Step(s, t, a);
    assert forall u :: u != t ==> s'.At(u) == s.At(u);
  }

  lemma StepKeepsPastInv(s: State, t: Tid, a: Action)
    requires OwnerInv(s)
    ensures PastInv(Step(s, t, a))
  {
    StepEvents(s, t, a);
    hide Installed, Closed;
  }

  lemma StepForgetsNone(s: State, t: Tid, a: Action)
    requires LockInv(s) && NoneForgotten(s)
    ensures NoneForgotten(Step(s, t, a))
  {
    var s' := Step(s, t, a);
    assert forall u :: u != t ==> s'.At(u) == s.At(u);
    assert forall e :: e in s.hist ==> e in s'.hist;
    forall i | 0 <= i < s'.built
      ensures AccountedFor(s', i)
    {
      if i == s.built {
        assert Fresh(s'.At(t)) == Ptr(i);
      } else {
        assert AccountedFor(s, i);
        if Fresh(s.At(t)) == Ptr(i) && s'.At(t) != s.At(t) {
          assert Fresh(s'.At(t)) == Ptr(i) || s'.docs == Ptr(i);
        } else if Stale(s.At(t)) == Ptr(i) && s'.At(t) != s.At(t) {
          assert Stale(s'.At(t)) == Ptr(i) || Closed(s', i) by {
            if s.At(t).Closing? {
              assert s'.hist[|s.hist|] == Close(i);
            }
          }
        } else if s.docs == Ptr(i) && s'.docs != s.docs {
          assert Stale(s'.At(t)) == Ptr(i);
        } else if u: nat :| Fresh(s.At(u)) == Ptr(i) {
          assert Fresh(s'.At(u)) == Ptr(i);
        } else if u: nat :| Stale(s.At(u)) == Ptr(i) {
          assert Stale(s'.At(u)) == Ptr(i);
        }
      }
    }
  }

  lemma StepKeepsHistInv(s: State, t: Tid, a: Action)
    requires LockInv(s) && OwnerInv(s) && HistInv(s)
    ensures HistInv(Step(s, t, a))
  {
    hide Step, Register, Atomic, Once, NoUseAfterClose;
    StepEmits(s, t, a);
    var e := Emitted(s, t, a);
    if e.Some? {
      NewEventIsLegal(s, t, a, e.value);
      AppendKeepsRegister(s.hist, e.value);
      AppendKeepsLog(s.hist, e.value);
    }
  }

  /** A use sees the current, open index; an install and a close concern an index that was not
      installed, or closed, before. */
  lemma NewEventIsLegal(s: State, t: Tid, a: Action, e: Event)
    requires LockInv(s) && OwnerInv(s) && Emitted(s, t, a) == Some(e)
    ensures e.Use? ==> e.ds == s.docs && forall i: nat :: Close(i) in s.hist ==> e.ds != Ptr(i)
    ensures e in s.hist ==> e.Use? || e == Install(Nil)
  {
    match e
    case Use(_, ds) =>
      if ds.Ptr? {
        assert !Closed(s, ds.id);
      }
    case Install(ds) =>
      if ds.Ptr? {
        assert Fresh(s.At(t)) == Ptr(ds.id) && !Installed(s, ds.id);
      }
    case Close(i) =>
      assert Stale(s.At(t)) == Ptr(i) && !Closed(s, i);
  }

  /** The event a step adds to the log, if any. */
  function Emitted(s: State, t: Tid, a: Action): Option<Event> {
    match (a, s.At(t))
    case (Read, Reading(ds)) => Some(Use(t, ds))
    case (Store, Replacing(next, _)) => Some(Install(next))
    case (CloseOld, Closing(Ptr(i))) => Some(Close(i))
    case _ => None
  }

  lemma StepEmits(s: State, t: Tid, a: Action)
    ensures match Emitted(s, t, a)
      case None => Step(s, t, a).hist == s.hist && Step(s, t, a).docs == s.docs
      case Some(e) =>
        && Step(s, t, a).hist == s.hist + [e]
        && Step(s, t, a).docs == if e.Install? then e.ds else s.docs
  {
  }

  /** Appending an event to a log. */
  lemma AppendKeepsRegister(h: seq<Event>, e: Event)
    requires Atomic(h)
    ensures Register(h + [e]) == if e.Install? then e.ds else Register(h)
    ensures Atomic(h + [e]) <==> (e.Use? ==> e.ds == Register(h))
  {
    var h' := h + [e];
    assert h'[..|h|] == h;
    forall k | 0 <= k < |h|
      ensures h'[k] == h[k] && h'[..k] == h[..k]
    {
    }
    if e.Use? {
      assert h'[|h|] == e;
    }
  }

  lemma AppendKeepsLog(h: seq<Event>, e: Event)
    ensures Once(h) && (e in h ==> e.Use? || e == Install(Nil)) ==> Once(h + [e])
    ensures NoUseAfterClose(h) && (forall i :: Close(i) in h && e.Use? ==> e.ds != Ptr(i)) ==>
              NoUseAfterClose(h + [e])
  {
    hide Register;
    assert forall j :: 0 <= j < |h| ==> h[j] in h && (h + [e])[j] == h[j];
  }

  /** The invariant holds after every schedule. */
  lemma {:induction false} Reachable(sched: Schedule)
    ensures Inv(Run(sched))
  {
    if sched != [] {
      var before, last := sched[..|sched| - 1], sched[|sched| - 1];
      Reachable(before);
      StepKeepsLockInv(Run(before), last.0, last.1);
      StepKeepsOwnerInv(Run(before), last.0, last.1);
      StepForgetsNone(Run(before), last.0, last.1);
      StepKeepsHistInv(Run(before), last.0, last.1);
    }
  }
}
