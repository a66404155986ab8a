/**
 * A pool of runners handed out one to a thread, as a step system. A thread scans the runner locks while it holds the
 * pool's mutex, and sleeps when all are taken; but a runner is given back without the mutex, at any moment of a scan,
 * and the waiters are signalled only afterwards. Models RunnerPool.
 */
module RunnerPools {
  import opened Bytes

  /** Where a thread is. Entering is waiting for the pool's mutex, at first or after a wakeup. */
  datatype Pc = Idle | Entering | Scanning(idx: nat) | Asleep | Holding(slot: nat) | Signalling(slot: nat)

  /** The runner locks with their holders, the runners created so far by slot, and the threads. */
  datatype State = State(locks: seq<Option<nat>>, runners: seq<Option<nat>>, created: nat, threads: map<nat, Pc>)

  datatype Action = Call | Enter | Scan | Release | Signal(woken: nat) | Wake

  function Awake(s: State): set<nat> { set t | t in s.threads && (s.threads[t].Entering? || s.threads[t].Scanning?) }

  function Pending(s: State): set<nat> { set t | t in s.threads && s.threads[t].Signalling? }

  function Sleeping(s: State): set<nat> { set t | t in s.threads && s.threads[t].Asleep? }

  function Free(s: State): set<nat> { set j | 0 <= j < |s.locks| && s.locks[j].None? }

  /** The pool's mutex is held by the scanning thread, if any. */
  predicate MutexFree(s: State) { forall t | t in s.threads :: !s.threads[t].Scanning? }

  predicate Enabled(s: State, t: nat, a: Action) {
    t in s.threads &&
    match a
    case Call => s.threads[t].Idle?
    case Enter => s.threads[t].Entering? && MutexFree(s)
    case Scan => s.threads[t].Scanning? && s.threads[t].idx < |s.locks| == |s.runners|
    case Release => s.threads[t].Holding? && s.threads[t].slot < |s.locks|
    case Signal(u) => s.threads[t].Signalling? && MutexFree(s) && (u in Sleeping(s) || Sleeping(s) == {})
    case Wake => s.threads[t].Asleep?
  }

  function Do(s: State, t: nat, a: Action): State
    requires Enabled(s, t, a)
  {
    match a
    case Call => s.(threads := s.threads[t := Entering])
    case Enter => s.(threads := s.threads[t := Scanning(0)])
    case Scan =>
      var idx := s.threads[t].idx;
      if s.locks[idx].Some? then
        s.(threads := s.threads[t := if idx + 1 == |s.locks| then Asleep else Scanning(idx + 1)])
      else
        var s' := if s.runners[idx].Some? then s
                  else s.(runners := s.runners[idx := Some(s.created)], created := s.created + 1);
        s'.(locks := s.locks[idx := Some(t)], threads := s.threads[t := Holding(idx)])
    case Release =>
      s.(locks := s.locks[s.threads[t].slot := None], threads := s.threads[t := Signalling(s.threads[t].slot)])
    case Signal(u) =>
      s.(threads := if Sleeping(s) == {} then s.threads[t := Idle] else s.threads[t := Idle][u := Entering])
    case Wake => s.(threads := s.threads[t := Entering])
  }

  // ---------------------------------------------------------------------------------------------
  // The invariant

  /** A lock names the thread that holds it; runners are distinct objects, and a held slot has one. */
  ghost predicate Owned(s: State) {
    && 0 < |s.locks| == |s.runners| && s.runners[0].Some?
    && (forall j, t :: 0 <= j < |s.locks| && s.locks[j] == Some(t) ==> t in s.threads && s.threads[t] == Holding(j))
    && (forall t :: t in s.threads && s.threads[t].Holding? ==> HoldsSlot(s, t, s.threads[t].slot))
    && (forall j :: 0 <= j < |s.runners| && s.runners[j].Some? ==> s.runners[j].value < s.created)
    && (forall i, j :: 0 <= i < j < |s.runners| && s.runners[i].Some? && s.runners[j].Some? ==>
              s.runners[i].value != s.runners[j].value)
  }

  ghost predicate HoldsSlot(s: State, t: nat, slot: nat) {
    slot < |s.locks| == |s.runners| && s.locks[slot] == Some(t) && s.runners[slot].Some?
  }

  /** One scan at a time; a slot the scan has passed and that is free again has a signal on its way. */
  ghost predicate Scanned(s: State) {
    && (forall t, u :: t in s.threads && u in s.threads && s.threads[t].Scanning? && s.threads[u].Scanning? ==> t == u)
    && (forall t :: t in s.threads && s.threads[t].Scanning? ==> s.threads[t].idx < |s.locks|)
    && (forall t, j ::
          t in s.threads && s.threads[t].Scanning? && 0 <= j < s.threads[t].idx && j < |s.locks| && s.locks[j].None? ==>
          exists u :: Signals(s, u, j))
  }

  ghost predicate Signals(s: State, u: nat, j: nat) { u in s.threads && s.threads[u] == Signalling(j) }

  /** While any thread sleeps, every free runner is matched by a signal on its way or a thread that is awake. */
  ghost predicate Attended(s: State) { Sleeping(s) != {} ==> |Free(s)| <= |Pending(s)| + |Awake(s)| }

  ghost predicate Inv(s: State) { Owned(s) && Scanned(s) && Attended(s) }

  ghost predicate Init(s: State) {
    && 0 < |s.locks| == |s.runners| && s.created == 1 && s.runners[0] == Some(0)
    && (forall j :: 0 < j < |s.runners| ==> s.runners[j].None?)
    && (forall j :: 0 <= j < |s.locks| ==> s.locks[j].None?)
    && forall t | t in s.threads :: s.threads[t].Idle?
  }

  lemma InitInv(s: State)
    requires Init(s)
    ensures Inv(s)
  {
    assert Sleeping(s) == {};
  }

  lemma OwnedStep(s: State, t: nat, a: Action)
    requires Owned(s) && Enabled(s, t, a)
    ensures Owned(Do(s, t, a))
  {
    match a
    case Scan => OwnedScan(s, t);
    case Release => OwnedRelease(s, t);
    case _ =>
  }

  lemma OwnedScan(s: State, t: nat)
    requires Owned(s) && Enabled(s, t, Scan)
    ensures Owned(Do(s, t, Scan))
  {
    var s' := Do(s, t, Scan);
    forall v | v in s'.threads && s'.threads[v].Holding? ensures HoldsSlot(s', v, s'.threads[v].slot) {
      if v != t {
        assert HoldsSlot(s, v, s.threads[v].slot);
      }
    }
  }

  lemma OwnedRelease(s: State, t: nat)
    requires Owned(s) && Enabled(s, t, Release)
    ensures Owned(Do(s, t, Release))
  {
    var s' := Do(s, t, Release);
    forall v | v in s'.threads && s'.threads[v].Holding? ensures HoldsSlot(s', v, s'.threads[v].slot) {
      assert HoldsSlot(s, v, s.threads[v].slot) && HoldsSlot(s, t, s.threads[t].slot);
    }
  }

  lemma ScannedStep(s: State, t: nat, a: Action)
    requires Owned(s) && Scanned(s) && Enabled(s, t, a)
    ensures Scanned(Do(s, t, a))
  {
    var s' := Do(s, t, a);
    forall v, j | v in s'.threads && s'.threads[v].Scanning?
               && 0 <= j < s'.threads[v].idx && j < |s'.locks| && s'.locks[j].None?
      ensures exists u :: Signals(s', u, j)
    {
      if a.Release? && j == s.threads[t].slot {
        assert Signals(s', t, j);
      } else {
        var u :| Signals(s, u, j);
        assert Signals(s', u, j);
      }
    }
  }

  // ---------------------------------------------------------------------------------------------
  // Counting

  /** Slots that each have a signal of their own are no more than the signals. */
  lemma {:induction false} SignalsCount(slots: set<nat>, s: State, pending: set<nat>)
    requires forall j :: j in slots ==> exists u :: u in pending && Signals(s, u, j)
    ensures |slots| <= |pending|
    decreases slots
  {
    if slots != {} {
      var j :| j in slots;
      var u :| u in pending && Signals(s, u, j);
      forall i | i in slots - {j} ensures exists v :: v in pending - {u} && Signals(s, v, i) {
        var v :| v in pending && Signals(s, v, i);
      }
      SignalsCount(slots - {j}, s, pending - {u});
    }
  }

  /** A thread that goes to sleep leaves no free runner without a signal. */
  lemma SleepIsAttended(s: State, t: nat)
    requires Owned(s) && Scanned(s) && Enabled(s, t, Scan) && Do(s, t, Scan).threads[t].Asleep?
    ensures |Free(s)| <= |Pending(s)|
  {
    forall j | j in Free(s) ensures exists u :: u in Pending(s) && Signals(s, u, j) {
      var u :| Signals(s, u, j);
    }
    SignalsCount(Free(s), s, Pending(s));
  }

  lemma Counts(a: set<nat>, b: set<nat>, x: nat)
    requires b == a + {x} || b == a - {x}
    ensures |b| == |a| + One(x in b) - One(x in a)
  {
    if x in a {
      assert a == (a - {x}) + {x} && a + {x} == a;
    } else {
      assert a - {x} == a;
    }
  }

  function One(b: bool): nat { if b then 1 else 0 }

  predicate IsAwake(pc: Pc) { pc.Entering? || pc.Scanning? }

  lemma MovedSets(s: State, s': State, t: nat, pc: Pc)
    requires t in s.threads && s'.threads == s.threads[t := pc]
    ensures Awake(s') == if IsAwake(pc) then Awake(s) + {t} else Awake(s) - {t}
    ensures Pending(s') == if pc.Signalling? then Pending(s) + {t} else Pending(s) - {t}
    ensures (t in Awake(s) <==> IsAwake(s.threads[t])) && (t in Pending(s) <==> s.threads[t].Signalling?)
  {
  }

  /** What becomes of the numbers when one thread has changed its place. */
  lemma Moved(s: State, s': State, t: nat, pc: Pc)
    requires t in s.threads && s'.threads == s.threads[t := pc]
    ensures |Awake(s')| == |Awake(s)| + One(IsAwake(pc)) - One(IsAwake(s.threads[t]))
    ensures |Pending(s')| == |Pending(s)| + One(pc.Signalling?) - One(s.threads[t].Signalling?)
  {
    hide Awake, Pending, IsAwake;
    MovedSets(s, s', t, pc);
    Counts(Awake(s), Awake(s'), t);
    Counts(Pending(s), Pending(s'), t);
  }

  /** Somebody slept before, unless the thread that moved has just gone to sleep. */
  lemma StillSleeping(s: State, s': State, t: nat, pc: Pc)
    requires t in s.threads && s'.threads == s.threads[t := pc] && !pc.Asleep?
    ensures Sleeping(s') <= Sleeping(s)
    ensures Sleeping(s') != {} ==> Sleeping(s) != {}
  {
  }

  lemma Freed(s: State, s': State, j: nat, holder: Option<nat>)
    requires j < |s.locks| && s'.locks == s.locks[j := holder]
    ensures |Free(s')| == |Free(s)| + One(holder.None?) - One(s.locks[j].None?)
  {
    assert Free(s') == if holder.None? then Free(s) + {j} else Free(s) - {j};
    Counts(Free(s), Free(s'), j);
  }

  lemma ScanStepAttended(s: State, t: nat)
    requires Inv(s) && Enabled(s, t, Scan)
    ensures Attended(Do(s, t, Scan))
  {
    var s', idx := Do(s, t, Scan), s.threads[t].idx;
    Moved(s, s', t, s'.threads[t]);
    if s'.threads[t].Asleep? {
      SleepIsAttended(s, t);
    } else {
      StillSleeping(s, s', t, s'.threads[t]);
      if s.locks[idx].None? {
        Freed(s, s', idx, Some(t));
      }
    }
  }

  lemma ReleaseStepAttended(s: State, t: nat)
    requires Attended(s) && Enabled(s, t, Release)
    ensures Attended(Do(s, t, Release))
  {
    var s', slot := Do(s, t, Release), s.threads[t].slot;
    Moved(s, s', t, Signalling(slot));
    StillSleeping(s, s', t, Signalling(slot));
    Freed(s, s', slot, None);
  }

  lemma SignalStepAttended(s: State, t: nat, woken: nat)
    requires Attended(s) && Enabled(s, t, Signal(woken))
    ensures Attended(Do(s, t, Signal(woken)))
  {
    var s' := Do(s, t, Signal(woken));
    var mid := s.(threads := s.threads[t := Idle]);
    Moved(s, mid, t, Idle);
    StillSleeping(s, mid, t, Idle);
    if Sleeping(s) != {} {
      assert woken in Sleeping(s) && woken != t;
      Moved(mid, s', woken, Entering);
    }
  }

  lemma OtherStepAttended(s: State, t: nat, a: Action)
    requires Attended(s) && Enabled(s, t, a) && (a.Call? || a.Enter? || a.Wake?)
    ensures Attended(Do(s, t, a))
  {
    var s' := Do(s, t, a);
    Moved(s, s', t, s'.threads[t]);
    StillSleeping(s, s', t, s'.threads[t]);
  }

  lemma StepKeepsInv(s: State, t: nat, a: Action)
    requires Inv(s) && Enabled(s, t, a)
    ensures Inv(Do(s, t, a))
  {
    OwnedStep(s, t, a);
    ScannedStep(s, t, a);
    match a
    case Scan => ScanStepAttended(s, t);
    case Release => ReleaseStepAttended(s, t);
    case Signal(woken) => SignalStepAttended(s, t, woken);
    case _ => OtherStepAttended(s, t, a);
  }

  // ---------------------------------------------------------------------------------------------
  // Every interleaving

  ghost predicate IsRun(states: seq<State>, steps: seq<(nat, Action)>) {
    && |states| == |steps| + 1 && Init(states[0])
    && forall i :: 0 <= i < |steps| ==>
            Enabled(states[i], steps[i].0, steps[i].1) && states[i + 1] == Do(states[i], steps[i].0, steps[i].1)
  }

  lemma {:induction false} RunKeepsInv(states: seq<State>, steps: seq<(nat, Action)>, n: nat)
    requires IsRun(states, steps) && n <= |steps|
    ensures Inv(states[n])
  {
    if n == 0 {
      InitInv(states[0]);
    } else {
      RunKeepsInv(states, steps, n - 1);
      StepKeepsInv(states[n - 1], steps[n - 1].0, steps[n - 1].1);
    }
  }

  /** No two threads ever hold the same runner. */
  lemma RunnersAreNotShared(states: seq<State>, steps: seq<(nat, Action)>, n: nat, t: nat, u: nat)
    requires IsRun(states, steps) && n <= |steps| && t != u && t in states[n].threads && u in states[n].threads
    requires states[n].threads[t].Holding? && states[n].threads[u].Holding?
    ensures var s := states[n];
      && HoldsSlot(s, t, s.threads[t].slot) && HoldsSlot(s, u, s.threads[u].slot)
      && s.runners[s.threads[t].slot].value != s.runners[s.threads[u].slot].value
  {
    RunKeepsInv(states, steps, n);
    assert HoldsSlot(states[n], t, states[n].threads[t].slot) && HoldsSlot(states[n], u, states[n].threads[u].slot);
  }

  /** A look at a slot takes it exactly if it is free, and else goes on to the next slot, or to sleep after the last. */
  lemma ScanTakesIff(s: State, t: nat)
    requires Inv(s) && Enabled(s, t, Scan)
    ensures var s', idx := Do(s, t, Scan), s.threads[t].idx;
      && t in s'.threads && |s'.runners| == |s.runners|
      && (s'.threads[t] == Holding(idx) <==> s.locks[idx].None?)
      && (s'.threads[t] == Scanning(idx + 1) <==> s.locks[idx].Some? && idx + 1 < |s.locks|)
      && (s'.threads[t] == Asleep <==> s.locks[idx].Some? && idx + 1 == |s.locks|)
      && (forall j :: 0 <= j < |s.locks| && (j != idx || s.locks[idx].Some?) ==> s'.locks[j] == s.locks[j])
  {
  }

  /** A caller, and a sleeper that wakes, goes for the mutex, and with it begins at the first slot. */
  lemma BeginsAtFirst(s: State, t: nat, a: Action)
    requires Enabled(s, t, a)
    ensures a.Call? || a.Wake? ==> Do(s, t, a).threads == s.threads[t := Entering] && t in Awake(Do(s, t, a))
    ensures a.Enter? ==> Do(s, t, a).threads == s.threads[t := Scanning(0)]
    ensures a.Call? || a.Wake? || a.Enter? ==> Do(s, t, a).locks == s.locks && Do(s, t, a).runners == s.runners
  {
  }

  /** Slots that have a runner. */
  function Made(s: State): set<nat> { set j | 0 <= j < |s.runners| && s.runners[j].Some? }

  /** A step keeps all runners in their slots, and clones one only for a slot that is taken and has none. */
  lemma RunnersStep(s: State, t: nat, a: Action)
    requires Inv(s) && Enabled(s, t, a)
    ensures |Do(s, t, a).runners| == |s.runners|
    ensures forall j :: 0 <= j < |s.runners| && s.runners[j].Some? ==> Do(s, t, a).runners[j] == s.runners[j]
    ensures |Made(s)| == s.created ==> |Made(Do(s, t, a))| == Do(s, t, a).created
    ensures forall j :: j in Made(Do(s, t, a)) - Made(s) ==> Do(s, t, a).threads[t] == Holding(j)
  {
    var s' := Do(s, t, a);
    if a.Scan? && s.locks[s.threads[t].idx].None? && s.runners[s.threads[t].idx].None? {
      assert Made(s') == Made(s) + {s.threads[t].idx};
    } else {
      assert Made(s') == Made(s);
    }
  }

  /** A slot keeps the runner that was made for it: the connections of a runner are never dropped or swapped. */
  lemma {:induction false} RunnersStay(states: seq<State>, steps: seq<(nat, Action)>, i: nat, k: nat, j: nat)
    requires IsRun(states, steps) && i <= k <= |steps|
    requires j < |states[i].runners| && states[i].runners[j].Some?
    ensures j < |states[k].runners| && states[k].runners[j] == states[i].runners[j]
    decreases k
  {
    if i < k {
      RunnersStay(states, steps, i, k - 1, j);
      RunKeepsInv(states, steps, k - 1);
      RunnersStep(states[k - 1], steps[k - 1].0, steps[k - 1].1);
    }
  }

  /** As many runners exist as slots have one, so there are never more than slots. */
  lemma {:induction false} RunnersAreCounted(states: seq<State>, steps: seq<(nat, Action)>, n: nat)
    requires IsRun(states, steps) && n <= |steps|
    ensures |Made(states[n])| == states[n].created <= |states[n].locks|
  {
    hide Made;
    if n == 0 {
      OneMade(states[0]);
    } else {
      RunnersAreCounted(states, steps, n - 1);
      RunKeepsInv(states, steps, n - 1);
      RunnersStep(states[n - 1], steps[n - 1].0, steps[n - 1].1);
    }
    RunKeepsInv(states, steps, n);
    MadeFit(states[n], |states[n].runners|);
  }

  lemma OneMade(s: State)
    requires Init(s)
    ensures |Made(s)| == 1
  {
    assert Made(s) == {0};
  }

  lemma {:induction false} MadeFit(s: State, n: nat)
    requires n <= |s.runners|
    ensures |set j | 0 <= j < n && s.runners[j].Some?| <= n
    ensures n == |s.runners| ==> |Made(s)| <= n
  {
    var made := set j | 0 <= j < n && s.runners[j].Some?;
    if n == 0 {
      assert made == {};
    } else {
      MadeFit(s, n - 1);
      var less := set j | 0 <= j < n - 1 && s.runners[j].Some?;
      assert made == if s.runners[n - 1].Some? then less + {n - 1} else less;
    }
    assert n == |s.runners| ==> made == Made(s);
  }

  /** A thread has the same runner from the step that gives it one to the step in which it gives it back. */
  lemma {:induction false} HolderKeepsRunner(states: seq<State>, steps: seq<(nat, Action)>, i: nat, k: nat, t: nat)
    requires IsRun(states, steps) && i <= k <= |steps| && t in states[i].threads && states[i].threads[t].Holding?
    requires forall m :: i <= m < k ==> steps[m] != (t, Release)
    ensures t in states[k].threads && states[k].threads[t] == states[i].threads[t]
    ensures HoldsSlot(states[k], t, states[i].threads[t].slot)
    ensures HoldsSlot(states[i], t, states[i].threads[t].slot)
    ensures var j := states[i].threads[t].slot; states[k].runners[j] == states[i].runners[j]
    decreases k
  {
    RunKeepsInv(states, steps, i);
    assert HoldsSlot(states[i], t, states[i].threads[t].slot);
    if i < k {
      HolderKeepsRunner(states, steps, i, k - 1, t);
      assert Enabled(states[k - 1], steps[k - 1].0, steps[k - 1].1);
    }
    RunKeepsInv(states, steps, k);
    assert HoldsSlot(states[k], t, states[k].threads[t].slot);
    RunnersStay(states, steps, i, k, states[i].threads[t].slot);
  }

  /** Giving a runner back frees its slot, and the next signal goes to a sleeper if there is any. */
  lemma ReleaseAndSignal(s: State, t: nat, a: Action)
    requires Inv(s) && Enabled(s, t, a) && (a.Release? || a.Signal?)
    ensures a.Release? ==> Free(Do(s, t, a)) == Free(s) + {s.threads[t].slot} && t in Pending(Do(s, t, a))
    ensures a.Signal? ==> t !in Pending(Do(s, t, a)) && Free(Do(s, t, a)) == Free(s)
    ensures a.Signal? && Sleeping(s) != {} ==>
              && a.woken in Sleeping(s) && a.woken in Awake(Do(s, t, a))
              && Sleeping(Do(s, t, a)) == Sleeping(s) - {a.woken}
  {
    if a.Release? { assert HoldsSlot(s, t, s.threads[t].slot); }
  }

  /** Every free runner is matched by a signal on its way or an awake thread, while any thread sleeps. */
  lemma SleepersAreAttended(states: seq<State>, steps: seq<(nat, Action)>, n: nat)
    requires IsRun(states, steps) && n <= |steps| && Sleeping(states[n]) != {}
    ensures |Free(states[n])| <= |Pending(states[n])| + |Awake(states[n])|
  {
    RunKeepsInv(states, steps, n);
  }

  // ---------------------------------------------------------------------------------------------
  // Every sleeper is served

  /** What the threads do that are waiting or that owe a signal, while no client calls or gives a runner back. */
  predicate Serves(a: Action) { a.Enter? || a.Scan? || a.Signal? }

  /** The states that steps of this kind run through. */
  ghost predicate Serving(states: seq<State>, steps: seq<(nat, Action)>) {
    && |states| == |steps| + 1
    && forall i :: 0 <= i < |steps| ==>
         && Serves(steps[i].1) && Enabled(states[i], steps[i].0, steps[i].1)
         && states[i + 1] == Do(states[i], steps[i].0, steps[i].1)
  }

  ghost predicate Quiet(s: State) { forall t, a :: Serves(a) ==> !Enabled(s, t, a) }

  lemma NotNone(a: set<nat>)
    ensures a != {} ==> |a| > 0
  {
    if x :| x in a {
      assert a == {x} + (a - {x});
    }
  }

  /** While a runner is free and a thread sleeps, some other thread has a step to take. */
  lemma ServiceGoesOn(s: State)
    requires Inv(s) && Quiet(s)
    ensures Sleeping(s) == {} || Free(s) == {}
    ensures Awake(s) == {}
  {
    if t :| t in s.threads && s.threads[t].Scanning? {
      assert Enabled(s, t, Scan);
      assert false;
    }
    if t :| t in s.threads && s.threads[t].Entering? {
      assert Enabled(s, t, Enter);
      assert false;
    }
    if Sleeping(s) != {} {
      if t :| t in Pending(s) {
        var u :| u in Sleeping(s);
        assert Enabled(s, t, Signal(u));
        assert false;
      }
      NotNone(Free(s));
    }
  }

  /** How many such steps a thread can cause at most. */
  function Weight(pc: Pc, slots: nat): int {
    match pc
    case Signalling(_) => slots + 4
    case Entering => slots + 2
    case Scanning(idx) => slots + 1 - idx
    case _ => 0
  }

  ghost function Rank(threads: map<nat, Pc>, slots: nat): int
    decreases |threads|
  {
    if threads == map[] then 0 else var t :| t in threads; Weight(threads[t], slots) + Rank(threads - {t}, slots)
  }

  lemma {:induction false} RankRemove(threads: map<nat, Pc>, t: nat, slots: nat)
    requires t in threads
    ensures Rank(threads, slots) == Weight(threads[t], slots) + Rank(threads - {t}, slots)
    decreases |threads|
  {
    var u: nat :| u in threads && Rank(threads, slots) == Weight(threads[u], slots) + Rank(threads - {u}, slots);
    if u != t {
      RankRemove(threads - {u}, t, slots);
      RankRemove(threads - {t}, u, slots);
      assert threads - {u} - {t} == threads - {t} - {u};
    }
  }

  lemma RankUpdate(threads: map<nat, Pc>, t: nat, pc: Pc, slots: nat)
    requires t in threads
    ensures Rank(threads[t := pc], slots) == Rank(threads, slots) - Weight(threads[t], slots) + Weight(pc, slots)
  {
    RankRemove(threads, t, slots);
    RankRemove(threads[t := pc], t, slots);
    assert threads[t := pc] - {t} == threads - {t};
  }

  lemma {:induction false} RankIsNatural(threads: map<nat, Pc>, slots: nat)
    requires forall t :: t in threads && threads[t].Scanning? ==> threads[t].idx < slots
    ensures Rank(threads, slots) >= 0
    decreases |threads|
  {
    if t :| t in threads {
      RankRemove(threads, t, slots);
      RankIsNatural(threads - {t}, slots);
    }
  }

  lemma RankFalls(s: State, t: nat, a: Action)
    requires Inv(s) && Serves(a) && Enabled(s, t, a)
    ensures Rank(Do(s, t, a).threads, |s.locks|) < Rank(s.threads, |s.locks|)
  {
    var slots, s' := |s.locks|, Do(s, t, a);
    if a.Signal? && Sleeping(s) != {} {
      assert a.woken in s.threads && a.woken != t;
      RankUpdate(s.threads, t, Idle, slots);
      RankUpdate(s.threads[t := Idle], a.woken, Entering, slots);
    } else {
      RankUpdate(s.threads, t, s'.threads[t], slots);
    }
  }

  predicate Waits(pc: Pc) { pc.Entering? || pc.Scanning? || pc.Asleep? }

  /** What such steps can make of a thread. */
  predicate Becomes(before: Pc, now: Pc) {
    if Waits(before) then Waits(now) || now.Holding? else now == before || (before.Signalling? && now.Idle?)
  }

  ghost predicate AllBecome(s: State, s': State) {
    && s.threads.Keys == s'.threads.Keys && |s.locks| == |s'.locks|
    && forall t :: t in s.threads ==> Becomes(s.threads[t], s'.threads[t])
  }

  lemma {:induction false} ServingKeeps(states: seq<State>, steps: seq<(nat, Action)>, n: nat)
    requires Serving(states, steps) && n <= |steps| && Inv(states[0])
    ensures Inv(states[n]) && AllBecome(states[0], states[n])
    ensures Rank(states[n].threads, |states[0].locks|) + n <= Rank(states[0].threads, |states[0].locks|)
  {
    hide Inv, Rank;
    if n > 0 {
      ServingKeeps(states, steps, n - 1);
      StepKeepsInv(states[n - 1], steps[n - 1].0, steps[n - 1].1);
      RankFalls(states[n - 1], steps[n - 1].0, steps[n - 1].1);
    }
  }

  /** A thread that waited in s and holds a runner in s'. */
  ghost predicate GotOne(s: State, s': State, t: nat) {
    t in s.threads && t in s'.threads && Waits(s.threads[t]) && s'.threads[t].Holding?
  }

  lemma SomebodyGotOne(s: State, s': State)
    requires Owned(s) && Owned(s') && AllBecome(s, s') && Sleeping(s) != {} && Free(s) != {}
    requires Awake(s') == {} && (Sleeping(s') == {} || Free(s') == {})
    ensures exists t :: GotOne(s, s', t)
  {
    if Sleeping(s') == {} {
      var t :| t in Sleeping(s);
      assert t !in Awake(s') && t !in Sleeping(s');
      assert GotOne(s, s', t);
    } else {
      var j :| j in Free(s);
      assert j !in Free(s');
      var t := s'.locks[j].value;
      assert s.threads[t].Holding? ==> HoldsSlot(s, t, s.threads[t].slot);
      assert GotOne(s, s', t);
    }
  }

  /**
   * No lost wakeup: if a runner is free while a thread sleeps, then in whatever order the waiting and the signalling
   * threads go on, they come to an end; and by then a thread that was waiting has got a runner, and nobody sleeps any
   * more unless all runners are taken.
   */
  lemma NoLostWakeup(states: seq<State>, steps: seq<(nat, Action)>, n: nat, after: seq<State>, more: seq<(nat, Action)>)
    requires IsRun(states, steps) && n <= |steps| && Sleeping(states[n]) != {} && Free(states[n]) != {}
    requires Serving(after, more) && after[0] == states[n]
    ensures |more| <= Rank(states[n].threads, |states[n].locks|)
    ensures Quiet(after[|more|]) ==> Sleeping(after[|more|]) == {} || Free(after[|more|]) == {}
    ensures Quiet(after[|more|]) ==> exists t :: GotOne(states[n], after[|more|], t)
  {
    hide Rank, Enabled, GotOne, Awake, Sleeping, Free;
    RunKeepsInv(states, steps, n);
    ServingKeeps(after, more, |more|);
    var s, s' := states[n], after[|more|];
    RankIsNatural(s'.threads, |s.locks|);
    if Quiet(s') {
      ServiceGoesOn(s');
      SomebodyGotOne(s, s');
    }
  }
}
