/**
 * A fair reader-writer lock with priority readers, as a step system: each action is what one thread does while it holds
 * the inner mutex, up to the point where it returns or goes to sleep on the condition variable. Models SharedMutex.
 */
module SharedMutexes {

  datatype Want = Write | Read | PriorityRead

  /** What a thread is doing: nothing here, asleep in the queue (perhaps signalled already), or holding the lock. */
  datatype Pc = Idle | Waiting(ticket: nat, want: Want, notified: bool) | Writing | Reading

  /**
   * The fields of the lock and the threads using it. Three histories are kept for the statements below: who took each
   * ticket, which tickets went to priority readers, and the other tickets in the order in which they were granted.
   */
  datatype State = State(queue: seq<nat>, index: nat, readers: int, locked: bool, threads: map<nat, Pc>,
                         owner: map<nat, nat>, priority: set<nat>, granted: seq<nat>)

  datatype Action = TryLock | Lock | Unlock | LockShared(priority: bool) | UnlockShared | Wake | Retry

  function NotifyAll(threads: map<nat, Pc>): map<nat, Pc> {
    map t | t in threads :: if threads[t].Waiting? then threads[t].(notified := true) else threads[t]
  }

  /** The condition of the wait loops, negated. */
  predicate CanEnter(s: State, ticket: nat, want: Want) {
    s.queue != [] && s.queue[0] == ticket && if want.Write? then !s.locked else s.readers > 0 || !s.locked
  }

  /** A thread whose ticket is in the queue tests the loop condition, and enters or sleeps. */
  function Attempt(s: State, t: nat, ticket: nat, want: Want): State {
    if CanEnter(s, ticket, want) then
      var rest := s.queue[1..];
      var history := if ticket in s.priority then s.granted else s.granted + [ticket];
      if want.Write? then
        s.(queue := rest, locked := true, threads := s.threads[t := Writing], granted := history)
      else
        s.(queue := rest, readers := s.readers + 1, locked := if s.readers == 0 then true else s.locked,
           threads := (if rest != [] then NotifyAll(s.threads) else s.threads)[t := Reading], granted := history)
    else
      s.(threads := s.threads[t := Waiting(ticket, want, false)])
  }

  /** A thread takes a ticket and queues up, priority readers in front. */
  function Enqueue(s: State, t: nat, want: Want): State {
    s.(index := s.index + 1, owner := s.owner[s.index := t],
       queue := if want.PriorityRead? then [s.index] + s.queue else s.queue + [s.index],
       priority := if want.PriorityRead? then s.priority + {s.index} else s.priority)
  }

  predicate Enabled(s: State, t: nat, a: Action) {
    t in s.threads &&
    match a
    case TryLock => s.threads[t].Idle?
    case Lock => s.threads[t].Idle?
    case LockShared(_) => s.threads[t].Idle?
    case Unlock => s.threads[t].Writing?
    case UnlockShared => s.threads[t].Reading?
    case Wake => s.threads[t].Waiting?
    case Retry => s.threads[t].Waiting? && s.threads[t].notified
  }

  /** What the action does; Wake is a spurious wakeup. */
  function Do(s: State, t: nat, a: Action): State
    requires Enabled(s, t, a)
  {
    match a
    case TryLock =>
      if !s.locked && s.queue == [] then s.(locked := true, threads := s.threads[t := Writing]) else s
    case Lock => Attempt(Enqueue(s, t, Write), t, s.index, Write)
    case LockShared(priority) =>
      if priority && s.readers > 0 then s.(readers := s.readers + 1, threads := s.threads[t := Reading])
      else
        var want := if priority then PriorityRead else Read;
        Attempt(Enqueue(s, t, want), t, s.index, want)
    case Unlock =>
      s.(locked := false, threads := (if s.queue != [] then NotifyAll(s.threads) else s.threads)[t := Idle])
    case UnlockShared =>
      s.(readers := s.readers - 1, locked := if s.readers - 1 == 0 then false else s.locked,
         threads := (if s.queue != [] then NotifyAll(s.threads) else s.threads)[t := Idle])
    case Wake => s.(threads := s.threads[t := s.threads[t].(notified := true)])
    case Retry => Attempt(s, t, s.threads[t].ticket, s.threads[t].want)
  }

  // ---------------------------------------------------------------------------------------------
  // The invariant

  function Readers(threads: map<nat, Pc>): set<nat> { set t | t in threads && threads[t].Reading? }

  function Writers(threads: map<nat, Pc>): set<nat> { set t | t in threads && threads[t].Writing? }

  predicate WaitsAt(s: State, t: nat, ticket: nat) {
    t in s.threads && s.threads[t].Waiting? && s.threads[t].ticket == ticket
  }

  /** A writer is alone, and the fields tell who holds the lock. */
  ghost predicate Exclusive(s: State) {
    && s.readers == |Readers(s.threads)|
    && (forall t, u :: t in Writers(s.threads) && u in Writers(s.threads) ==> t == u)
    && (Writers(s.threads) != {} ==> Readers(s.threads) == {})
    && (s.locked <==> Readers(s.threads) != {} || Writers(s.threads) != {})
  }

  /** Tickets are distinct, and each belongs to one thread. */
  ghost predicate Tickets(s: State) {
    && (forall i :: 0 <= i < |s.queue| ==> s.queue[i] < s.index && s.queue[i] in s.owner)
    && (forall i, j :: 0 <= i < j < |s.queue| ==> s.queue[i] != s.queue[j])
    && (forall ticket :: ticket in s.owner ==> ticket < s.index)
  }

  /** The queue holds exactly the tickets of the waiting threads, each once. */
  ghost predicate Queued(s: State) {
    && Tickets(s)
    && (forall i :: 0 <= i < |s.queue| ==> WaitsAt(s, s.owner[s.queue[i]], s.queue[i]))
    && (forall t :: t in s.threads && s.threads[t].Waiting? ==> QueuesUp(s, t, s.threads[t].ticket))
  }

  ghost predicate QueuesUp(s: State, t: nat, ticket: nat) {
    ticket in s.queue && ticket in s.owner && s.owner[ticket] == t
  }

  /** The thread at the head of the queue never sleeps unsignalled while it could enter. */
  ghost predicate NoLostWakeup(s: State) {
    forall t :: t in s.threads && s.threads[t].Waiting? && !s.threads[t].notified ==>
            !CanEnter(s, s.threads[t].ticket, s.threads[t].want)
  }

  /** The ordinary tickets in the queue are in the order in which they were taken. */
  ghost predicate InOrder(s: State) {
    forall i, j :: 0 <= i < j < |s.queue| && s.queue[i] !in s.priority && s.queue[j] !in s.priority ==>
            s.queue[i] < s.queue[j]
  }

  /** Ordinary tickets are granted in the order in which they were taken, all before any that still waits. */
  ghost predicate GrantedInOrder(s: State) {
    && (forall i, j :: 0 <= i < j < |s.granted| ==> s.granted[i] < s.granted[j])
    && (forall i :: 0 <= i < |s.granted| ==> s.granted[i] < s.index)
    && (forall i, j :: 0 <= i < |s.granted| && 0 <= j < |s.queue| && s.queue[j] !in s.priority ==>
              s.granted[i] < s.queue[j])
  }

  /** Every ordinary ticket ever taken has been granted or still waits. */
  ghost predicate Accounted(s: State) {
    && (forall ticket :: ticket in s.priority ==> ticket < s.index)
    && (forall ticket: nat :: ticket < s.index && ticket !in s.priority ==> ticket in s.queue || ticket in s.granted)
  }

  /** Priority readers stand before all others, the latest of them in front. */
  ghost predicate PriorityFirst(s: State) {
    forall i, j :: 0 <= i < j < |s.queue| && s.queue[j] in s.priority ==>
            s.queue[i] in s.priority && s.queue[i] > s.queue[j]
  }

  ghost predicate Fair(s: State) { InOrder(s) && GrantedInOrder(s) && Accounted(s) && PriorityFirst(s) }

  /** The tickets of priority readers are marked. */
  ghost predicate Marked(s: State) {
    forall t :: t in s.threads && s.threads[t].Waiting? ==>
            (s.threads[t].want.PriorityRead? <==> s.threads[t].ticket in s.priority)
  }

  ghost predicate Inv(s: State) { Exclusive(s) && Queued(s) && NoLostWakeup(s) && Fair(s) && Marked(s) }

  ghost predicate Init(s: State) {
    && s.queue == [] && s.index == 0 && s.readers == 0 && !s.locked
    && s.owner == map[] && s.priority == {} && s.granted == []
    && forall t | t in s.threads :: s.threads[t].Idle?
  }

  // ---------------------------------------------------------------------------------------------
  // Each action keeps it

  lemma HoldersUpdate(threads: map<nat, Pc>, t: nat, pc: Pc)
    requires t in threads
    ensures Readers(threads[t := pc]) == if pc.Reading? then Readers(threads) + {t} else Readers(threads) - {t}
    ensures Writers(threads[t := pc]) == if pc.Writing? then Writers(threads) + {t} else Writers(threads) - {t}
    ensures Readers(NotifyAll(threads)) == Readers(threads)
    ensures Writers(NotifyAll(threads)) == Writers(threads)
  {
  }

  lemma InitInv(s: State)
    requires Init(s)
    ensures Inv(s)
  {
    assert Readers(s.threads) == {} && Writers(s.threads) == {};
  }

  /** Between taking a ticket and testing the loop condition: all is in order except that t does not sleep yet. */
  ghost predicate Entering(s: State, t: nat, ticket: nat) {
    && t in s.threads && QueuesUp(s, t, ticket)
    && (s.threads[t].Idle? || (s.threads[t].Waiting? && s.threads[t].ticket == ticket))
    && Tickets(s)
    && (forall i :: 0 <= i < |s.queue| && s.queue[i] != ticket ==> WaitsAt(s, s.owner[s.queue[i]], s.queue[i]))
    && (forall u :: u != t && u in s.threads && s.threads[u].Waiting? ==> QueuesUp(s, u, s.threads[u].ticket))
    && (forall u :: u != t && u in s.threads && s.threads[u].Waiting? && !s.threads[u].notified ==>
          !CanEnter(s, s.threads[u].ticket, s.threads[u].want))
  }

  lemma EnqueueTickets(s: State, t: nat, want: Want)
    requires Tickets(s)
    ensures Tickets(Enqueue(s, t, want)) && s.index in Enqueue(s, t, want).queue
    ensures forall ticket :: ticket in Enqueue(s, t, want).queue <==> ticket in s.queue || ticket == s.index
  {
    var q := Enqueue(s, t, want).queue;
    assert q[if want.PriorityRead? then 0 else |s.queue|] == s.index;
  }

  lemma EnqueueEnters(s: State, t: nat, want: Want)
    requires Inv(s) && t in s.threads && s.threads[t].Idle?
    ensures Entering(Enqueue(s, t, want), t, s.index)
  {
    var s' := Enqueue(s, t, want);
    EnqueueTickets(s, t, want);
    forall u | u in s.threads && s.threads[u].Waiting? ensures QueuesUp(s', u, s.threads[u].ticket) {
      assert QueuesUp(s, u, s.threads[u].ticket);
    }
    forall i | 0 <= i < |s'.queue| && s'.queue[i] != s.index ensures WaitsAt(s', s'.owner[s'.queue[i]], s'.queue[i]) {
      assert s'.queue[i] == s.queue[if want.PriorityRead? then i - 1 else i];
    }
    forall u | u in s.threads && s.threads[u].Waiting? && !s.threads[u].notified
      ensures !CanEnter(s', s.threads[u].ticket, s.threads[u].want)
    {
      assert QueuesUp(s, u, s.threads[u].ticket);
    }
  }

  lemma EnqueueFair(s: State, t: nat, want: Want)
    requires Tickets(s) && Fair(s)
    ensures Fair(Enqueue(s, t, want))
  {
    EnqueueInOrder(s, t, want);
    EnqueuePriority(s, t, want);
    EnqueueGranted(s, t, want);
    EnqueueTickets(s, t, want);
  }

  lemma EnqueueInOrder(s: State, t: nat, want: Want)
    requires Tickets(s) && InOrder(s) && Accounted(s)
    ensures InOrder(Enqueue(s, t, want))
  {
    var s' := Enqueue(s, t, want);
    if want.PriorityRead? {
      forall i | 0 < i < |s'.queue| ensures s'.queue[i] == s.queue[i - 1] {}
    }
  }

  lemma EnqueuePriority(s: State, t: nat, want: Want)
    requires Tickets(s) && Accounted(s) && PriorityFirst(s)
    ensures PriorityFirst(Enqueue(s, t, want))
  {
    var s' := Enqueue(s, t, want);
    if want.PriorityRead? {
      forall i | 0 < i < |s'.queue| ensures s'.queue[i] == s.queue[i - 1] && s'.queue[i] < s.index {}
    } else {
      assert s.index !in s'.priority;
    }
  }

  lemma EnqueueMarked(s: State, t: nat, want: Want)
    requires Queued(s) && Accounted(s) && Marked(s)
    ensures Marked(Enqueue(s, t, want)) && (s.index in Enqueue(s, t, want).priority <==> want.PriorityRead?)
  {
    forall u | u in s.threads && s.threads[u].Waiting? ensures s.threads[u].ticket < s.index {
      assert QueuesUp(s, u, s.threads[u].ticket);
    }
  }

  lemma EnqueueGranted(s: State, t: nat, want: Want)
    requires Tickets(s) && GrantedInOrder(s) && Accounted(s)
    ensures GrantedInOrder(Enqueue(s, t, want))
  {
    var s' := Enqueue(s, t, want);
    forall j | 0 <= j < |s'.queue| ensures s'.queue[j] == s.index || s'.queue[j] in s.queue {
      assert want.PriorityRead? && j > 0 ==> s'.queue[j] == s.queue[j - 1];
    }
  }

  lemma AttemptExclusive(s: State, t: nat, ticket: nat, want: Want)
    requires Exclusive(s) && t in s.threads && (s.threads[t].Idle? || s.threads[t].Waiting?)
    ensures Exclusive(Attempt(s, t, ticket, want))
  {
    hide CanEnter, Exclusive;
    if CanEnter(s, ticket, want) {
      EnterExclusive(s, t, ticket, want);
    } else {
      SleepExclusive(s, t, Waiting(ticket, want, false));
    }
  }

  lemma SleepExclusive(s: State, t: nat, pc: Pc)
    requires Exclusive(s) && t in s.threads && (s.threads[t].Idle? || s.threads[t].Waiting?) && pc.Waiting?
    ensures Exclusive(s.(threads := s.threads[t := pc]))
  {
    HoldersUpdate(s.threads, t, pc);
    assert t !in Readers(s.threads) && t !in Writers(s.threads);
  }

  lemma EnterExclusive(s: State, t: nat, ticket: nat, want: Want)
    requires Exclusive(s) && t in s.threads && (s.threads[t].Idle? || s.threads[t].Waiting?)
    requires CanEnter(s, ticket, want)
    ensures Exclusive(Attempt(s, t, ticket, want))
  {
    var s' := Attempt(s, t, ticket, want);
    assert t !in Readers(s.threads) && t !in Writers(s.threads);
    HoldersUpdate(s.threads, t, s'.threads[t]);
    HoldersUpdate(NotifyAll(s.threads), t, s'.threads[t]);
  }

  lemma AttemptQueue(s: State, t: nat, ticket: nat, want: Want)
    requires Tickets(s)
    ensures var s' := Attempt(s, t, ticket, want);
      Tickets(s') && forall k :: k in s'.queue <==> k in s.queue && !(CanEnter(s, ticket, want) && k == ticket)
  {
    if CanEnter(s, ticket, want) {
      assert s.queue == [ticket] + s.queue[1..];
      forall k | k in s.queue && k != ticket ensures k in s.queue[1..] {}
    }
  }

  lemma AttemptQueued(s: State, t: nat, ticket: nat, want: Want)
    requires Entering(s, t, ticket)
    ensures Queued(Attempt(s, t, ticket, want))
  {
    hide CanEnter, Tickets;
    var s' := Attempt(s, t, ticket, want);
    AttemptQueue(s, t, ticket, want);
    AttemptThreads(s, t, ticket, want);
    forall u | u in s'.threads && s'.threads[u].Waiting? ensures QueuesUp(s', u, s'.threads[u].ticket) {
      if u != t { assert QueuesUp(s, u, s.threads[u].ticket); }
    }
    forall i | 0 <= i < |s'.queue| ensures WaitsAt(s', s'.owner[s'.queue[i]], s'.queue[i]) {
      assert s'.queue[i] in s.queue;
    }
  }

  lemma AttemptThreads(s: State, t: nat, ticket: nat, want: Want)
    requires t in s.threads
    ensures var s' := Attempt(s, t, ticket, want);
      && s'.owner == s.owner && s'.threads.Keys == s.threads.Keys
      && (s'.threads[t].Waiting? <==> !CanEnter(s, ticket, want))
      && (s'.threads[t].Waiting? ==> s'.threads[t].ticket == ticket)
      && forall u :: u in s.threads && u != t ==>
           && (s'.threads[u].Waiting? <==> s.threads[u].Waiting?)
           && (s.threads[u].Waiting? ==> s'.threads[u].ticket == s.threads[u].ticket)
  {
  }

  lemma AttemptWakeups(s: State, t: nat, ticket: nat, want: Want)
    requires Entering(s, t, ticket) && Exclusive(s)
    ensures NoLostWakeup(Attempt(s, t, ticket, want))
  {
  }

  lemma AttemptInOrder(s: State, t: nat, ticket: nat, want: Want)
    requires InOrder(s)
    ensures InOrder(Attempt(s, t, ticket, want))
  {
  }

  lemma AttemptGranted(s: State, t: nat, ticket: nat, want: Want)
    requires InOrder(s) && GrantedInOrder(s) && Tickets(s)
    ensures GrantedInOrder(Attempt(s, t, ticket, want))
  {
    var s' := Attempt(s, t, ticket, want);
    if s'.queue != s.queue {
      forall j | 0 <= j < |s'.queue| ensures s'.queue[j] == s.queue[j + 1] {}
    }
  }

  lemma AttemptAccounted(s: State, t: nat, ticket: nat, want: Want)
    requires Accounted(s) && Tickets(s)
    ensures Accounted(Attempt(s, t, ticket, want))
  {
    AttemptQueue(s, t, ticket, want);
    var s' := Attempt(s, t, ticket, want);
    assert s.granted == s'.granted || s'.granted == s.granted + [ticket];
    assert forall k :: k in s.granted ==> k in s'.granted;
    assert s.granted != s'.granted ==> ticket in s'.granted;
  }

  lemma AttemptPriority(s: State, t: nat, ticket: nat, want: Want)
    requires PriorityFirst(s)
    ensures PriorityFirst(Attempt(s, t, ticket, want))
  {
    var s' := Attempt(s, t, ticket, want);
    if s'.queue != s.queue {
      forall j | 0 <= j < |s'.queue| ensures s'.queue[j] == s.queue[j + 1] {}
    }
  }

  lemma AttemptMarked(s: State, t: nat, ticket: nat, want: Want)
    requires t in s.threads && Marked(s) && (want.PriorityRead? <==> ticket in s.priority)
    ensures Marked(Attempt(s, t, ticket, want))
  {
  }

  lemma AttemptKeepsInv(s: State, t: nat, ticket: nat, want: Want)
    requires Entering(s, t, ticket) && Exclusive(s) && Fair(s)
    requires Marked(s) && (want.PriorityRead? <==> ticket in s.priority)
    ensures Inv(Attempt(s, t, ticket, want))
  {
    AttemptExclusive(s, t, ticket, want);
    AttemptQueued(s, t, ticket, want);
    AttemptWakeups(s, t, ticket, want);
    AttemptInOrder(s, t, ticket, want);
    AttemptPriority(s, t, ticket, want);
    AttemptMarked(s, t, ticket, want);
    AttemptGranted(s, t, ticket, want);
    AttemptAccounted(s, t, ticket, want);
  }

  /** The same queue, and the same threads waiting in it, perhaps signalled. */
  ghost predicate SameWaiters(s: State, s': State) {
    && s'.queue == s.queue && s'.owner == s.owner && s'.index == s.index
    && s'.priority == s.priority && s'.granted == s.granted
    && s'.threads.Keys == s.threads.Keys
    && (forall t :: t in s.threads ==> (s.threads[t].Waiting? <==> s'.threads[t].Waiting?))
    && (forall t :: t in s.threads && s.threads[t].Waiting? ==>
          s'.threads[t].ticket == s.threads[t].ticket && s'.threads[t].want == s.threads[t].want)
  }

  lemma SameWaitersKeep(s: State, s': State)
    requires Queued(s) && Fair(s) && Marked(s) && SameWaiters(s, s')
    ensures Queued(s') && Fair(s') && Marked(s')
  {
    forall u | u in s'.threads && s'.threads[u].Waiting? ensures QueuesUp(s', u, s'.threads[u].ticket) {
      assert QueuesUp(s, u, s.threads[u].ticket);
    }
    forall i | 0 <= i < |s'.queue| ensures WaitsAt(s', s'.owner[s'.queue[i]], s'.queue[i]) {
      assert WaitsAt(s, s.owner[s.queue[i]], s.queue[i]);
    }
  }

  lemma ReleaseExclusive(s: State, t: nat, a: Action)
    requires Exclusive(s) && Enabled(s, t, a) && (a.Unlock? || a.UnlockShared?)
    ensures Exclusive(Do(s, t, a))
  {
    HoldersUpdate(s.threads, t, Idle);
    HoldersUpdate(NotifyAll(s.threads), t, Idle);
    assert t in Readers(s.threads) || t in Writers(s.threads);
  }

  lemma ReleaseKeepsInv(s: State, t: nat, a: Action)
    requires Inv(s) && Enabled(s, t, a) && (a.Unlock? || a.UnlockShared?)
    ensures Inv(Do(s, t, a))
  {
    ReleaseExclusive(s, t, a);
    SameWaitersKeep(s, Do(s, t, a));
  }

  lemma QuickEntryExclusive(s: State, t: nat, a: Action)
    requires Exclusive(s) && Enabled(s, t, a) && (a.TryLock? || (a == LockShared(true) && s.readers > 0))
    ensures Exclusive(Do(s, t, a))
  {
    hide CanEnter, Attempt, Enqueue, NotifyAll;
    HoldersUpdate(s.threads, t, if a.LockShared? then Reading else Writing);
    assert t !in Readers(s.threads) && t !in Writers(s.threads);
  }

  lemma QuickEntryKeepsInv(s: State, t: nat, a: Action)
    requires Inv(s) && Enabled(s, t, a) && (a.TryLock? || (a == LockShared(true) && s.readers > 0))
    ensures Inv(Do(s, t, a))
  {
    QuickEntryExclusive(s, t, a);
    SameWaitersKeep(s, Do(s, t, a));
  }

  lemma WakeKeepsInv(s: State, t: nat)
    requires Inv(s) && Enabled(s, t, Wake)
    ensures Inv(Do(s, t, Wake))
  {
    hide Attempt, Enqueue, NotifyAll;
    HoldersUpdate(s.threads, t, Do(s, t, Wake).threads[t]);
    SameWaitersKeep(s, Do(s, t, Wake));
  }

  lemma StepKeepsInv(s: State, t: nat, a: Action)
    requires Inv(s) && Enabled(s, t, a)
    ensures Inv(Do(s, t, a))
  {
    match a
    case Unlock => ReleaseKeepsInv(s, t, a);
    case UnlockShared => ReleaseKeepsInv(s, t, a);
    case TryLock => QuickEntryKeepsInv(s, t, a);
    case Wake => WakeKeepsInv(s, t);
    case Retry =>
      assert QueuesUp(s, t, s.threads[t].ticket);
      AttemptKeepsInv(s, t, s.threads[t].ticket, s.threads[t].want);
    case Lock => QueueUpKeepsInv(s, t, Write);
    case LockShared(priority) =>
      if priority && s.readers > 0 { QuickEntryKeepsInv(s, t, a); }
      else { QueueUpKeepsInv(s, t, if priority then PriorityRead else Read); }
  }

  lemma QueueUpKeepsInv(s: State, t: nat, want: Want)
    requires Inv(s) && t in s.threads && s.threads[t].Idle?
    ensures Inv(Attempt(Enqueue(s, t, want), t, s.index, want))
  {
    EnqueueEnters(s, t, want);
    EnqueueFair(s, t, want);
    EnqueueMarked(s, t, want);
    AttemptKeepsInv(Enqueue(s, t, want), t, s.index, want);
  }

  // ---------------------------------------------------------------------------------------------
  // Every interleaving

  /** The states that a sequence of actions of any threads runs through. */
  ghost predicate IsRun(states: seq<State>, steps: seq<(nat, Action)>) {
    && |states| == |steps| + 1 && Init(states[0])
    && forall i :: 0 <= i < |steps| ==>
            Enabled(states[i], steps[i].0, steps[i].1) && states[i + 1] == Do(states[i], steps[i].0, steps[i].1)
  }

  lemma {:induction false} RunKeepsInv(states: seq<State>, steps: seq<(nat, Action)>, n: nat)
    requires IsRun(states, steps) && n <= |steps|
    ensures Inv(states[n])
  {
    if n == 0 {
      InitInv(states[0]);
    } else {
      RunKeepsInv(states, steps, n - 1);
      StepKeepsInv(states[n - 1], steps[n - 1].0, steps[n - 1].1);
    }
  }

  /**
   * In every reachable state the lock is marked held exactly if a thread holds it, and the readers are counted right.
   */
  lemma MarkedIffHeld(states: seq<State>, steps: seq<(nat, Action)>, n: nat)
    requires IsRun(states, steps) && n <= |steps|
    ensures states[n].locked <==>
              exists t :: t in states[n].threads && (states[n].threads[t].Reading? || states[n].threads[t].Writing?)
    ensures states[n].readers == |Readers(states[n].threads)|
  {
    RunKeepsInv(states, steps, n);
    var threads := states[n].threads;
    if states[n].locked {
      var t :| t in Readers(threads) || t in Writers(threads);
      assert threads[t].Reading? || threads[t].Writing?;
    }
    forall t | t in threads && (threads[t].Reading? || threads[t].Writing?)
      ensures t in Readers(threads) || t in Writers(threads)
    {}
  }

  /** In every reachable state a writer excludes every other holder. */
  lemma HoldersExclude(states: seq<State>, steps: seq<(nat, Action)>, n: nat, t: nat, u: nat)
    requires IsRun(states, steps) && n <= |steps|
    requires t in states[n].threads && u in states[n].threads && t != u && states[n].threads[t].Writing?
    ensures !states[n].threads[u].Writing? && !states[n].threads[u].Reading?
    ensures states[n].locked && states[n].readers == 0
  {
    RunKeepsInv(states, steps, n);
    var s := states[n];
    assert t in Writers(s.threads) && u !in Readers(s.threads) && u !in Writers(s.threads);
  }

  /**
   * Ordinary requests get in strictly in the order of their tickets: whoever came before a granted one is granted too.
   */
  lemma FirstComeFirstServed(states: seq<State>, steps: seq<(nat, Action)>, n: nat, early: nat, late: nat)
    requires IsRun(states, steps) && n <= |steps|
    requires early < late && early !in states[n].priority && late in states[n].granted
    ensures early in states[n].granted
  {
    RunKeepsInv(states, steps, n);
    var s := states[n];
    QueuedAfterGranted(s, early, late);
  }

  lemma QueuedAfterGranted(s: State, waiting: nat, granted: nat)
    requires GrantedInOrder(s) && granted in s.granted && waiting !in s.priority
    ensures waiting in s.queue ==> granted < waiting
  {
    var i :| 0 <= i < |s.granted| && s.granted[i] == granted;
    if waiting in s.queue {
      var j :| 0 <= j < |s.queue| && s.queue[j] == waiting;
      assert s.granted[i] < s.queue[j];
    }
  }

  /** Thread t waits in front of thread u. */
  ghost predicate Before(s: State, t: nat, u: nat) {
    && t in s.threads && s.threads[t].Waiting? && u in s.threads && s.threads[u].Waiting?
    && exists i, j :: 0 <= i < j < |s.queue| && s.queue[i] == s.threads[t].ticket && s.queue[j] == s.threads[u].ticket
  }

  predicate WaitsFirst(s: State, t: nat) { t in s.threads && s.threads[t].Waiting? && s.threads[t].want.PriorityRead? }

  predicate WaitsBehind(s: State, t: nat) {
    t in s.threads && s.threads[t].Waiting? && !s.threads[t].want.PriorityRead?
  }

  lemma StandsFirst(s: State, t: nat, u: nat)
    requires Queued(s) && PriorityFirst(s) && Marked(s) && WaitsFirst(s, t) && WaitsBehind(s, u)
    ensures Before(s, t, u)
  {
    var first, behind := s.threads[t].ticket, s.threads[u].ticket;
    assert QueuesUp(s, t, first) && QueuesUp(s, u, behind);
    var i :| 0 <= i < |s.queue| && s.queue[i] == first;
    var j :| 0 <= j < |s.queue| && s.queue[j] == behind;
    assert first in s.priority && behind !in s.priority;
    assert i < j;
  }

  lemma BehindIsNotHead(s: State, t: nat, u: nat)
    requires Tickets(s) && Before(s, t, u)
    ensures s.queue != [] && s.queue[0] != s.threads[u].ticket
  {
  }

  /** A priority reader stands before every other request that waits. */
  lemma PriorityStandsFirst(states: seq<State>, steps: seq<(nat, Action)>, n: nat, t: nat, u: nat)
    requires IsRun(states, steps) && n <= |steps| && WaitsFirst(states[n], t) && WaitsBehind(states[n], u)
    ensures Before(states[n], t, u)
  {
    RunKeepsInv(states, steps, n);
    StandsFirst(states[n], t, u);
  }

  predicate Holds(s: State, t: nat) { t in s.threads && (s.threads[t].Reading? || s.threads[t].Writing?) }

  /** So whoever waits without priority gets in only when no priority reader waits. */
  lemma PriorityGoesFirst(states: seq<State>, steps: seq<(nat, Action)>, n: nat, u: nat)
    requires IsRun(states, steps) && n < |steps| && WaitsBehind(states[n], u) && Holds(states[n + 1], u)
    ensures forall t :: !WaitsFirst(states[n], t)
  {
    hide Do, Enabled;
    var s := states[n];
    RunKeepsInv(states, steps, n);
    GetsInAtHead(s, steps[n].0, steps[n].1, u);
    forall t ensures !WaitsFirst(s, t) {
      if WaitsFirst(s, t) {
        StandsFirst(s, t, u);
        BehindIsNotHead(s, t, u);
        assert false;
      }
    }
  }

  /** A waiting thread gets in by its own step, from the head of the queue. */
  lemma GetsInAtHead(s: State, t: nat, a: Action, u: nat)
    requires Enabled(s, t, a) && u in s.threads && s.threads[u].Waiting? && Holds(Do(s, t, a), u)
    ensures s.queue != [] && s.queue[0] == s.threads[u].ticket && t == u && a.Retry?
  {
  }

  /** A priority reader does not wait at all while others read. */
  lemma PriorityJoinsReaders(s: State, t: nat)
    requires Inv(s) && Enabled(s, t, LockShared(true)) && Readers(s.threads) != {}
    ensures Do(s, t, LockShared(true)).threads == s.threads[t := Reading]
    ensures Do(s, t, LockShared(true)).queue == s.queue
  {
    var u :| u in Readers(s.threads);
    assert Readers(s.threads) == {u} + (Readers(s.threads) - {u});
  }

  // ---------------------------------------------------------------------------------------------
  // Who gets in when, in terms of who holds the lock and who waits

  predicate IsFree(s: State) { Readers(s.threads) == {} && Writers(s.threads) == {} }

  predicate NobodyWaits(s: State) { forall t | t in s.threads :: !s.threads[t].Waiting? }

  lemma FieldsTell(s: State)
    requires Exclusive(s) && Queued(s)
    ensures s.locked <==> !IsFree(s)
    ensures s.readers > 0 <==> Readers(s.threads) != {}
    ensures s.queue == [] <==> NobodyWaits(s)
    ensures Writers(s.threads) == {} <==> s.readers > 0 || !s.locked
  {
    if u :| u in Readers(s.threads) {
      assert Readers(s.threads) == {u} + (Readers(s.threads) - {u});
    }
    if s.queue != [] {
      assert WaitsAt(s, s.owner[s.queue[0]], s.queue[0]);
    }
    forall t | t in s.threads && s.threads[t].Waiting? ensures s.queue != [] {
      assert QueuesUp(s, t, s.threads[t].ticket);
    }
  }

  /** Exclusive access without waiting is given exactly if nobody has the lock and nobody waits. */
  lemma TryLockIff(s: State, t: nat)
    requires Inv(s) && Enabled(s, t, TryLock)
    ensures Do(s, t, TryLock).threads == if IsFree(s) && NobodyWaits(s) then s.threads[t := Writing] else s.threads
    ensures Do(s, t, TryLock).queue == s.queue
  {
    FieldsTell(s);
  }

  /** Otherwise a writer waits behind all others. */
  lemma LockIff(s: State, t: nat)
    requires Inv(s) && Enabled(s, t, Lock)
    ensures var s' := Do(s, t, Lock);
      && t in s'.threads
      && (s'.threads[t].Writing? <==> IsFree(s) && NobodyWaits(s))
      && (s'.threads[t].Waiting? <==> !s'.threads[t].Writing?)
      && (s'.threads[t].Waiting? ==> s'.threads[t].want.Write? && StandsLast(s, s', t))
  {
    FieldsTell(s);
    StandsLastIn(s, t, Write);
  }

  /**
   * A reader gets in at once exactly if no writer has the lock and nobody waits, or else waits behind all others; one
   * with priority gets in exactly if no writer has the lock, or else waits in front of all others.
   */
  lemma LockSharedIff(s: State, t: nat, priority: bool)
    requires Inv(s) && Enabled(s, t, LockShared(priority))
    ensures var s' := Do(s, t, LockShared(priority));
      && t in s'.threads
      && (s'.threads[t].Reading? <==> Writers(s.threads) == {} && (priority || NobodyWaits(s)))
      && (s'.threads[t].Waiting? <==> !s'.threads[t].Reading?)
      && (s'.threads[t].Waiting? ==>
            && s'.threads[t].want == (if priority then PriorityRead else Read)
            && if priority then StandsInFront(s, s', t) else StandsLast(s, s', t))
  {
    FieldsTell(s);
    if !priority {
      StandsLastIn(s, t, Read);
    } else if s.readers == 0 {
      StandsInFrontIn(s, t);
    }
  }

  ghost predicate StandsLast(s: State, s': State, t: nat) {
    forall u :: u in s.threads && s.threads[u].Waiting? ==> Before(s', u, t)
  }

  ghost predicate StandsInFront(s: State, s': State, t: nat) {
    forall u :: u in s.threads && s.threads[u].Waiting? ==> Before(s', t, u)
  }

  lemma StandsLastIn(s: State, t: nat, want: Want)
    requires Inv(s) && t in s.threads && s.threads[t].Idle? && !want.PriorityRead?
    ensures var s' := Attempt(Enqueue(s, t, want), t, s.index, want);
      s'.threads[t].Waiting? ==> StandsLast(s, s', t)
  {
    var s' := Attempt(Enqueue(s, t, want), t, s.index, want);
    if s'.threads[t].Waiting? {
      forall u | u in s.threads && s.threads[u].Waiting? ensures Before(s', u, t) {
        assert QueuesUp(s, u, s.threads[u].ticket);
        var i :| 0 <= i < |s.queue| && s.queue[i] == s.threads[u].ticket;
        assert s'.queue[i] == s.queue[i] && s'.queue[|s.queue|] == s.index;
      }
    }
  }

  lemma StandsInFrontIn(s: State, t: nat)
    requires Inv(s) && t in s.threads && s.threads[t].Idle?
    ensures var s' := Attempt(Enqueue(s, t, PriorityRead), t, s.index, PriorityRead);
      s'.threads[t].Waiting? ==> StandsInFront(s, s', t)
  {
    var s' := Attempt(Enqueue(s, t, PriorityRead), t, s.index, PriorityRead);
    if s'.threads[t].Waiting? {
      forall u | u in s.threads && s.threads[u].Waiting? ensures Before(s', t, u) {
        assert QueuesUp(s, u, s.threads[u].ticket);
        var i :| 0 <= i < |s.queue| && s.queue[i] == s.threads[u].ticket;
        assert s'.queue[i + 1] == s.queue[i] && s'.queue[0] == s.index;
      }
    }
  }

  /** A waiter that looks again gets in exactly if it stands in front and no holder is in its way. */
  lemma RetryIff(s: State, t: nat)
    requires Inv(s) && Enabled(s, t, Retry)
    ensures var s' := Do(s, t, Retry);
      && t in s'.threads
      && (Holds(s', t) <==>
            && (forall u :: !Before(s, u, t))
            && if s.threads[t].want.Write? then IsFree(s) else Writers(s.threads) == {})
      && (Holds(s', t) ==> (s'.threads[t].Writing? <==> s.threads[t].want.Write?))
      && (!Holds(s', t) ==> s'.threads[t] == s.threads[t].(notified := false))
  {
    FieldsTell(s);
    assert QueuesUp(s, t, s.threads[t].ticket);
    if s.queue[0] == s.threads[t].ticket {
      forall u ensures !Before(s, u, t) {}
    } else {
      var first := s.owner[s.queue[0]];
      assert WaitsAt(s, first, s.queue[0]);
      var j :| 0 <= j < |s.queue| && s.queue[j] == s.threads[t].ticket;
      assert Before(s, first, t);
    }
  }

  /** Giving the lock back gives back exactly that share of it. */
  lemma ReleaseTells(s: State, t: nat, a: Action)
    requires Inv(s) && Enabled(s, t, a) && (a.Unlock? || a.UnlockShared?)
    ensures t in Do(s, t, a).threads && Do(s, t, a).threads[t].Idle?
    ensures Readers(Do(s, t, a).threads) == Readers(s.threads) - {t}
    ensures Writers(Do(s, t, a).threads) == Writers(s.threads) - {t}
    ensures Do(s, t, a).queue == s.queue
  {
    HoldersUpdate(s.threads, t, Idle);
    HoldersUpdate(NotifyAll(s.threads), t, Idle);
  }

  /** Nobody else is let in, sent away or moved in the queue by a step; waiters may be signalled. */
  lemma OthersStay(s: State, t: nat, a: Action, u: nat)
    requires Enabled(s, t, a) && u in s.threads && u != t
    ensures u in Do(s, t, a).threads
    ensures Do(s, t, a).threads[u] == s.threads[u]
         || (s.threads[u].Waiting? && Do(s, t, a).threads[u] == s.threads[u].(notified := true))
  {
    hide CanEnter;
  }

  /** A successful try_lock overtakes nobody. */
  lemma TryLockNeverBarges(s: State, t: nat)
    requires Inv(s) && Enabled(s, t, TryLock) && Do(s, t, TryLock).threads[t].Writing?
    ensures forall u :: u in s.threads ==> !s.threads[u].Waiting? && !s.threads[u].Writing? && !s.threads[u].Reading?
  {
    forall u | u in s.threads
      ensures s.threads[u].Waiting? ==> s.queue != []
      ensures s.threads[u].Writing? ==> Writers(s.threads) != {}
      ensures s.threads[u].Reading? ==> Readers(s.threads) != {}
    {
      WaitsOrHolds(s, u);
    }
  }

  lemma WaitsOrHolds(s: State, u: nat)
    requires Queued(s) && u in s.threads
    ensures s.threads[u].Waiting? ==> s.queue != []
    ensures s.threads[u].Writing? ==> Writers(s.threads) != {}
    ensures s.threads[u].Reading? ==> Readers(s.threads) != {}
  {
    if s.threads[u].Waiting? { assert QueuesUp(s, u, s.threads[u].ticket); }
    assert s.threads[u].Writing? ==> u in Writers(s.threads);
    assert s.threads[u].Reading? ==> u in Readers(s.threads);
  }

  /**
   * No lost wakeup: whenever the thread at the head of the queue may enter, it is awake or signalled, and its next step
   * takes the lock. In particular a free lock never leaves the queue asleep.
   */
  lemma HeadGetsIn(states: seq<State>, steps: seq<(nat, Action)>, n: nat)
    requires IsRun(states, steps) && n <= |steps| && states[n].queue != []
    ensures var s := states[n];
      && s.queue[0] in s.owner
      && var t := s.owner[s.queue[0]];
      && t in s.threads && s.threads[t].Waiting?
      && (CanEnter(s, s.queue[0], s.threads[t].want) ==>
            Enabled(s, t, Retry) && (Do(s, t, Retry).threads[t].Writing? || Do(s, t, Retry).threads[t].Reading?))
      && (!s.locked ==> CanEnter(s, s.queue[0], s.threads[t].want))
  {
    RunKeepsInv(states, steps, n);
    var s := states[n];
    assert WaitsAt(s, s.owner[s.queue[0]], s.queue[0]);
  }
}
