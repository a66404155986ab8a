/**
 * How threads wait for memory, as a step system: clients hold the lock of a file and wait for room, while two cleanup
 * threads, one that evicts and one that flushes, need the locks of files to make room. Each action is what one thread
 * does while it holds the manager's mutex, or while it takes or releases the lock of a file. Models the wait loops of
 * CacheManager; which pages are cleaned is in CacheManager, and how a file's lock queues its waiters in SharedMutex.
 */
module CacheWaits {
  import opened Bytes

  datatype Kind = Evict | Flush

  function Other(k: Kind): Kind { if k.Evict? then Flush else Evict }

  /** One value for each kind of cleaning. */
  datatype Pair<T> = Pair(evict: T, flush: T) {
    function Get(k: Kind): T { if k.Evict? then evict else flush }

    function Set(k: Kind, v: T): Pair<T> { if k.Evict? then Pair(v, flush) else Pair(evict, v) }
  }

  /**
   * A thread that reads or writes files: it holds the lock of a file while inside, and also while it waits for room.
   * error tells that its wait for room has ended with an exception.
   */
  datatype Client =
    | Out
    | Inside(file: nat, exclusive: bool, error: bool)
    | Waiting(file: nat, exclusive: bool, kind: Kind, notified: bool)

  /** A cleanup thread. From Locked on it holds the lock of a file. */
  datatype Cleaner =
    | Testing
    | Asleep(notified: bool)
    | Planned(files: seq<nat>)
    | WaitLock(file: nat, rest: seq<nat>)
    | Locked(file: nat, rest: seq<nat>)
    | Working(file: nat, rest: seq<nat>)

  /**
   * skip names the file that a cleanup thread wants to lock, over tells if the limit is exceeded, failed if cleaning
   * has failed.
   */
  datatype State = State(clients: map<nat, Client>, cleaners: Pair<Cleaner>, skip: Pair<Option<nat>>,
                         over: Pair<bool>, failed: Pair<bool>)

  /**
   * Await: a client has put a page into the cache and needs room. Load: pages come and go, or the limit is measured
   * anew. Wake and WakeCleaner are spurious wakeups, Signal is a caller that does not wait.
   */
  datatype Action =
    | Acquire(client: nat, file: nat, exclusive: bool)
    | Release(client: nat)
    | Await(client: nat, kind: Kind)
    | Retry(client: nat)
    | Wake(client: nat)
    | Signal(kind: Kind)
    | Load(kind: Kind, over: bool)
    | Test(kind: Kind, files: seq<nat>)
    | WakeCleaner(kind: Kind)
    | Resume(kind: Kind)
    | Next(kind: Kind)
    | Lock(kind: Kind)
    | Clear(kind: Kind)
    | Finish(kind: Kind, failure: bool)

  predicate Holds(s: State, c: nat, file: nat) { c in s.clients && !s.clients[c].Out? && s.clients[c].file == file }

  predicate CleanerHolds(s: State, k: Kind, file: nat) {
    (s.cleaners.Get(k).Locked? || s.cleaners.Get(k).Working?) && s.cleaners.Get(k).file == file
  }

  /** A client gets a file's lock while no cleanup thread has it, and no client whose lock excludes it. */
  predicate Open(s: State, file: nat, exclusive: bool) {
    && !CleanerHolds(s, Evict, file) && !CleanerHolds(s, Flush, file)
    && forall c | c in s.clients :: Holds(s, c, file) ==> !exclusive && !s.clients[c].exclusive
  }

  /** Wakes the waiters on one condition variable, or on both. */
  function Notified(clients: map<nat, Client>, k: Kind, both: bool): map<nat, Client> {
    map c | c in clients ::
      if clients[c].Waiting? && (both || clients[c].kind == k) then clients[c].(notified := true) else clients[c]
  }

  function NotifyCleaner(s: State, k: Kind): State {
    if s.cleaners.Get(k).Asleep? then s.(cleaners := s.cleaners.Set(k, Asleep(true))) else s
  }

  /**
   * A client tests the condition of its wait loop: it goes on, perhaps with an error, or signals the cleaner and
   * sleeps.
   */
  function Attempt(s: State, c: nat, file: nat, exclusive: bool, k: Kind): State {
    if s.over.Get(k) && s.failed.Get(k) then
      s.(clients := s.clients[c := Inside(file, exclusive, true)])
    else if !s.over.Get(k) || s.skip.evict == Some(file) || s.skip.flush == Some(file) then
      s.(clients := s.clients[c := Inside(file, exclusive, false)])
    else
      NotifyCleaner(s, k).(clients := s.clients[c := Waiting(file, exclusive, k, false)])
  }

  predicate Enabled(s: State, a: Action) {
    match a
    case Acquire(c, file, exclusive) => c in s.clients && s.clients[c].Out? && Open(s, file, exclusive)
    case Release(c) => c in s.clients && s.clients[c].Inside?
    case Await(c, _) => c in s.clients && s.clients[c].Inside?
    case Retry(c) => c in s.clients && s.clients[c].Waiting? && s.clients[c].notified
    case Wake(c) => c in s.clients && s.clients[c].Waiting?
    case Signal(_) => true
    case Load(_, _) => true
    case Test(k, _) => s.cleaners.Get(k).Testing?
    case WakeCleaner(k) => s.cleaners.Get(k).Asleep?
    case Resume(k) => s.cleaners.Get(k) == Asleep(true)
    case Next(k) => s.cleaners.Get(k).Planned?
    case Lock(k) =>
      && s.cleaners.Get(k).WaitLock? && !CleanerHolds(s, Other(k), s.cleaners.Get(k).file)
      && forall c | c in s.clients :: !Holds(s, c, s.cleaners.Get(k).file)
    case Clear(k) => s.cleaners.Get(k).Locked?
    case Finish(k, _) => s.cleaners.Get(k).Working?
  }

  function Do(s: State, a: Action): State
    requires Enabled(s, a)
  {
    match a
    case Acquire(c, file, exclusive) => s.(clients := s.clients[c := Inside(file, exclusive, false)])
    case Release(c) => s.(clients := s.clients[c := Out])
    case Await(c, k) => Attempt(s.(failed := s.failed.Set(k, false)), c, s.clients[c].file, s.clients[c].exclusive, k)
    case Retry(c) => Attempt(s, c, s.clients[c].file, s.clients[c].exclusive, s.clients[c].kind)
    case Wake(c) => s.(clients := s.clients[c := s.clients[c].(notified := true)])
    case Signal(k) => NotifyCleaner(s, k)
    case Load(k, over) => s.(over := s.over.Set(k, over))
    case Test(k, files) =>
      if s.over.Get(k) && !s.failed.Get(k) then s.(cleaners := s.cleaners.Set(k, Planned(files)))
      else s.(cleaners := s.cleaners.Set(k, Asleep(false)), clients := Notified(s.clients, k, false))
    case WakeCleaner(k) => s.(cleaners := s.cleaners.Set(k, Asleep(true)))
    case Resume(k) => s.(cleaners := s.cleaners.Set(k, Testing))
    case Next(k) =>
      var files := s.cleaners.Get(k).files;
      if files == [] then s.(cleaners := s.cleaners.Set(k, Testing))
      else s.(cleaners := s.cleaners.Set(k, WaitLock(files[0], files[1..])), skip := s.skip.Set(k, Some(files[0])),
              clients := Notified(s.clients, k, true))
    case Lock(k) => s.(cleaners := s.cleaners.Set(k, Locked(s.cleaners.Get(k).file, s.cleaners.Get(k).rest)))
    case Clear(k) =>
      s.(cleaners := s.cleaners.Set(k, Working(s.cleaners.Get(k).file, s.cleaners.Get(k).rest)),
         skip := s.skip.Set(k, None))
    case Finish(k, failure) =>
      s.(cleaners := s.cleaners.Set(k, if failure then Testing else Planned(s.cleaners.Get(k).rest)),
         failed := if failure then s.failed.Set(k, true) else s.failed, clients := Notified(s.clients, k, false))
  }

  // ---------------------------------------------------------------------------------------------
  // The invariant

  /** The manager knows exactly which file a cleanup thread is about to lock. */
  ghost predicate SkipTells(s: State, k: Kind) {
    var cleaner := s.cleaners.Get(k);
    s.skip.Get(k) == if cleaner.WaitLock? || cleaner.Locked? then Some(cleaner.file) else None
  }

  predicate AsleepIn(client: Client) { client.Waiting? && !client.notified }

  /** No client sleeps on the lock that a cleanup thread waits for. */
  ghost predicate NobodyInTheWay(s: State, k: Kind) {
    s.cleaners.Get(k).WaitLock? ==>
      forall c :: c in s.clients && AsleepIn(s.clients[c]) ==> s.clients[c].file != s.cleaners.Get(k).file
  }

  /** While a client sleeps, the thread that it waits for does not. */
  ghost predicate Attended(s: State, k: Kind) {
    s.cleaners.Get(k) == Asleep(false) ==>
      forall c :: c in s.clients && AsleepIn(s.clients[c]) ==> s.clients[c].kind != k
  }

  /** A cleanup thread that has a file's lock is alone with the file. */
  ghost predicate Alone(s: State, k: Kind) {
    forall file: nat :: CleanerHolds(s, k, file) ==>
            !CleanerHolds(s, Other(k), file) && forall c :: c in s.clients ==> !Holds(s, c, file)
  }

  ghost predicate InvOf(s: State, k: Kind) { SkipTells(s, k) && NobodyInTheWay(s, k) && Attended(s, k) && Alone(s, k) }

  ghost predicate Inv(s: State) { InvOf(s, Evict) && InvOf(s, Flush) }

  ghost predicate Init(s: State) {
    && s.cleaners == Pair(Testing, Testing) && s.skip == Pair(None, None) && s.failed == Pair(false, false)
    && forall c :: c in s.clients ==> s.clients[c].Out?
  }

  lemma StepKeepsSkip(s: State, a: Action, k: Kind)
    requires SkipTells(s, k) && Enabled(s, a)
    ensures SkipTells(Do(s, a), k)
  {
  }

  lemma StepKeepsTheWayFree(s: State, a: Action, k: Kind)
    requires SkipTells(s, k) && NobodyInTheWay(s, k) && Enabled(s, a)
    ensures NobodyInTheWay(Do(s, a), k)
  {
  }

  lemma StepKeepsAttended(s: State, a: Action, k: Kind)
    requires Attended(s, k) && Enabled(s, a)
    ensures Attended(Do(s, a), k)
  {
  }

  lemma StepKeepsAlone(s: State, a: Action, k: Kind)
    requires Alone(s, k) && Alone(s, Other(k)) && Enabled(s, a)
    ensures Alone(Do(s, a), k)
  {
    var s' := Do(s, a);
    forall file: nat | CleanerHolds(s', k, file) ensures !CleanerHolds(s', Other(k), file) {
      assert a == Lock(k) || CleanerHolds(s, k, file);
      assert a == Lock(Other(k)) || (CleanerHolds(s', Other(k), file) ==> CleanerHolds(s, Other(k), file));
    }
    forall file: nat, c | CleanerHolds(s', k, file) && c in s'.clients ensures !Holds(s', c, file) {
      assert a == Lock(k) || CleanerHolds(s, k, file);
      assert a.Acquire? || (Holds(s', c, file) ==> Holds(s, c, file));
    }
  }

  lemma StepKeepsInvOf(s: State, a: Action, k: Kind)
    requires Inv(s) && Enabled(s, a)
    ensures InvOf(Do(s, a), k)
  {
    assert InvOf(s, k) && InvOf(s, Other(k));
    StepKeepsSkip(s, a, k);
    StepKeepsTheWayFree(s, a, k);
    StepKeepsAttended(s, a, k);
    StepKeepsAlone(s, a, k);
  }

  lemma StepKeepsInv(s: State, a: Action)
    requires Inv(s) && Enabled(s, a)
    ensures Inv(Do(s, a))
  {
    StepKeepsInvOf(s, a, Evict);
    StepKeepsInvOf(s, a, Flush);
  }

  // ---------------------------------------------------------------------------------------------
  // Every interleaving

  ghost predicate IsRun(states: seq<State>, steps: seq<Action>) {
    && |states| == |steps| + 1 && Init(states[0])
    && forall i :: 0 <= i < |steps| ==> Enabled(states[i], steps[i]) && states[i + 1] == Do(states[i], steps[i])
  }

  lemma {:induction false} RunKeepsInv(states: seq<State>, steps: seq<Action>, n: nat)
    requires IsRun(states, steps) && n <= |steps|
    ensures Inv(states[n])
  {
    if n > 0 {
      RunKeepsInv(states, steps, n - 1);
      StepKeepsInv(states[n - 1], steps[n - 1]);
    }
  }

  /** A file whose lock a cleanup thread is about to take. */
  predicate Wanted(s: State, file: nat) { s.skip.evict == Some(file) || s.skip.flush == Some(file) }

  /**
   * A client that needs room falls asleep exactly if the limit is exceeded and no cleanup thread wants its file. Then
   * the cleanup thread is signalled; otherwise the client goes on, and in either case earlier failures are forgotten.
   */
  lemma AwaitSleepsIff(s: State, c: nat, k: Kind)
    requires Enabled(s, Await(c, k))
    ensures var s', file, exclusive := Do(s, Await(c, k)), s.clients[c].file, s.clients[c].exclusive;
      && (AsleepIn(s'.clients[c]) <==> s.over.Get(k) && !Wanted(s, file))
      && s'.clients == s.clients[c := if AsleepIn(s'.clients[c]) then Waiting(file, exclusive, k, false)
                                      else Inside(file, exclusive, false)]
      && (AsleepIn(s'.clients[c]) ==> s'.cleaners.Get(k) != Asleep(false))
      && s'.over == s.over && s'.skip == s.skip
      && !s'.failed.Get(k) && s'.failed.Get(Other(k)) == s.failed.Get(Other(k))
  {
  }

  /** A client that looks again sleeps on exactly if besides that cleaning has not failed; a failure is thrown at it. */
  lemma RetrySleepsIff(s: State, c: nat)
    requires Enabled(s, Retry(c))
    ensures var s', file, exclusive, k := Do(s, Retry(c)), s.clients[c].file, s.clients[c].exclusive, s.clients[c].kind;
      && (AsleepIn(s'.clients[c]) <==> s.over.Get(k) && !s.failed.Get(k) && !Wanted(s, file))
      && s'.clients == s.clients[c := if AsleepIn(s'.clients[c]) then Waiting(file, exclusive, k, false)
                                      else Inside(file, exclusive, s.over.Get(k) && s.failed.Get(k))]
      && (AsleepIn(s'.clients[c]) ==> s'.cleaners.Get(k) != Asleep(false))
      && s'.over == s.over && s'.skip == s.skip && s'.failed == s.failed
  {
  }

  predicate LooksFor(a: Action, c: nat) { (a.Await? || a.Retry?) && a.client == c }

  lemma FallsAsleep(s: State, a: Action, c: nat)
    requires Enabled(s, a) && c in Do(s, a).clients && AsleepIn(Do(s, a).clients[c])
    ensures c in s.clients
    ensures !LooksFor(a, c) ==> AsleepIn(s.clients[c]) && Do(s, a).clients[c] == s.clients[c]
    ensures LooksFor(a, c) ==> s.over.Get(Do(s, a).clients[c].kind) && !Wanted(s, Do(s, a).clients[c].file)
  {
  }

  /**
   * In every run a client that sleeps fell asleep at its own last look, and the limit was exceeded then and its file
   * wanted by no cleanup thread; it has not been signalled since.
   */
  lemma {:induction false} SleepsForRoom(states: seq<State>, steps: seq<Action>, n: nat, c: nat) returns (j: nat)
    requires IsRun(states, steps) && n <= |steps| && c in states[n].clients && AsleepIn(states[n].clients[c])
    ensures j < n && LooksFor(steps[j], c)
    ensures states[j].over.Get(states[n].clients[c].kind) && !Wanted(states[j], states[n].clients[c].file)
    ensures forall i :: j < i <= n ==> c in states[i].clients && states[i].clients[c] == states[n].clients[c]
    ensures forall i :: j < i < n ==> !LooksFor(steps[i], c)
  {
    hide Enabled, Do, Wanted;
    assert Enabled(states[n - 1], steps[n - 1]) && states[n - 1 + 1] == Do(states[n - 1], steps[n - 1]);
    FallsAsleep(states[n - 1], steps[n - 1], c);
    if LooksFor(steps[n - 1], c) {
      j := n - 1;
    } else {
      j := SleepsForRoom(states, steps, n - 1, c);
    }
  }

  /** Cleaning failed at step j, and no client has asked for room since. */
  predicate FailedSince(steps: seq<Action>, k: Kind, j: nat, n: nat)
    requires n <= |steps|
  {
    j < n && steps[j] == Finish(k, true) && forall i :: j < i < n ==> !(steps[i].Await? && steps[i].kind == k)
  }

  ghost predicate HasFailed(steps: seq<Action>, k: Kind, n: nat)
    requires n <= |steps|
  {
    exists j: nat :: FailedSince(steps, k, j, n)
  }

  lemma FailureStep(s: State, a: Action, k: Kind)
    requires Enabled(s, a)
    ensures Do(s, a).failed.Get(k) <==> a == Finish(k, true) || (s.failed.Get(k) && !(a.Await? && a.kind == k))
  {
  }

  /** In every run cleaning counts as failed exactly if it has failed and no client has asked for room since. */
  lemma {:induction false} FailedIff(states: seq<State>, steps: seq<Action>, n: nat, k: Kind)
    requires IsRun(states, steps) && n <= |steps|
    ensures states[n].failed.Get(k) <==> HasFailed(steps, k, n)
  {
    hide Enabled, Do;
    if n > 0 {
      FailedIff(states, steps, n - 1, k);
      assert Enabled(states[n - 1], steps[n - 1]) && states[n - 1 + 1] == Do(states[n - 1], steps[n - 1]);
      FailureStep(states[n - 1], steps[n - 1], k);
      FailedNext(steps, k, n);
    }
  }

  lemma FailedNext(steps: seq<Action>, k: Kind, n: nat)
    requires 0 < n <= |steps|
    ensures var a := steps[n - 1];
      HasFailed(steps, k, n) <==> a == Finish(k, true) || (HasFailed(steps, k, n - 1) && !(a.Await? && a.kind == k))
  {
    var a := steps[n - 1];
    if HasFailed(steps, k, n - 1) && !(a.Await? && a.kind == k) {
      var j: nat :| FailedSince(steps, k, j, n - 1);
      assert FailedSince(steps, k, j, n);
    }
    if a == Finish(k, true) {
      assert FailedSince(steps, k, n - 1, n);
    }
    if HasFailed(steps, k, n) && a != Finish(k, true) {
      var j: nat :| FailedSince(steps, k, j, n);
      assert FailedSince(steps, k, j, n - 1);
    }
  }

  predicate OwnStep(k: Kind, a: Action) {
    (a.Test? || a.Resume? || a.Next? || a.Lock? || a.Clear? || a.Finish?) && a.kind == k
  }

  /** The steps from i up to j that cleanup thread k takes itself. */
  function OwnSteps(steps: seq<Action>, k: Kind, i: nat, j: nat): nat
    requires i <= j <= |steps|
  {
    if i == j then 0 else OwnSteps(steps, k, i, j - 1) + if OwnStep(k, steps[j - 1]) then 1 else 0
  }

  /** The steps that client c takes itself. */
  predicate OfClient(a: Action, c: nat) {
    (a.Acquire? || a.Release? || a.Await? || a.Retry? || a.Wake?) && a.client == c
  }

  /** A cleanup thread is about to sleep or has finished a file and tells its waiters, or wants a lock. */
  predicate Rouses(s: State, a: Action, k: Kind) {
    || (a.Finish? && a.kind == k)
    || (a.Test? && a.kind == k && (!s.over.Get(k) || s.failed.Get(k)))
    || (a.Next? && s.cleaners.Get(a.kind).Planned? && s.cleaners.Get(a.kind).files != [])
  }

  /** Steps of others do no more to a client than to signal it if it waits, and that exactly at these occasions. */
  lemma RousedIff(s: State, a: Action, c: nat)
    requires Enabled(s, a) && c in s.clients && !OfClient(a, c)
    ensures c in Do(s, a).clients
    ensures Do(s, a).clients[c]
         == if s.clients[c].Waiting? && Rouses(s, a, s.clients[c].kind) then s.clients[c].(notified := true)
            else s.clients[c]
  {
  }

  /** Its own steps take and give back the lock of one file, and a spurious wakeup makes it look again. */
  lemma ClientSteps(s: State, a: Action, c: nat)
    requires Enabled(s, a) && OfClient(a, c)
    ensures a.Acquire? ==> Do(s, a).clients == s.clients[c := Inside(a.file, a.exclusive, false)]
    ensures a.Release? ==> forall file: nat :: !Holds(Do(s, a), c, file)
    ensures a.Wake? ==> Enabled(Do(s, a), Retry(c))
    ensures a.Await? || a.Retry? || a.Wake? ==> forall file: nat :: Holds(Do(s, a), c, file) <==> Holds(s, c, file)
    ensures a.Await? || a.Retry? || a.Wake? ==> Do(s, a).clients[c].exclusive == s.clients[c].exclusive
  {
  }

  /** Steps that are not its own leave a cleanup thread as it is, or signal it in its sleep. */
  lemma CleanerIsLeftAlone(s: State, a: Action, k: Kind)
    requires Enabled(s, a) && !OwnStep(k, a)
    ensures Do(s, a).cleaners.Get(k) == s.cleaners.Get(k)
         || (s.cleaners.Get(k).Asleep? && Do(s, a).cleaners.Get(k) == Asleep(true))
    ensures a == Signal(k) || a == WakeCleaner(k) ==> Do(s, a).cleaners.Get(k) != Asleep(false)
    ensures a == WakeCleaner(k) ==> Enabled(Do(s, a), Resume(k))
  {
  }

  /** The limits are exceeded as the last change of the load has left them. */
  lemma OverStep(s: State, a: Action, k: Kind)
    requires Enabled(s, a)
    ensures Do(s, a).over.Get(k) == if a.Load? && a.kind == k then a.over else s.over.Get(k)
  {
  }

  /** Clients share a file only if all of them have asked for a share. */
  ghost predicate Shared(s: State) {
    forall c, d, file: nat :: c != d && Holds(s, c, file) && Holds(s, d, file) ==> !s.clients[c].exclusive
  }

  lemma StepKeepsShared(s: State, a: Action)
    requires Shared(s) && Enabled(s, a)
    ensures Shared(Do(s, a))
  {
    var s' := Do(s, a);
    forall c, d, file: nat | c != d && Holds(s', c, file) && Holds(s', d, file) ensures !s'.clients[c].exclusive {
      HeldBefore(s, a, c, file);
      HeldBefore(s, a, d, file);
    }
  }

  lemma HeldBefore(s: State, a: Action, c: nat, file: nat)
    requires Enabled(s, a) && Holds(Do(s, a), c, file)
    ensures if a.Acquire? && a.client == c then
              Open(s, file, Do(s, a).clients[c].exclusive)
            else
              Holds(s, c, file) && Do(s, a).clients[c].exclusive == s.clients[c].exclusive
  {
  }

  lemma {:induction false} RunKeepsShared(states: seq<State>, steps: seq<Action>, n: nat)
    requires IsRun(states, steps) && n <= |steps|
    ensures Shared(states[n])
  {
    if n > 0 {
      RunKeepsShared(states, steps, n - 1);
      StepKeepsShared(states[n - 1], steps[n - 1]);
    }
  }

  /** In every run a client with exclusive access to a file, waiting or not, is the only one that has its lock. */
  lemma ClientsExclude(states: seq<State>, steps: seq<Action>, n: nat, c: nat, d: nat, file: nat)
    requires IsRun(states, steps) && n <= |steps| && c != d
    requires Holds(states[n], c, file) && Holds(states[n], d, file)
    ensures !states[n].clients[c].exclusive && !states[n].clients[d].exclusive
  {
    RunKeepsShared(states, steps, n);
    assert Holds(states[n], d, file) && Holds(states[n], c, file);
  }

  /** The file whose lock cleanup thread k takes in a step, if it does. */
  function LockOf(s: State, a: Action, k: Kind): seq<nat> {
    if a == Lock(k) && s.cleaners.Get(k).WaitLock? then [s.cleaners.Get(k).file] else []
  }

  /** The files whose locks cleanup thread k takes from step i up to step n, in order. */
  function LockedFiles(states: seq<State>, steps: seq<Action>, k: Kind, i: nat, n: nat): seq<nat>
    requires i <= n <= |steps| && |states| == |steps| + 1
  {
    if i == n then [] else LockedFiles(states, steps, k, i, n - 1) + LockOf(states[n - 1], steps[n - 1], k)
  }

  /** The files that a cleanup thread has still to lock. */
  function LeftToLock(cleaner: Cleaner): seq<nat> {
    match cleaner
    case Planned(files) => files
    case WaitLock(file, rest) => [file] + rest
    case Locked(_, rest) => rest
    case Working(_, rest) => rest
    case _ => []
  }

  /** How many steps of its own a cleanup thread has left in its plan: four for a file, and one that ends the plan. */
  function StepsLeft(cleaner: Cleaner): nat {
    match cleaner
    case Planned(files) => 4 * |files| + 1
    case WaitLock(_, rest) => 4 * |rest| + 4
    case Locked(_, rest) => 4 * |rest| + 3
    case Working(_, rest) => 4 * |rest| + 2
    case _ => 0
  }

  /** Whether it is at work on a plan. */
  predicate AtWork(cleaner: Cleaner) { !cleaner.Testing? && !cleaner.Asleep? }

  /** A cleanup thread plans exactly if the limit is exceeded and cleaning has not failed; otherwise it sleeps. */
  lemma PlansIff(s: State, k: Kind, files: seq<nat>)
    requires Enabled(s, Test(k, files))
    ensures Do(s, Test(k, files)).cleaners.Get(k)
         == if s.over.Get(k) && !s.failed.Get(k) then Planned(files) else Asleep(false)
  {
  }

  lemma PlanStep(s: State, a: Action, k: Kind)
    requires Enabled(s, a) && AtWork(s.cleaners.Get(k))
    ensures var s', locks := Do(s, a), LockOf(s, a, k);
      && !(a.Test? && a.kind == k)
      && (AtWork(s'.cleaners.Get(k)) ==> LeftToLock(s.cleaners.Get(k)) == locks + LeftToLock(s'.cleaners.Get(k)))
      && (!AtWork(s'.cleaners.Get(k)) ==>
            locks == [] && (a == Finish(k, true) || LeftToLock(s.cleaners.Get(k)) == []))
  {
  }

  lemma StepsLeftStep(s: State, a: Action, k: Kind)
    requires Enabled(s, a) && AtWork(s.cleaners.Get(k)) && a != Finish(k, true)
    ensures StepsLeft(s.cleaners.Get(k)) == StepsLeft(Do(s, a).cleaners.Get(k)) + if OwnStep(k, a) then 1 else 0
    ensures !AtWork(Do(s, a).cleaners.Get(k)) ==> Do(s, a).cleaners.Get(k) == Testing
  {
  }

  lemma FailureEndsPlan(s: State, k: Kind)
    requires Enabled(s, Finish(k, true))
    ensures !AtWork(Do(s, Finish(k, true)).cleaners.Get(k))
  {
  }

  /**
   * From a plan on a cleanup thread takes the locks of exactly the planned files, each once and in order, in four steps
   * of its own for each, and stops before the end only if cleaning fails.
   */
  lemma {:induction false} PlanIsFollowed(states: seq<State>, steps: seq<Action>, k: Kind, i: nat, n: nat)
    requires IsRun(states, steps) && i <= n <= |steps| && states[i].cleaners.Get(k).Planned?
    requires forall j :: i <= j < n ==> AtWork(states[j].cleaners.Get(k))
    ensures AtWork(states[n].cleaners.Get(k)) ==>
              states[i].cleaners.Get(k).files
                == LockedFiles(states, steps, k, i, n) + LeftToLock(states[n].cleaners.Get(k))
    ensures AtWork(states[n].cleaners.Get(k)) ==>
              OwnSteps(steps, k, i, n) + StepsLeft(states[n].cleaners.Get(k))
                == 4 * |states[i].cleaners.Get(k).files| + 1
    ensures LockedFiles(states, steps, k, i, n) <= states[i].cleaners.Get(k).files
    ensures !AtWork(states[n].cleaners.Get(k)) ==>
              steps[n - 1] == Finish(k, true)
              || (LockedFiles(states, steps, k, i, n) == states[i].cleaners.Get(k).files
                  && OwnSteps(steps, k, i, n) == 4 * |states[i].cleaners.Get(k).files| + 1)
  {
    hide Enabled, Do, LockOf, LeftToLock, StepsLeft, OwnStep, AtWork;
    if i < n {
      var s, a := states[n - 1], steps[n - 1];
      PlanIsFollowed(states, steps, k, i, n - 1);
      assert Enabled(s, a) && states[n - 1 + 1] == Do(s, a) && AtWork(s.cleaners.Get(k));
      PlanStep(s, a, k);
      if a == Finish(k, true) { FailureEndsPlan(s, k); } else { StepsLeftStep(s, a, k); }
      NothingLeft(states[n].cleaners.Get(k));
      var done := LockedFiles(states, steps, k, i, n - 1);
      assert done + (LockOf(s, a, k) + LeftToLock(states[n].cleaners.Get(k)))
          == done + LockOf(s, a, k) + LeftToLock(states[n].cleaners.Get(k));
      assert done + [] == done;
    } else {
      PlanBegins(states[i].cleaners.Get(k));
    }
  }

  lemma NothingLeft(cleaner: Cleaner)
    ensures !AtWork(cleaner) ==> StepsLeft(cleaner) == 0
  {
  }

  lemma PlanBegins(cleaner: Cleaner)
    requires cleaner.Planned?
    ensures AtWork(cleaner) && LeftToLock(cleaner) == cleaner.files && StepsLeft(cleaner) == 4 * |cleaner.files| + 1
  {
  }

  /** When a cleanup thread waits for a file's lock, whoever holds the lock is awake or has been signalled. */
  lemma HoldersAreAwake(states: seq<State>, steps: seq<Action>, n: nat, k: Kind, c: nat)
    requires IsRun(states, steps) && n <= |steps|
    requires states[n].cleaners.Get(k).WaitLock? && Holds(states[n], c, states[n].cleaners.Get(k).file)
    ensures !AsleepIn(states[n].clients[c])
  {
    RunKeepsInv(states, steps, n);
    assert InvOf(states[n], k);
  }

  /** When a client sleeps, the cleanup thread that it waits for is awake or has been signalled. */
  lemma CleanerIsAwake(states: seq<State>, steps: seq<Action>, n: nat, c: nat)
    requires IsRun(states, steps) && n <= |steps| && c in states[n].clients && AsleepIn(states[n].clients[c])
    ensures states[n].cleaners.Get(states[n].clients[c].kind) != Asleep(false)
  {
    RunKeepsInv(states, steps, n);
    assert InvOf(states[n], states[n].clients[c].kind);
  }

  /** A cleanup thread never shares a file with anyone. */
  lemma CleanersWorkAlone(states: seq<State>, steps: seq<Action>, n: nat, k: Kind, c: nat)
    requires IsRun(states, steps) && n <= |steps| && states[n].cleaners.Get(k).Working?
    ensures !CleanerHolds(states[n], Other(k), states[n].cleaners.Get(k).file)
         && !Holds(states[n], c, states[n].cleaners.Get(k).file)
  {
    RunKeepsInv(states, steps, n);
    assert InvOf(states[n], k);
    assert CleanerHolds(states[n], k, states[n].cleaners.Get(k).file);
  }

  /** The step is one of the cleanup thread itself, or of a thread that holds the lock the cleanup thread waits for. */
  predicate Unblocks(s: State, k: Kind, a: Action) {
    match a
    case Release(c) => s.cleaners.Get(k).WaitLock? && Holds(s, c, s.cleaners.Get(k).file)
    case Retry(c) => s.cleaners.Get(k).WaitLock? && Holds(s, c, s.cleaners.Get(k).file)
    case Clear(j) => j == k || (s.cleaners.Get(k).WaitLock? && CleanerHolds(s, j, s.cleaners.Get(k).file))
    case Finish(j, _) => j == k || (s.cleaners.Get(k).WaitLock? && CleanerHolds(s, j, s.cleaners.Get(k).file))
    case Test(j, _) => j == k
    case Resume(j) => j == k
    case Next(j) => j == k
    case Lock(j) => j == k
    case _ => false
  }

  /**
   * No deadlock: while a client sleeps, the thread that it waits for can go on, or is waiting for a thread that can.
   */
  lemma NoDeadlock(states: seq<State>, steps: seq<Action>, n: nat, c: nat)
    requires IsRun(states, steps) && n <= |steps| && c in states[n].clients && AsleepIn(states[n].clients[c])
    ensures exists a :: Enabled(states[n], a) && Unblocks(states[n], states[n].clients[c].kind, a)
  {
    var s, k := states[n], states[n].clients[c].kind;
    RunKeepsInv(states, steps, n);
    assert InvOf(s, k);
    match s.cleaners.Get(k)
    case Testing => assert Unblocks(s, k, Test(k, [])) && Enabled(s, Test(k, []));
    case Asleep(_) => assert Unblocks(s, k, Resume(k)) && Enabled(s, Resume(k));
    case Planned(_) => assert Unblocks(s, k, Next(k)) && Enabled(s, Next(k));
    case Locked(_, _) => assert Unblocks(s, k, Clear(k)) && Enabled(s, Clear(k));
    case Working(_, _) => assert Unblocks(s, k, Finish(k, false)) && Enabled(s, Finish(k, false));
    case WaitLock(file, _) => LockComesFree(s, k);
  }

  lemma LockComesFree(s: State, k: Kind)
    requires Inv(s) && s.cleaners.Get(k).WaitLock?
    ensures exists a :: Enabled(s, a) && Unblocks(s, k, a)
  {
    var file := s.cleaners.Get(k).file;
    assert InvOf(s, k);
    if CleanerHolds(s, Other(k), file) {
      var a := if s.cleaners.Get(Other(k)).Locked? then Clear(Other(k)) else Finish(Other(k), false);
      assert Enabled(s, a) && Unblocks(s, k, a);
    } else if exists c :: c in s.clients && Holds(s, c, file) {
      var c :| c in s.clients && Holds(s, c, file);
      var a := if s.clients[c].Inside? then Release(c) else Retry(c);
      assert Enabled(s, a) && Unblocks(s, k, a);
    } else {
      assert Enabled(s, Lock(k)) && Unblocks(s, k, Lock(k));
    }
  }

  /** A signalled client whose file is wanted does not go back to sleep, so the lock it holds does come free. */
  lemma WantedFileIsLeft(states: seq<State>, steps: seq<Action>, n: nat, k: Kind, c: nat)
    requires IsRun(states, steps) && n <= |steps| && states[n].cleaners.Get(k).WaitLock?
    requires Holds(states[n], c, states[n].cleaners.Get(k).file) && states[n].clients[c].Waiting?
    ensures Enabled(states[n], Retry(c)) && Do(states[n], Retry(c)).clients[c].Inside?
  {
    RunKeepsInv(states, steps, n);
    assert InvOf(states[n], k);
  }

  /** When a cleanup thread has nothing more to do, or has finished a file, nobody is left asleep that waited for it. */
  lemma DoneWakesAll(s: State, a: Action, c: nat)
    requires Enabled(s, a) && (a.Finish? || (a.Test? && (!s.over.Get(a.kind) || s.failed.Get(a.kind))))
    requires c in s.clients && s.clients[c].Waiting? && s.clients[c].kind == a.kind
    ensures Do(s, a).clients[c] == s.clients[c].(notified := true)
  {
  }

  // ---------------------------------------------------------------------------------------------
  // How long a client sleeps

  /** How often from i up to j it finds the limit exceeded and yet no file to clean. */
  function EmptyPlans(steps: seq<Action>, k: Kind, i: nat, j: nat): nat
    requires i <= j <= |steps|
  {
    if i == j then 0 else EmptyPlans(steps, k, i, j - 1) + if steps[j - 1] == Test(k, []) then 1 else 0
  }

  predicate SleepsFor(s: State, c: nat, k: Kind) { c in s.clients && AsleepIn(s.clients[c]) && s.clients[c].kind == k }

  /** How many more own steps the cleanup thread can take, without an empty plan, and wake nobody. */
  function QuietSteps(cleaner: Cleaner): nat {
    match cleaner
    case Testing => 1
    case Asleep(_) => 2
    case Planned(files) => if files == [] then 2 else 0
    case WaitLock(_, _) => 2
    case Locked(_, _) => 1
    case Working(_, _) => 0
  }

  lemma SleepStep(s: State, a: Action, c: nat, k: Kind)
    requires Enabled(s, a) && SleepsFor(s, c, k) && SleepsFor(Do(s, a), c, k)
    ensures QuietSteps(Do(s, a).cleaners.Get(k)) + (if OwnStep(k, a) then 1 else 0)
              <= QuietSteps(s.cleaners.Get(k)) + if a == Test(k, []) then 2 else 0
  {
    if OwnStep(k, a) && (a.Finish? || (a.Test? && (!s.over.Get(a.kind) || s.failed.Get(a.kind)))) {
      DoneWakesAll(s, a, c);
    }
  }

  lemma {:induction false} SleepSteps(states: seq<State>, steps: seq<Action>, i: nat, j: nat, c: nat, k: Kind)
    requires IsRun(states, steps) && i <= j <= |steps|
    requires forall n :: i <= n <= j ==> SleepsFor(states[n], c, k)
    ensures OwnSteps(steps, k, i, j) + QuietSteps(states[j].cleaners.Get(k))
              <= QuietSteps(states[i].cleaners.Get(k)) + 2 * EmptyPlans(steps, k, i, j)
  {
    hide QuietSteps, OwnStep, SleepsFor, Enabled, Do, Init;
    if i < j {
      assert Enabled(states[j - 1], steps[j - 1]) && states[j - 1 + 1] == Do(states[j - 1], steps[j - 1]);
      assert SleepsFor(states[j - 1], c, k) && SleepsFor(states[j], c, k);
      SleepSteps(states, steps, i, j - 1, c, k);
      SleepStep(states[j - 1], steps[j - 1], c, k);
    }
  }

  /**
   * No client sleeps long: in any run, while a client sleeps the cleanup thread that it waits for takes at most two
   * steps, and two more for every time that it finds the limit exceeded but no file to clean; one more step wakes the
   * client.
   */
  lemma SleepIsShort(states: seq<State>, steps: seq<Action>, i: nat, j: nat, c: nat, k: Kind)
    requires IsRun(states, steps) && i <= j <= |steps|
    requires forall n :: i <= n <= j ==> SleepsFor(states[n], c, k)
    ensures OwnSteps(steps, k, i, j) <= 2 + 2 * EmptyPlans(steps, k, i, j)
  {
    SleepSteps(states, steps, i, j, c, k);
  }

  /** How it is while only client 0 and the evicting cleanup thread do anything. */
  function Scene(client: Client, cleaner: Cleaner, skip: Option<nat>, over: bool): State {
    State(map[0 := client], Pair(cleaner, Testing), Pair(skip, None), Pair(over, false), Pair(false, false))
  }

  predicate Leads(s: State, a: Action, s': State) { Enabled(s, a) && s' == Do(s, a) }

  function SceneAt(file: nat, i: nat): State {
    var asleep, inside := Client.Waiting(file, true, Evict, false), Inside(file, true, false);
    match i
    case 0 => Scene(Out, Testing, None, false)
    case 1 => Scene(Out, Asleep(false), None, false)
    case 2 => Scene(Out, Asleep(false), None, true)
    case 3 => Scene(inside, Asleep(false), None, true)
    case 4 => Scene(asleep, Asleep(true), None, true)
    case 5 => Scene(asleep, Testing, None, true)
    case 6 => Scene(asleep, Planned([file]), None, true)
    case 7 => Scene(asleep.(notified := true), WaitLock(file, []), Some(file), true)
    case 8 => Scene(inside, WaitLock(file, []), Some(file), true)
    case 9 => Scene(Out, WaitLock(file, []), Some(file), true)
    case 10 => Scene(Out, Locked(file, []), Some(file), true)
    case 11 => Scene(Out, Working(file, []), None, true)
    case 12 => Scene(Out, Planned([]), None, true)
    case _ => Scene(inside, Planned([]), None, true)
  }

  function StepAt(file: nat, i: nat): Action {
    match i
    case 0 => Test(Evict, [])
    case 1 => Load(Evict, true)
    case 2 => Acquire(0, file, true)
    case 3 => Await(0, Evict)
    case 4 => Resume(Evict)
    case 5 => Test(Evict, [file])
    case 6 => Next(Evict)
    case 7 => Retry(0)
    case 8 => Release(0)
    case 9 => Lock(Evict)
    case 10 => Clear(Evict)
    case 11 => Finish(Evict, false)
    case _ => Acquire(0, file, true)
  }

  /**
   * A client's own file is cleaned while it waits for room: it falls asleep with the file's lock, is told that the
   * cleanup thread wants the lock, and leaves; the thread gets the lock, and the client gets it back afterwards.
   */
  lemma OwnFileIsCleaned(file: nat) returns (states: seq<State>, steps: seq<Action>)
    ensures IsRun(states, steps) && |steps| == 13
    ensures SleepsFor(states[4], 0, Evict) && Holds(states[4], 0, file)
    ensures states[7].cleaners.evict == WaitLock(file, []) && Holds(states[7], 0, file)
    ensures CleanerHolds(states[10], Evict, file) && steps[11] == Finish(Evict, false) && Holds(states[13], 0, file)
  {
    states, steps := seq(14, i requires 0 <= i => SceneAt(file, i)), seq(13, i requires 0 <= i => StepAt(file, i));
    hide Enabled, Do, SceneAt, StepAt;
    forall i | 0 <= i < 13 ensures Enabled(states[i], steps[i]) && states[i + 1] == Do(states[i], steps[i]) {
      SceneLeads(file, i);
    }
    FirstScene(file);
    OtherScenes(file);
  }

  lemma FirstScene(file: nat)
    ensures forall c :: c in SceneAt(file, 0).clients ==> SceneAt(file, 0).clients[c].Out?
    ensures SceneAt(file, 0) == Scene(Out, Testing, None, false)
  {
  }

  lemma OtherScenes(file: nat)
    ensures SceneAt(file, 4) == Scene(Client.Waiting(file, true, Evict, false), Asleep(true), None, true)
    ensures SceneAt(file, 7) == Scene(Client.Waiting(file, true, Evict, true), WaitLock(file, []), Some(file), true)
    ensures SceneAt(file, 10) == Scene(Out, Locked(file, []), Some(file), true)
    ensures StepAt(file, 11) == Finish(Evict, false)
    ensures SceneAt(file, 13) == Scene(Inside(file, true, false), Planned([]), None, true)
  {
  }

  lemma SceneLeads(file: nat, i: nat)
    requires i < 13
    ensures Leads(SceneAt(file, i), StepAt(file, i), SceneAt(file, i + 1))
  {
    if i < 4 {
      FallsAsleepInside(file);
    } else if i < 7 {
      CleanerComes(file);
    } else if i < 9 {
      ClientLeaves(file);
    } else if i < 12 {
      CleanerWorks(file);
    } else {
      ClientComesBack(file);
    }
    hide Enabled, Do, Scene, Leads;
  }

  lemma FallsAsleepInside(file: nat)
    ensures Leads(Scene(Out, Testing, None, false), Test(Evict, []), Scene(Out, Asleep(false), None, false))
    ensures Leads(Scene(Out, Asleep(false), None, false), Load(Evict, true), Scene(Out, Asleep(false), None, true))
    ensures Leads(Scene(Out, Asleep(false), None, true), Acquire(0, file, true),
                  Scene(Inside(file, true, false), Asleep(false), None, true))
    ensures Leads(Scene(Inside(file, true, false), Asleep(false), None, true), Await(0, Evict),
                  Scene(Client.Waiting(file, true, Evict, false), Asleep(true), None, true))
  {
  }

  lemma CleanerComes(file: nat)
    ensures var asleep := Client.Waiting(file, true, Evict, false);
      && Leads(Scene(asleep, Asleep(true), None, true), Resume(Evict), Scene(asleep, Testing, None, true))
      && Leads(Scene(asleep, Testing, None, true), Test(Evict, [file]), Scene(asleep, Planned([file]), None, true))
      && Leads(Scene(asleep, Planned([file]), None, true), Next(Evict),
               Scene(asleep.(notified := true), WaitLock(file, []), Some(file), true))
  {
    assert [file][1..] == [];
  }

  lemma ClientLeaves(file: nat)
    ensures Leads(Scene(Client.Waiting(file, true, Evict, true), WaitLock(file, []), Some(file), true), Retry(0),
                  Scene(Inside(file, true, false), WaitLock(file, []), Some(file), true))
    ensures Leads(Scene(Inside(file, true, false), WaitLock(file, []), Some(file), true), Release(0),
                  Scene(Out, WaitLock(file, []), Some(file), true))
  {
  }

  lemma CleanerWorks(file: nat)
    ensures Leads(Scene(Out, WaitLock(file, []), Some(file), true), Lock(Evict),
                  Scene(Out, Locked(file, []), Some(file), true))
    ensures Leads(Scene(Out, Locked(file, []), Some(file), true), Clear(Evict),
                  Scene(Out, Working(file, []), None, true))
    ensures Leads(Scene(Out, Working(file, []), None, true), Finish(Evict, false), Scene(Out, Planned([]), None, true))
  {
  }

  lemma ClientComesBack(file: nat)
    ensures Leads(Scene(Out, Planned([]), None, true), Acquire(0, file, true),
                  Scene(Inside(file, true, false), Planned([]), None, true))
  {
  }
}
