/**
 * Which dirty pages of a file with random access the cache manager knows: between a page's entry in the dirty queue and
 * its dirty mark lies the making of room, which may write that very page. What a write to the server changes is in
 * PageStore, the queues themselves are in CacheManager. Models how PageManager and CacheManager work together.
 */
module DirtyTracking {
  import opened Bytes
  import opened PageStore
  import opened PageManagers

  /** The size of a memory page. */
  type Unit = n: nat | n > 0 witness 4096

  /** How much memory a page of so many bytes takes, in memory pages. */
  function Capacity(bytes: nat, unit: Unit): nat { (bytes + unit - 1) / unit }

  /** It is the smallest number of memory pages that hold so many bytes. */
  lemma CapacityIsLeast(bytes: nat, unit: Unit)
    ensures bytes <= Start(Capacity(bytes, unit), unit)
    ensures Capacity(bytes, unit) > 0 ==> Start(Capacity(bytes, unit) - 1, unit) < bytes
  {
    SplitOffset(bytes + unit - 1, unit);
    StartIsProduct(Capacity(bytes, unit), unit);
  }

  /**
   * The file's pages, which of them are in the dirty queue, and the memory pages that the cache has counted for each.
   */
  datatype State = State(unit: Unit, store: Store, queued: set<nat>, counted: map<nat, nat>)

  /** A dirty page that no cleanup will ever find. */
  ghost predicate Untracked(t: State, p: nat) { DirtyAt(t.store, p) && p !in t.queued }

  ghost predicate AllTracked(t: State) { forall p: nat :: !Untracked(t, p) }

  /** The page takes more memory than the cache has counted for it. */
  predicate Grows(t: State, index: nat, size: nat) {
    Capacity(size, t.unit) > if index in t.counted then t.counted[index] else 0
  }

  /** The cache counts every page, with the memory that it takes. */
  ghost predicate CountedRight(t: State) {
    forall p :: p in t.store.pages ==> p in t.counted && t.counted[p] == Capacity(|t.store.pages[p].data|, t.unit)
  }

  predicate TakesMore(t: State, index: nat, size: nat)
    requires index in t.store.pages
  {
    Capacity(size, t.unit) > Capacity(|t.store.pages[index].data|, t.unit)
  }

  /** A page that the cache counts right makes room exactly if its new size takes more memory pages than its old one. */
  lemma GrowsIff(t: State, index: nat, size: nat)
    requires CountedRight(t) && index in t.store.pages
    ensures Grows(t, index, size) <==> TakesMore(t, index, size)
  {
  }

  // ---------------------------------------------------------------------------------------------
  // Making room

  /** A page is flushed or evicted, and with it count dirty pages from that page on are written. */
  datatype Cleaning = Cleaning(start: nat, count: nat, evict: bool)

  ghost predicate CanClean(t: State, c: Cleaning, limit: nat) {
    && c.start in t.store.pages
    && if t.store.pages[c.start].dirty then c.count > 0 && EndsInTime(t.store, Run(c.start, c.count), limit)
       else c.count == 0
  }

  /** Written pages are clean and leave the dirty queue, and so does the page that was asked for. */
  ghost function Clean(t: State, c: Cleaning): State
    requires DirtyRun(t.store, c.start, c.count)
  {
    var s := if c.count > 0 then Flushed(t.store, c.start, c.count) else t.store;
    State(t.unit, if c.evict then Erased(s, c.start) else s,
          set p | p in t.queued && p != c.start && !(c.start <= p < c.start + c.count),
          if c.evict then t.counted - {c.start} else t.counted)
  }

  /** Any pages but one are cleaned, one after the other. */
  ghost predicate CanCleanAll(t: State, cs: seq<Cleaning>, keep: nat, limit: nat)
    decreases |cs|
  {
    cs != [] ==> cs[0].start != keep && CanClean(t, cs[0], limit) && CanCleanAll(Clean(t, cs[0]), cs[1..], keep, limit)
  }

  ghost function CleanAll(t: State, cs: seq<Cleaning>, keep: nat, limit: nat): State
    requires CanCleanAll(t, cs, keep, limit)
    decreases |cs|
  {
    if cs == [] then t else CleanAll(Clean(t, cs[0]), cs[1..], keep, limit)
  }

  /** A cleaning changes no page's bytes, makes no page dirty and loses none. */
  lemma CleanLosesNothing(t: State, c: Cleaning, limit: nat)
    requires CanClean(t, c, limit)
    ensures var t' := Clean(t, c);
      && (forall p: nat :: Untracked(t', p) ==> Untracked(t, p))
      && (forall p: nat :: p in t'.store.pages ==>
                p in t.store.pages && t'.store.pages[p].data == t.store.pages[p].data)
      && (forall p: nat :: DirtyAt(t'.store, p) ==> DirtyAt(t.store, p))
  {
  }

  /** A page that is kept leaves the dirty queue only when it is written along with an earlier one. */
  lemma CleanKeeps(t: State, c: Cleaning, keep: nat, limit: nat)
    requires CanClean(t, c, limit) && c.start != keep && keep in t.store.pages
    ensures keep in Clean(t, c).store.pages
    ensures keep in t.queued && keep !in Clean(t, c).queued ==> c.start < keep < c.start + c.count
  {
  }

  // ---------------------------------------------------------------------------------------------
  // A write

  /** The page gets its new size, or is created, and goes to the front of the dirty queue. */
  function Informed(t: State, index: nat, data: seq<Byte>): State {
    State(t.unit, WithPage(t.store, index, data, index in t.store.pages && t.store.pages[index].dirty),
          t.queued + {index}, t.counted[index := Capacity(|data|, t.unit)])
  }

  /** At last the page is marked dirty. */
  function Marked(t: State, index: nat): State
    requires index in t.store.pages
  {
    t.(store := WithPage(t.store, index, t.store.pages[index].data, true))
  }

  /**
   * The page is dirty already, the page before it is too, and both fit into one write to the server. The new page has
   * size bytes.
   */
  ghost predicate CanBeWrittenBefore(t: State, index: nat, size: nat, limit: nat) {
    && index > 0 && DirtyAt(t.store, index) && DirtyAt(t.store, index - 1)
    && (limit == 0 || |t.store.pages[index - 1].data| + size <= limit)
  }

  /** Neighbours in a run are no longer than the run. */
  lemma {:induction false} PairFits(s: Store, a: nat, m: nat, p: nat)
    requires DirtyRun(s, a, m) && a < p < a + m
    ensures |s.pages[p - 1].data| + |s.pages[p].data| <= |Stream(s.pages, a, m)|
    decreases m
  {
    StreamNext(s, a, m - 1);
    if p < a + m - 1 {
      PairFits(s, a, m - 1, p);
    } else {
      StreamNext(s, a, m - 2);
    }
  }

  /** A page is written along with an earlier one only if the page before it is dirty, and both fit. */
  lemma WrittenAlong(t: State, c: Cleaning, keep: nat, limit: nat)
    requires CanClean(t, c, limit) && c.start < keep < c.start + c.count
    ensures DirtyAt(t.store, keep) && CanBeWrittenBefore(t, keep, |t.store.pages[keep].data|, limit)
  {
    PairFits(t.store, c.start, c.count, keep);
  }

  /** If the page cannot be written with the one before it, it stays in the queue. */
  lemma {:induction false} StaysQueued(t: State, cs: seq<Cleaning>, keep: nat, limit: nat)
    requires keep in t.store.pages && keep in t.queued && CanCleanAll(t, cs, keep, limit)
    requires !CanBeWrittenBefore(t, keep, |t.store.pages[keep].data|, limit)
    ensures keep in CleanAll(t, cs, keep, limit).queued
    decreases |cs|
  {
    if cs != [] {
      CleanKeeps(t, cs[0], keep, limit);
      CleanLosesNothing(t, cs[0], limit);
      if cs[0].start < keep < cs[0].start + cs[0].count {
        WrittenAlong(t, cs[0], keep, limit);
      }
      StaysQueued(Clean(t, cs[0]), cs[1..], keep, limit);
    }
  }

  /** Whatever is cleaned, no page gets lost. */
  lemma {:induction false} CleanAllKeeps(t: State, cs: seq<Cleaning>, keep: nat, limit: nat)
    requires keep in t.store.pages && CanCleanAll(t, cs, keep, limit)
    ensures keep in CleanAll(t, cs, keep, limit).store.pages
    ensures forall p: nat :: Untracked(CleanAll(t, cs, keep, limit), p) ==> Untracked(t, p)
    decreases |cs|
  {
    if cs != [] {
      CleanKeeps(t, cs[0], keep, limit);
      CleanLosesNothing(t, cs[0], limit);
      CleanAllKeeps(Clean(t, cs[0]), cs[1..], keep, limit);
    }
  }

  /** The longest run that may be written at once from a page on. */
  lemma {:induction false} LongestRun(s: Store, start: nat, count: nat, limit: nat) returns (longest: nat)
    requires count > 0 && WithinLimit(s, Run(start, count), limit)
    ensures longest >= count && EndsInTime(s, Run(start, longest), limit)
    decreases Bound(s.pages) - start - count
  {
    longest := count;
    var next := start + count;
    if DirtyAt(s, next) {
      StreamNext(s, start, count);
      if limit == 0 || |Stream(s.pages, start, count)| + |s.pages[next].data| <= limit {
        longest := LongestRun(s, start, count + 1, limit);
      }
    }
  }

  /** Flushing the page before takes the page along. */
  lemma WrittenBefore(t: State, keep: nat, limit: nat) returns (c: Cleaning)
    requires keep in t.store.pages && CanBeWrittenBefore(t, keep, |t.store.pages[keep].data|, limit)
    ensures c.start != keep && CanClean(t, c, limit) && keep !in Clean(t, c).queued
  {
    var s := t.store;
    StreamNext(s, keep - 1, 0);
    StreamNext(s, keep - 1, 1);
    var count := LongestRun(s, keep - 1, 2, limit);
    c := Cleaning(keep - 1, count, false);
  }

  /** A whole write. Room is made, in any way, only if the page takes more memory than the cache has counted for it. */
  ghost predicate Writes(t: State, index: nat, data: seq<Byte>, limit: nat, cs: seq<Cleaning>, t': State) {
    && (Grows(t, index, |data|) || cs == []) && CanCleanAll(Informed(t, index, data), cs, index, limit)
    && var mid := CleanAll(Informed(t, index, data), cs, index, limit);
    index in mid.store.pages && t' == Marked(mid, index)
  }

  lemma InformedKeeps(t: State, index: nat, data: seq<Byte>)
    ensures forall p: nat :: Untracked(Informed(t, index, data), p) ==> Untracked(t, p) && p != index
    ensures DirtyAt(Informed(t, index, data).store, index) <==> DirtyAt(t.store, index)
    ensures index > 0 ==> (DirtyAt(Informed(t, index, data).store, index - 1) <==> DirtyAt(t.store, index - 1))
    ensures forall limit: nat ::
      CanBeWrittenBefore(Informed(t, index, data), index, |data|, limit) <==>
              CanBeWrittenBefore(t, index, |data|, limit)
  {
  }

  lemma MarkedKeeps(t: State, index: nat)
    requires index in t.store.pages
    ensures DirtyAt(Marked(t, index).store, index)
    ensures forall p: nat :: p != index ==> (Untracked(Marked(t, index), p) <==> Untracked(t, p))
  {
  }

  /** A write loses no page but the one that it writes, and that only in the case that the theorem below describes. */
  lemma WriteKeeps(t: State, index: nat, data: seq<Byte>, limit: nat, cs: seq<Cleaning>, t': State)
    requires Writes(t, index, data, limit, cs, t')
    ensures DirtyAt(t'.store, index) && forall p: nat :: p != index && Untracked(t', p) ==> Untracked(t, p)
    ensures !(Grows(t, index, |data|) && CanBeWrittenBefore(t, index, |data|, limit)) ==> !Untracked(t', index)
  {
    hide CanBeWrittenBefore, Untracked;
    var t1 := Informed(t, index, data);
    InformedKeeps(t, index, data);
    CleanAllKeeps(t1, cs, index, limit);
    MarkedKeeps(CleanAll(t1, cs, index, limit), index);
    if !(Grows(t, index, |data|) && CanBeWrittenBefore(t, index, |data|, limit)) {
      if Grows(t, index, |data|) {
        StaysQueued(t1, cs, index, limit);
      }
      QueuedIsTracked(t', index);
    }
  }

  lemma QueuedIsTracked(t: State, p: nat)
    requires p in t.queued
    ensures !Untracked(t, p)
  {
  }

  /**
   * After a write the page that it wrote is in the dirty queue, whatever was cleaned to make room, exactly unless the
   * page takes more memory than was counted for it, was dirty before, and can be written back together with the page
   * before it.
   */
  lemma WrittenIsTrackedIff(t: State, index: nat, data: seq<Byte>, limit: nat)
    ensures (exists cs, t' :: Writes(t, index, data, limit, cs, t') && Untracked(t', index))
       <==> Grows(t, index, |data|) && CanBeWrittenBefore(t, index, |data|, limit)
  {
    if Grows(t, index, |data|) && CanBeWrittenBefore(t, index, |data|, limit) {
      var t1 := Informed(t, index, data);
      InformedKeeps(t, index, data);
      var c := WrittenBefore(t1, index, limit);
      CleanKeeps(t1, c, index, limit);
      assert CleanAll(t1, [c], index, limit) == Clean(t1, c);
      var t' := Marked(Clean(t1, c), index);
      assert Writes(t, index, data, limit, [c], t') && Untracked(t', index);
    }
    forall cs, t' | Writes(t, index, data, limit, cs, t') && Untracked(t', index)
      ensures Grows(t, index, |data|) && CanBeWrittenBefore(t, index, |data|, limit)
    {
      WriteKeeps(t, index, data, limit, cs, t');
    }
  }

  /** A file in pages of 8192 bytes, one and a half pages long, all of it still to be written. */
  function HalfPageMore(): State {
    State(4096, Store(8192, map[0 := Page(Zeros(8192), true), 1 := Page(Zeros(4096), true)], 12288, [], true), {0, 1},
          map[0 := 2, 1 := 1])
  }

  lemma Capacities()
    ensures Capacity(4096, 4096) == 1 && Capacity(4097, 4096) == 2 && Capacity(8192, 4096) == 2
  {
  }

  lemma TwoDirtyPages(s: Store, first: seq<Byte>, last: seq<Byte>)
    requires s.pages == map[0 := Page(first, true), 1 := Page(last, true)] && s.remote == []
    requires s.ps > 0 && |first| == s.ps && 0 < |last| <= s.ps && s.fileSize == |first + last|
    ensures Consistent(s)
  {
    hide Mirrors;
    assert Start(0, s.ps) == 0 && Start(1, s.ps) == s.ps;
    assert PageOk(s, s.fileSize, 0) && PageOk(s, s.fileSize, 1);
    assert DirtyAt(s, 1);
  }

  /**
   * It happens when a client appends one byte to that file while the dirty limit is reached: the last page is then
   * dirty, and the cleanup does not know.
   */
  lemma AppendLosesTrack()
    ensures Consistent(HalfPageMore().store) && AllTracked(HalfPageMore()) && CountedRight(HalfPageMore())
    ensures exists cs, t' :: Writes(HalfPageMore(), 1, Zeros(4097), 0, cs, t') && Untracked(t', 1)
  {
    hide Writes, Capacity, Consistent;
    TwoDirtyPages(HalfPageMore().store, Zeros(8192), Zeros(4096));
    assert Capacity(4096, 4096) == 1 && Capacity(4097, 4096) == 2 && Capacity(8192, 4096) == 2 by { Capacities(); }
    WrittenIsTrackedIff(HalfPageMore(), 1, Zeros(4097), 0);
  }

  // ---------------------------------------------------------------------------------------------
  // Every run

  /**
   * What happens to the pages of a file. Read uses a cached page, Fetch brings one from the server, Refetch is what a
   * fetch does that finds its page there already, Resize and Drop are what truncating does to a page, and a cleanup
   * thread or another file's writer may flush or evict any page.
   */
  datatype Event =
    | Write(index: nat, data: seq<Byte>, limit: nat, cs: seq<Cleaning>)
    | Read(index: nat)
    | Fetch(index: nat, data: seq<Byte>)
    | Refetch(index: nat)
    | Resize(index: nat, data: seq<Byte>)
    | Drop(index: nat)
    | Cleanup(cleaning: Cleaning, limit: nat)

  /** What telling the cache of a used page does: it is queued anew, as a dirty page only if the caller says so. */
  function Used(t: State, index: nat, dirty: bool): State
    requires index in t.store.pages
  {
    t.(queued := if dirty then t.queued + {index} else t.queued - {index},
       counted := t.counted[index := Capacity(|t.store.pages[index].data|, t.unit)])
  }

  ghost predicate Happens(t: State, e: Event, t': State) {
    match e
    case Write(index, data, limit, cs) => Writes(t, index, data, limit, cs, t')
    case Read(index) => index in t.store.pages && t' == Used(t, index, t.store.pages[index].dirty)
    case Fetch(index, data) =>
      index !in t.store.pages && t' == Used(t.(store := WithPage(t.store, index, data, false)), index, false)
    case Refetch(index) => index in t.store.pages && t' == Used(t, index, false)
    case Resize(index, data) =>
      && index in t.store.pages
      && t' == t.(store := WithPage(t.store, index, data, t.store.pages[index].dirty),
                  counted := if index in t.counted then t.counted[index := Capacity(|data|, t.unit)] else t.counted)
    case Drop(index) => t' == State(t.unit, Erased(t.store, index), t.queued - {index}, t.counted - {index})
    case Cleanup(c, limit) => CanClean(t, c, limit) && t' == Clean(t, c)
  }

  /**
   * The two ways to lose track of a page: such a write, and a fetch that comes after a writer has made the page dirty.
   */
  ghost predicate LosesTrack(t: State, e: Event) {
    match e
    case Write(index, data, limit, cs) => Grows(t, index, |data|) && CanBeWrittenBefore(t, index, |data|, limit)
    case Refetch(index) => DirtyAt(t.store, index)
    case _ => false
  }

  /** The page that an event is about. */
  predicate IsAbout(e: Event, p: nat) { (e.Write? || e.Refetch?) && e.index == p }

  /** An event loses no page but the one that such a write or fetch is about, and finds one that is read. */
  lemma EventKeeps(t: State, e: Event, t': State, p: nat)
    requires Happens(t, e, t') && Untracked(t', p)
    ensures (Untracked(t, p) && e != Read(p)) || (LosesTrack(t, e) && IsAbout(e, p))
  {
    match e
    case Write(index, data, limit, cs) => WriteKeeps(t, index, data, limit, cs, t');
    case Cleanup(c, limit) => CleanLosesNothing(t, c, limit);
    case _ =>
  }

  /** A fetch that comes late takes the page that is there off the dirty queue, exactly if that page is dirty. */
  lemma RefetchLosesTrackIff(t: State, index: nat, t': State)
    requires AllTracked(t) && Happens(t, Refetch(index), t')
    ensures Untracked(t', index) <==> DirtyAt(t.store, index)
    ensures AllTracked(t') <==> !DirtyAt(t.store, index)
  {
    if !Untracked(t', index) {
      forall p: nat ensures !Untracked(t', p) {
        if Untracked(t', p) { EventKeeps(t, Refetch(index), t', p); }
      }
    }
  }

  /** No event makes the cache miscount. */
  lemma EventCounts(t: State, e: Event, t': State)
    requires Happens(t, e, t') && CountedRight(t)
    ensures CountedRight(t')
  {
    match e
    case Write(index, data, limit, cs) =>
      CleanAllCounts(Informed(t, index, data), cs, index, limit);
    case Cleanup(c, limit) => CleanCounts(t, c, limit);
    case _ =>
  }

  lemma CleanCounts(t: State, c: Cleaning, limit: nat)
    requires CanClean(t, c, limit) && CountedRight(t)
    ensures CountedRight(Clean(t, c))
  {
  }

  lemma {:induction false} CleanAllCounts(t: State, cs: seq<Cleaning>, keep: nat, limit: nat)
    requires CanCleanAll(t, cs, keep, limit) && CountedRight(t)
    ensures CountedRight(CleanAll(t, cs, keep, limit))
    decreases |cs|
  {
    if cs != [] {
      CleanCounts(t, cs[0], limit);
      CleanAllCounts(Clean(t, cs[0]), cs[1..], keep, limit);
    }
  }

  ghost predicate IsRun(states: seq<State>, events: seq<Event>) {
    && |states| == |events| + 1 && AllTracked(states[0]) && CountedRight(states[0])
    && forall i :: 0 <= i < |events| ==> Happens(states[i], events[i], states[i + 1])
  }

  lemma {:induction false} RunCounts(states: seq<State>, events: seq<Event>, n: nat)
    requires IsRun(states, events) && n <= |events|
    ensures CountedRight(states[n])
  {
    if n > 0 {
      RunCounts(states, events, n - 1);
      EventCounts(states[n - 1], events[n - 1], states[n]);
    }
  }

  /** The dirty queue holds dirty pages only, except perhaps the page of a write that is under way. */
  ghost predicate QueuedIsDirty(t: State, but: int) {
    forall p :: p in t.queued && p != but ==> DirtyAt(t.store, p)
  }

  lemma {:induction false} CleanAllQueues(t: State, cs: seq<Cleaning>, keep: nat, limit: nat)
    requires CanCleanAll(t, cs, keep, limit) && QueuedIsDirty(t, keep)
    ensures QueuedIsDirty(CleanAll(t, cs, keep, limit), keep)
    decreases |cs|
  {
    if cs != [] {
      CleanQueues(t, cs[0], limit, keep);
      CleanAllQueues(Clean(t, cs[0]), cs[1..], keep, limit);
    }
  }

  lemma CleanQueues(t: State, c: Cleaning, limit: nat, but: int)
    requires CanClean(t, c, limit) && QueuedIsDirty(t, but)
    ensures QueuedIsDirty(Clean(t, c), but)
  {
  }

  lemma WriteQueues(t: State, index: nat, data: seq<Byte>, limit: nat, cs: seq<Cleaning>, t': State)
    requires Writes(t, index, data, limit, cs, t') && QueuedIsDirty(t, -1)
    ensures QueuedIsDirty(t', -1)
  {
    hide CanCleanAll, CleanAll, Capacity;
    CleanAllQueues(Informed(t, index, data), cs, index, limit);
  }

  /** In every run the dirty queue holds dirty pages only; which of them it lacks is what the next lemma says. */
  lemma {:induction false} RunQueues(states: seq<State>, events: seq<Event>, n: nat)
    requires IsRun(states, events) && n <= |events| && QueuedIsDirty(states[0], -1)
    ensures forall p :: p in states[n].queued ==> DirtyAt(states[n].store, p)
  {
    if n > 0 {
      RunQueues(states, events, n - 1);
      var t, t' := states[n - 1], states[n];
      assert QueuedIsDirty(t, -1) && Happens(t, events[n - 1], t');
      match events[n - 1]
      case Write(index, data, limit, cs) => WriteQueues(t, index, data, limit, cs, t');
      case Cleanup(c, limit) => CleanQueues(t, c, limit, -1);
      case _ =>
    }
  }

  /**
   * In every run a dirty page that is not in the dirty queue was last touched by such a write or fetch: it has not been
   * read, nor written otherwise, nor cleaned since. A write that did it has given the page more memory pages than it
   * had.
   */
  lemma {:induction false} UntrackedWasLost(states: seq<State>, events: seq<Event>, n: nat, p: nat) returns (i: nat)
    requires IsRun(states, events) && n <= |events| && Untracked(states[n], p)
    ensures i < n && LosesTrack(states[i], events[i]) && IsAbout(events[i], p)
    ensures forall j :: i < j < n ==> Untracked(states[j], p) && events[j] != Read(p)
    ensures events[i].Write? ==> p in states[i].store.pages && TakesMore(states[i], p, |events[i].data|)
  {
    EventKeeps(states[n - 1], events[n - 1], states[n], p);
    if LosesTrack(states[n - 1], events[n - 1]) && IsAbout(events[n - 1], p) {
      i := n - 1;
      if events[i].Write? {
        RunCounts(states, events, i);
        GrowsIff(states[i], p, |events[i].data|);
      }
    } else {
      i := UntrackedWasLost(states, events, n - 1, p);
    }
  }
}
