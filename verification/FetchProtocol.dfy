/**
 * Readers of one file and the background threads that fetch pages for them, as a step system. Each action is what one
 * thread does while it holds the mutex of the page maps. Readers share the file's lock; a fetch thread takes its share
 * only some time after it has been started, and a writer, which needs the lock alone, may come in between. Models the
 * read side of PageManager.
 */
module FetchProtocol {
  import opened Bytes

  /** An entry of the list of pending fetches, with the thread that works on it. */
  datatype Range = Range(start: nat, count: nat, fetcher: nat) {
    predicate Has(page: nat) { start <= page < start + count }

    function Pages(): set<nat> { set page | start <= page < start + count && Has(page) }
  }

  /**
   * A fetch thread: the next page to arrive, the page after the last one, and whether it has got its share of the lock.
   * ahead tells that no reader waits for it: it fetches pages that may be read next.
   */
  datatype Fetcher = Fetcher(cur: nat, end: nat, locked: bool, ahead: bool)

  /** A reader; unless it is Idle it holds a share of the file's lock. */
  datatype Reader = Idle | Waiting(page: nat, notified: bool) | Got(page: nat) | Threw(page: nat)

  datatype State = State(present: set<nat>, failed: set<nat>, pending: seq<Range>, serverPages: nat,
                         fetchers: map<nat, Fetcher>, readers: map<nat, Reader>)

  /**
   * Read: a reader asks for a page; window is the current read-ahead size, next a page found to be worth fetching
   * ahead, and fetcher a new thread. Enter: a fetch thread gets its share of the lock. Arrive and Fail: a page arrives,
   * or the fetch breaks off. WriterActs: whoever has the lock alone leaves these pages in the cache and on the server.
   */
  datatype Action =
    | Read(reader: nat, page: nat, window: nat, next: Option<nat>, fetcher: nat)
    | Retry(reader: nat)
    | Wake(reader: nat)
    | Done(reader: nat)
    | Enter(fetcher: nat)
    | Arrive(fetcher: nat)
    | Fail(fetcher: nat)
    | WriterActs(present: set<nat>, serverPages: nat)

  predicate Pends(pending: seq<Range>, page: nat) { exists i :: 0 <= i < |pending| && pending[i].Has(page) }

  predicate IsPending(s: State, page: nat) { Pends(s.pending, page) }

  /** Pages from the given one on that are neither cached nor pending, at most max of them. */
  function Missing(s: State, page: nat, max: nat): nat
    decreases max
  {
    if max == 0 || page in s.present || IsPending(s, page) then 0 else 1 + Missing(s, page + 1, max - 1)
  }

  /** How many pages to fetch: nothing past the server's end, one page only at the file's start. */
  function FetchSize(s: State, page: nat, window: nat): nat {
    if page >= s.serverPages then 0
    else Missing(s, page, if page > 0 then Min(s.serverPages - page, window) else 1)
  }

  /** The new range is listed, and earlier failures in it are forgotten. */
  function StartFetch(s: State, page: nat, count: nat, fetcher: nat, ahead: bool): State {
    s.(pending := s.pending + [Range(page, count, fetcher)],
       failed := s.failed - Range(page, count, fetcher).Pages(),
       fetchers := s.fetchers[fetcher := Fetcher(page, page + count, false, ahead)])
  }

  /** Takes the first page off the entry that starts with it, or removes the entry. */
  function RemovePending(pending: seq<Range>, page: nat, pageOnly: bool): seq<Range> {
    if pending == [] then []
    else if pending[0].start == page then
      if !pageOnly || pending[0].count <= 1 then pending[1..]
      else [Range(page + 1, pending[0].count - 1, pending[0].fetcher)] + pending[1..]
    else [pending[0]] + RemovePending(pending[1..], page, pageOnly)
  }

  function NotifyAll(readers: map<nat, Reader>): map<nat, Reader> {
    map t | t in readers :: if readers[t].Waiting? then Waiting(readers[t].page, true) else readers[t]
  }

  /** The loop condition of a reader that wants a page. */
  function Check(s: State, t: nat, page: nat): State {
    var reader := if page in s.present then Got(page)
                  else if page in s.failed then Threw(page)
                  else Waiting(page, false);
    s.(readers := s.readers[t := reader])
  }

  /** The file's lock is free. */
  predicate NobodyInside(s: State) {
    (forall t | t in s.readers :: s.readers[t].Idle?) && forall f | f in s.fetchers :: !s.fetchers[f].locked
  }

  predicate Enabled(s: State, a: Action) {
    match a
    case Read(t, _, window, next, fetcher) =>
      t in s.readers && s.readers[t].Idle? && window > 0 && fetcher !in s.fetchers
    case Retry(t) => t in s.readers && s.readers[t].Waiting? && s.readers[t].notified
    case Wake(t) => t in s.readers && s.readers[t].Waiting?
    case Done(t) => t in s.readers && (s.readers[t].Got? || s.readers[t].Threw?)
    case Enter(f) => f in s.fetchers && !s.fetchers[f].locked
    case Arrive(f) => f in s.fetchers && s.fetchers[f].locked && s.fetchers[f].end <= s.serverPages
    case Fail(f) => f in s.fetchers && s.fetchers[f].locked && s.fetchers[f].cur <= s.fetchers[f].end
    case WriterActs(_, _) => NobodyInside(s)
  }

  function Do(s: State, a: Action): State
    requires Enabled(s, a)
  {
    match a
    case Read(t, page, window, next, fetcher) =>
      if page in s.present then
        var s' := s.(readers := s.readers[t := Got(page)]);
        if next.Some? && FetchSize(s, next.value, window) > 0 then
          StartFetch(s', next.value, FetchSize(s, next.value, window), fetcher, true)
        else s'
      else if IsPending(s, page) then Check(s, t, page)
      else if FetchSize(s, page, window) == 0 then
        s.(present := s.present + {page}, readers := s.readers[t := Got(page)])
      else Check(StartFetch(s, page, FetchSize(s, page, window), fetcher, false), t, page)
    case Retry(t) => Check(s, t, s.readers[t].page)
    case Wake(t) => s.(readers := s.readers[t := Waiting(s.readers[t].page, true)])
    case Done(t) => s.(readers := s.readers[t := Idle])
    case Enter(f) => s.(fetchers := s.fetchers[f := s.fetchers[f].(locked := true)])
    case Arrive(f) =>
      var cur, end := s.fetchers[f].cur, s.fetchers[f].end;
      s.(present := s.present + {cur}, pending := RemovePending(s.pending, cur, true), readers := NotifyAll(s.readers),
         fetchers := if cur + 1 < end then s.fetchers[f := s.fetchers[f].(cur := cur + 1)] else s.fetchers - {f})
    case Fail(f) =>
      var cur, end := s.fetchers[f].cur, s.fetchers[f].end;
      s.(failed := s.failed + Range(cur, end - cur, f).Pages(), pending := RemovePending(s.pending, cur, false),
         readers := NotifyAll(s.readers), fetchers := s.fetchers - {f})
    case WriterActs(present, serverPages) => s.(present := present, serverPages := serverPages)
  }

  // ---------------------------------------------------------------------------------------------
  // The invariant

  predicate Apart(a: Range, b: Range) { a.start + a.count <= b.start || b.start + b.count <= a.start }

  ghost predicate Disjoint(pending: seq<Range>) {
    && (forall i :: 0 <= i < |pending| ==> pending[i].count > 0)
    && (forall i, j :: 0 <= i < j < |pending| ==>
              Apart(pending[i], pending[j]) && pending[i].fetcher != pending[j].fetcher)
  }

  ghost predicate Mine(fetchers: map<nat, Fetcher>, r: Range) {
    r.fetcher in fetchers && fetchers[r.fetcher].cur == r.start && fetchers[r.fetcher].end == r.start + r.count
  }

  ghost predicate HasEntry(pending: seq<Range>, f: nat) { exists i :: 0 <= i < |pending| && pending[i].fetcher == f }

  /** Each entry is exactly what one fetch thread has still to do. */
  ghost predicate Worked(pending: seq<Range>, fetchers: map<nat, Fetcher>) {
    && (forall i :: 0 <= i < |pending| ==> Mine(fetchers, pending[i]))
    && (forall f :: f in fetchers ==> HasEntry(pending, f))
  }

  ghost predicate Ranges(s: State) { Disjoint(s.pending) && Worked(s.pending, s.fetchers) }

  /** A pending page has not failed. */
  ghost predicate Fresh(s: State) { forall p: nat :: IsPending(s, p) ==> p !in s.failed }

  /** A pending page that a reader waits for is not there yet. */
  ghost predicate Awaited(s: State) {
    forall t :: t in s.readers && s.readers[t].Waiting? && IsPending(s, s.readers[t].page) ==>
            s.readers[t].page !in s.present
  }

  /** Until a fetch thread gets the lock, the reader that has started it keeps waiting, unless the fetch is ahead. */
  ghost predicate Demanded(s: State) {
    forall f :: f in s.fetchers && !s.fetchers[f].locked && !s.fetchers[f].ahead ==>
            exists t :: WaitsFor(s, t, s.fetchers[f].cur)
  }

  predicate WaitsFor(s: State, t: nat, page: nat) {
    t in s.readers && s.readers[t].Waiting? && s.readers[t].page == page
  }

  /** A reader waits only for what will come: unsignalled for pending pages only. */
  ghost predicate Served(s: State) {
    forall t :: t in s.readers && s.readers[t].Waiting? ==> Serves(s, s.readers[t])
  }

  ghost predicate Serves(s: State, r: Reader)
    requires r.Waiting?
  {
    IsPending(s, r.page) || (r.notified && (r.page in s.present || r.page in s.failed))
  }

  ghost predicate Inv(s: State) { Ranges(s) && Fresh(s) && Served(s) && Awaited(s) && Demanded(s) }

  ghost predicate Init(s: State) {
    s.failed == {} && s.pending == [] && s.fetchers == map[] && forall t | t in s.readers :: s.readers[t].Idle?
  }

  lemma InitInv(s: State)
    requires Init(s)
    ensures Inv(s)
  {
  }

  // ---------------------------------------------------------------------------------------------
  // Taking a page off the list

  /** Where a thread's own entry is found, only that entry changes. */
  lemma {:induction false} RemoveAt(pending: seq<Range>, page: nat, pageOnly: bool, k: nat)
    requires k < |pending| && pending[k].start == page && Disjoint(pending)
    ensures RemovePending(pending, page, pageOnly)
         == if pageOnly && pending[k].count > 1 then Shrunk(pending, k) else Without(pending, k)
  {
    if k == 0 {
      ShrunkFirst(pending);
    } else {
      assert Apart(pending[0], pending[k]);
      DisjointTail(pending);
      RemoveAt(pending[1..], page, pageOnly, k - 1);
      LaterEntry(pending, k);
    }
  }

  lemma ShrunkFirst(pending: seq<Range>)
    requires pending != [] && pending[0].count > 0
    ensures Without(pending, 0) == pending[1..]
    ensures Shrunk(pending, 0) == [Range(pending[0].start + 1, pending[0].count - 1, pending[0].fetcher)] + pending[1..]
  {
  }

  lemma LaterEntry(pending: seq<Range>, k: nat)
    requires 0 < k < |pending| && pending[k].count > 0
    ensures Without(pending, k) == [pending[0]] + Without(pending[1..], k - 1)
    ensures Shrunk(pending, k) == [pending[0]] + Shrunk(pending[1..], k - 1)
  {
    assert pending[..k] == [pending[0]] + pending[1..][..k - 1] && pending[k + 1..] == pending[1..][k..];
  }

  lemma DisjointTail(pending: seq<Range>)
    requires Disjoint(pending) && pending != []
    ensures Disjoint(pending[1..])
  {
  }

  function Shrunk(pending: seq<Range>, k: nat): seq<Range>
    requires k < |pending| && pending[k].count > 0
  {
    pending[k := Range(pending[k].start + 1, pending[k].count - 1, pending[k].fetcher)]
  }

  function Without(pending: seq<Range>, k: nat): seq<Range>
    requires k < |pending|
  {
    pending[..k] + pending[k + 1..]
  }

  /** A page lies in one entry at most. */
  lemma DisjointHas(pending: seq<Range>, i: nat, j: nat, p: nat)
    requires Disjoint(pending) && i < |pending| && j < |pending| && i != j && pending[i].Has(p)
    ensures !pending[j].Has(p)
  {
    assert if i < j then Apart(pending[i], pending[j]) else Apart(pending[j], pending[i]);
  }

  lemma DisjointCount(pending: seq<Range>, k: nat)
    requires Disjoint(pending) && k < |pending|
    ensures pending[k].count > 0
  {
  }

  lemma ShrunkPends(pending: seq<Range>, k: nat, p: nat)
    requires Disjoint(pending) && k < |pending| && pending[k].count > 1
    ensures Pends(Shrunk(pending, k), p) <==> Pends(pending, p) && p != pending[k].start
  {
    var pending' := Shrunk(pending, k);
    if Pends(pending', p) {
      var i :| 0 <= i < |pending'| && pending'[i].Has(p);
      assert pending[i].Has(p);
      if i != k { DisjointHas(pending, i, k, p); }
    }
    if Pends(pending, p) && p != pending[k].start {
      var i :| 0 <= i < |pending| && pending[i].Has(p);
      assert pending'[i].Has(p);
    }
  }

  lemma ShrunkRanges(pending: seq<Range>, fetchers: map<nat, Fetcher>, k: nat)
    requires Disjoint(pending) && Worked(pending, fetchers) && k < |pending| && pending[k].count > 1
    ensures Disjoint(Shrunk(pending, k))
    ensures pending[k].fetcher in fetchers
    ensures var f := pending[k].fetcher;
      Worked(Shrunk(pending, k), fetchers[f := fetchers[f].(cur := pending[k].start + 1)])
  {
    var pending', f := Shrunk(pending, k), pending[k].fetcher;
    assert Mine(fetchers, pending[k]);
    var fetchers' := fetchers[f := fetchers[f].(cur := pending[k].start + 1)];
    forall i | 0 <= i < |pending'| ensures Mine(fetchers', pending'[i]) {
      assert Mine(fetchers, pending[i]);
    }
    forall g | g in fetchers' ensures HasEntry(pending', g) {
      assert HasEntry(pending, g);
      var i :| 0 <= i < |pending| && pending[i].fetcher == g;
      assert pending'[i].fetcher == g;
    }
  }

  /** Where an entry of the shorter list comes from, and where an entry of the longer one goes. */
  lemma WithoutAt(pending: seq<Range>, k: nat)
    requires k < |pending|
    ensures forall i :: 0 <= i < |Without(pending, k)| ==> Without(pending, k)[i] == pending[if i < k then i else i + 1]
    ensures forall j :: 0 <= j < |pending| && j != k ==> pending[j] in Without(pending, k)
  {
    forall j | 0 <= j < |pending| && j != k ensures pending[j] in Without(pending, k) {
      assert Without(pending, k)[if j < k then j else j - 1] == pending[j];
    }
  }

  lemma WithoutPends(pending: seq<Range>, k: nat, p: nat)
    requires Disjoint(pending) && k < |pending|
    ensures Pends(Without(pending, k), p) <==> Pends(pending, p) && !pending[k].Has(p)
  {
    WithoutAt(pending, k);
    var pending' := Without(pending, k);
    hide Without;
    if Pends(pending', p) {
      var i :| 0 <= i < |pending'| && pending'[i].Has(p);
      DisjointHas(pending, if i < k then i else i + 1, k, p);
    }
    if Pends(pending, p) && !pending[k].Has(p) {
      var i :| 0 <= i < |pending| && pending[i].Has(p);
      var j :| 0 <= j < |pending'| && pending'[j] == pending[i];
    }
  }

  lemma WithoutDisjoint(pending: seq<Range>, k: nat)
    requires Disjoint(pending) && k < |pending|
    ensures Disjoint(Without(pending, k))
  {
  }

  lemma WithoutRanges(pending: seq<Range>, fetchers: map<nat, Fetcher>, k: nat)
    requires Disjoint(pending) && Worked(pending, fetchers) && k < |pending|
    ensures Worked(Without(pending, k), fetchers - {pending[k].fetcher})
  {
    WithoutAt(pending, k);
    var pending', f := Without(pending, k), pending[k].fetcher;
    hide Without;
    forall i | 0 <= i < |pending'| ensures Mine(fetchers - {f}, pending'[i]) {
      var j := if i < k then i else i + 1;
      assert Mine(fetchers, pending[j]);
      assert j < k ==> pending[j].fetcher != pending[k].fetcher;
    }
    forall g | g in fetchers - {f} ensures HasEntry(pending', g) {
      assert HasEntry(pending, g);
      var i :| 0 <= i < |pending| && pending[i].fetcher == g;
      var j :| 0 <= j < |pending'| && pending'[j] == pending[i];
    }
  }

  // ---------------------------------------------------------------------------------------------
  // Each action keeps the invariant

  /** What is fetched: exactly the longest stretch of missing pages that fits. */
  lemma {:induction false} MissingIsMaximal(s: State, page: nat, max: nat)
    ensures Missing(s, page, max) <= max
    ensures forall p :: page <= p < page + Missing(s, page, max) ==> p !in s.present && !IsPending(s, p)
    ensures var n := Missing(s, page, max); n == max || page + n in s.present || IsPending(s, page + n)
    decreases max
  {
    if max == 0 || page in s.present || IsPending(s, page) {
    } else {
      MissingIsMaximal(s, page + 1, max - 1);
    }
  }

  /**
   * The pages a new fetch asks for are on the server and new; only past the server's end is there nothing to ask for.
   */
  lemma FetchIsNew(s: State, page: nat, window: nat)
    requires window > 0
    ensures var n := FetchSize(s, page, window);
      && (forall p :: page <= p < page + n ==> p < s.serverPages && p !in s.present && !IsPending(s, p))
      && (n == 0 <==> page >= s.serverPages || page in s.present || IsPending(s, page))
      && n <= (if page > 0 then window else 1)
      && (n == 0 || n == (if page > 0 then window else 1)
          || page + n >= s.serverPages || page + n in s.present || IsPending(s, page + n))
  {
    if page < s.serverPages {
      MissingIsMaximal(s, page, if page > 0 then Min(s.serverPages - page, window) else 1);
    }
  }

  lemma ExtendedPends(pending: seq<Range>, r: Range, p: nat)
    ensures Pends(pending + [r], p) <==> Pends(pending, p) || r.Has(p)
  {
    var pending' := pending + [r];
    if Pends(pending, p) {
      var i :| 0 <= i < |pending| && pending[i].Has(p);
      assert pending'[i].Has(p);
    }
    if r.Has(p) {
      assert pending'[|pending|].Has(p);
    }
  }

  lemma ExtendedRanges(pending: seq<Range>, fetchers: map<nat, Fetcher>, r: Range, ahead: bool)
    requires Disjoint(pending) && Worked(pending, fetchers) && r.fetcher !in fetchers && r.count > 0
    requires forall p :: r.Has(p) ==> !Pends(pending, p)
    ensures Disjoint(pending + [r])
    ensures Worked(pending + [r], fetchers[r.fetcher := Fetcher(r.start, r.start + r.count, false, ahead)])
  {
    var pending', fetchers' := pending + [r], fetchers[r.fetcher := Fetcher(r.start, r.start + r.count, false, ahead)];
    forall i | 0 <= i < |pending| ensures Apart(pending[i], r) && pending[i].fetcher != r.fetcher {
      assert Mine(fetchers, pending[i]);
      if !Apart(pending[i], r) {
        var p := Max(pending[i].start, r.start);
        assert pending[i].Has(p) && r.Has(p);
        assert Pends(pending, p);
      }
    }
    forall i | 0 <= i < |pending'| ensures Mine(fetchers', pending'[i]) {
      assert i < |pending| ==> Mine(fetchers, pending[i]);
    }
    forall f | f in fetchers' ensures HasEntry(pending', f) {
      if f == r.fetcher {
        assert pending'[|pending|].fetcher == f;
      } else {
        assert HasEntry(pending, f);
        var i :| 0 <= i < |pending| && pending[i].fetcher == f;
        assert pending'[i].fetcher == f;
      }
    }
  }

  /** All but the reader that a new fetch is for is in order. */
  ghost predicate Started(s: State, f: nat) {
    && Ranges(s) && Fresh(s) && Served(s) && Awaited(s)
    && forall g :: g in s.fetchers && g != f && !s.fetchers[g].locked && !s.fetchers[g].ahead ==>
            exists t :: WaitsFor(s, t, s.fetchers[g].cur)
  }

  lemma StartFetchKeepsInv(s: State, page: nat, window: nat, fetcher: nat, ahead: bool)
    requires Inv(s) && fetcher !in s.fetchers && window > 0 && FetchSize(s, page, window) > 0
    ensures Started(StartFetch(s, page, FetchSize(s, page, window), fetcher, ahead), fetcher)
    ensures ahead ==> Inv(StartFetch(s, page, FetchSize(s, page, window), fetcher, ahead))
    ensures var s' := StartFetch(s, page, FetchSize(s, page, window), fetcher, ahead);
      IsPending(s', page) && page !in s'.present && page !in s'.failed
  {
    var r := Range(page, FetchSize(s, page, window), fetcher);
    var s' := StartFetch(s, page, FetchSize(s, page, window), fetcher, ahead);
    FetchIsNew(s, page, window);
    forall p | r.Has(p) ensures !Pends(s.pending, p) && p !in s.present {
      assert !IsPending(s, p);
    }
    ExtendedRanges(s.pending, s.fetchers, r, ahead);
    forall p: nat ensures Pends(s.pending + [r], p) <==> Pends(s.pending, p) || r.Has(p) {
      ExtendedPends(s.pending, r, p);
    }
    assert r.Has(page);
    StillWaitedFor(s, s');
  }

  /** With the same readers, threads that were waited for still are. */
  lemma StillWaitedFor(s: State, s': State)
    requires Demanded(s) && s.readers == s'.readers
    ensures forall f :: f in s.fetchers && !s.fetchers[f].locked && !s.fetchers[f].ahead ==>
              exists t :: WaitsFor(s', t, s.fetchers[f].cur)
  {
    forall f | f in s.fetchers && !s.fetchers[f].locked && !s.fetchers[f].ahead
      ensures exists t :: WaitsFor(s', t, s.fetchers[f].cur)
    {
      var t :| WaitsFor(s, t, s.fetchers[f].cur);
      assert WaitsFor(s', t, s.fetchers[f].cur);
    }
  }

  /** A reader that looks for its page; it is the one that the new fetch f, if any, is for. */
  lemma CheckKeepsInv(s: State, t: nat, page: nat, f: nat)
    requires Started(s, f) && t in s.readers && (s.readers[t].Waiting? ==> s.readers[t].page == page)
    requires page in s.present || page in s.failed || IsPending(s, page)
    requires f in s.fetchers ==> s.fetchers[f].cur == page && page !in s.present && page !in s.failed
    ensures Inv(Check(s, t, page))
  {
    var s' := Check(s, t, page);
    forall g | g in s'.fetchers && !s'.fetchers[g].locked && !s'.fetchers[g].ahead
      ensures exists u :: WaitsFor(s', u, s'.fetchers[g].cur)
    {
      if g == f {
        assert WaitsFor(s', t, page);
      } else {
        var u :| WaitsFor(s, u, s.fetchers[g].cur);
        if u == t {
          var k := OwnEntry(s, g);
          assert s.pending[k].Has(page);
          assert IsPending(s, page);
        }
        assert WaitsFor(s', u, s'.fetchers[g].cur);
      }
    }
  }

  lemma {:induction false} MissingOf(s: State, s': State, page: nat, max: nat)
    requires s.pending == s'.pending && s.present == s'.present
    ensures Missing(s, page, max) == Missing(s', page, max)
    decreases max
  {
    if max > 0 {
      MissingOf(s, s', page + 1, max - 1);
    }
  }

  lemma FetchSizeOf(s: State, s': State, page: nat, window: nat)
    requires s.pending == s'.pending && s.present == s'.present && s.serverPages == s'.serverPages
    ensures FetchSize(s, page, window) == FetchSize(s', page, window)
  {
    if page < s.serverPages {
      MissingOf(s, s', page, if page > 0 then Min(s.serverPages - page, window) else 1);
    }
  }

  lemma ReadKeepsInv(s: State, t: nat, page: nat, window: nat, next: Option<nat>, fetcher: nat)
    requires Inv(s) && Enabled(s, Read(t, page, window, next, fetcher))
    ensures Inv(Do(s, Read(t, page, window, next, fetcher)))
  {
    FetchIsNew(s, page, window);
    if page in s.present {
      var s1 := s.(readers := s.readers[t := Got(page)]);
      NotWaiting(s, t, Got(page));
      if next.Some? && FetchSize(s, next.value, window) > 0 {
        FetchSizeOf(s, s1, next.value, window);
        StartFetchKeepsInv(s1, next.value, window, fetcher, true);
      }
    } else if IsPending(s, page) {
      CheckKeepsInv(s, t, page, fetcher);
    } else if FetchSize(s, page, window) > 0 {
      StartFetchKeepsInv(s, page, window, fetcher, false);
      CheckKeepsInv(StartFetch(s, page, FetchSize(s, page, window), fetcher, false), t, page, fetcher);
    } else {
      var s1 := s.(readers := s.readers[t := Got(page)]);
      NotWaiting(s, t, Got(page));
      StillWaitedFor(s1, s1.(present := s.present + {page}));
    }
  }

  /** A reader that does not wait may do as it likes, short of waiting. */
  lemma NotWaiting(s: State, t: nat, r: Reader)
    requires Inv(s) && t in s.readers && !s.readers[t].Waiting? && !r.Waiting?
    ensures Inv(s.(readers := s.readers[t := r]))
  {
    var s' := s.(readers := s.readers[t := r]);
    forall f | f in s.fetchers && !s.fetchers[f].locked && !s.fetchers[f].ahead
      ensures exists u :: WaitsFor(s', u, s.fetchers[f].cur)
    {
      var u :| WaitsFor(s, u, s.fetchers[f].cur);
      assert WaitsFor(s', u, s.fetchers[f].cur);
    }
  }

  /** A fetch thread's entry in the list. */
  lemma OwnEntry(s: State, f: nat) returns (k: nat)
    requires Ranges(s) && f in s.fetchers
    ensures k < |s.pending| && s.pending[k].fetcher == f && s.pending[k].start == s.fetchers[f].cur
    ensures s.fetchers[f].end == s.pending[k].start + s.pending[k].count && s.fetchers[f].cur < s.fetchers[f].end
  {
    assert HasEntry(s.pending, f);
    k :| 0 <= k < |s.pending| && s.pending[k].fetcher == f;
    assert Mine(s.fetchers, s.pending[k]);
  }

  /** The list of pending fetches after a page has arrived, or after the fetch has broken off. */
  lemma RemovedRanges(s: State, f: nat, pageOnly: bool)
    requires Ranges(s) && f in s.fetchers
    ensures var cur, end := s.fetchers[f].cur, s.fetchers[f].end;
      var pending' := RemovePending(s.pending, cur, pageOnly);
      && cur < end && IsPending(s, cur)
      && Disjoint(pending')
      && Worked(pending', if pageOnly && cur + 1 < end then s.fetchers[f := s.fetchers[f].(cur := cur + 1)]
                          else s.fetchers - {f})
      && (forall p: nat :: Pends(pending', p) <==> IsPending(s, p) && !(cur <= p < if pageOnly then cur + 1 else end))
  {
    hide Worked, RemovePending;
    var k := OwnEntry(s, f);
    DisjointCount(s.pending, k);
    assert s.pending[k].Has(s.fetchers[f].cur);
    assert IsPending(s, s.fetchers[f].cur);
    hide Pends, Disjoint;
    RemoveAt(s.pending, s.fetchers[f].cur, pageOnly, k);
    if pageOnly && s.pending[k].count > 1 {
      ShrunkRanges(s.pending, s.fetchers, k);
      forall p: nat ensures Pends(Shrunk(s.pending, k), p) <==> Pends(s.pending, p) && p != s.pending[k].start {
        ShrunkPends(s.pending, k, p);
      }
    } else {
      WithoutDisjoint(s.pending, k);
      WithoutRanges(s.pending, s.fetchers, k);
      forall p: nat ensures Pends(Without(s.pending, k), p) <==> Pends(s.pending, p) && !s.pending[k].Has(p) {
        WithoutPends(s.pending, k, p);
      }
    }
  }

  lemma ArriveKeepsInv(s: State, f: nat)
    requires Inv(s) && Enabled(s, Arrive(f))
    ensures Inv(Do(s, Arrive(f)))
  {
    RemovedRanges(s, f, true);
    RemovalKeepsInv(s, Do(s, Arrive(f)), f, true);
  }

  lemma FailKeepsInv(s: State, f: nat)
    requires Inv(s) && Enabled(s, Fail(f))
    ensures Inv(Do(s, Fail(f)))
  {
    RemovedRanges(s, f, false);
    RemovalKeepsInv(s, Do(s, Fail(f)), f, false);
  }

  /** What is common to the two: the readers of the pages that are no longer pending are signalled. */
  lemma RemovalKeepsInv(s: State, s': State, f: nat, pageOnly: bool)
    requires Inv(s) && f in s.fetchers && s.fetchers[f].locked && Ranges(s') && s'.readers == NotifyAll(s.readers)
    requires var cur, end := s.fetchers[f].cur, s.fetchers[f].end;
      && cur < end
      && (forall p: nat :: IsPending(s', p) <==> IsPending(s, p) && !(cur <= p < if pageOnly then cur + 1 else end))
      && s'.present == s.present + (if pageOnly then {cur} else {})
      && (forall p: nat :: p in s'.failed <==> p in s.failed || (!pageOnly && cur <= p < end))
      && (forall g :: g in s'.fetchers && g != f ==> g in s.fetchers && s'.fetchers[g] == s.fetchers[g])
      && (f in s'.fetchers ==> s'.fetchers[f].locked)
    ensures Inv(s')
  {
    forall t | t in s'.readers && s'.readers[t].Waiting? ensures Serves(s', s'.readers[t]) {
      assert Serves(s, s.readers[t]);
    }
    forall g | g in s'.fetchers && !s'.fetchers[g].locked && !s'.fetchers[g].ahead
      ensures exists t :: WaitsFor(s', t, s'.fetchers[g].cur)
    {
      var t :| WaitsFor(s, t, s.fetchers[g].cur);
      assert WaitsFor(s', t, s'.fetchers[g].cur);
    }
  }

  lemma EnterKeepsInv(s: State, f: nat)
    requires Inv(s) && Enabled(s, Enter(f))
    ensures Inv(Do(s, Enter(f)))
  {
    var s' := Do(s, Enter(f));
    forall i | 0 <= i < |s'.pending| ensures Mine(s'.fetchers, s'.pending[i]) {
      assert Mine(s.fetchers, s.pending[i]);
    }
    forall g | g in s'.fetchers ensures HasEntry(s'.pending, g) {
      assert HasEntry(s.pending, g);
    }
    StillWaitedFor(s, s');
  }

  lemma WakeKeepsInv(s: State, t: nat)
    requires Inv(s) && Enabled(s, Wake(t))
    ensures Inv(Do(s, Wake(t)))
  {
    var s' := Do(s, Wake(t));
    forall u | u in s'.readers && s'.readers[u].Waiting? ensures Serves(s', s'.readers[u]) {
      assert Serves(s, s.readers[u]);
    }
    forall f | f in s.fetchers && !s.fetchers[f].locked && !s.fetchers[f].ahead
      ensures exists u :: WaitsFor(s', u, s.fetchers[f].cur)
    {
      var u :| WaitsFor(s, u, s.fetchers[f].cur);
      assert WaitsFor(s', u, s.fetchers[f].cur);
    }
  }

  lemma StepKeepsInv(s: State, a: Action)
    requires Inv(s) && Enabled(s, a)
    ensures Inv(Do(s, a))
  {
    hide Inv, Do;
    match a
    case Read(t, page, window, next, fetcher) => ReadKeepsInv(s, t, page, window, next, fetcher);
    case Enter(f) => EnterKeepsInv(s, f);
    case Arrive(f) => ArriveKeepsInv(s, f);
    case Fail(f) => FailKeepsInv(s, f);
    case Retry(t) => RetryKeepsInv(s, t);
    case Wake(t) => WakeKeepsInv(s, t);
    case Done(t) => DoneKeepsInv(s, t);
    case WriterActs(present, serverPages) => WriterKeepsInv(s, present, serverPages);
  }

  lemma RetryKeepsInv(s: State, t: nat)
    requires Inv(s) && Enabled(s, Retry(t))
    ensures Inv(Do(s, Retry(t)))
  {
    var f := FreshFetcher(s.fetchers);
    assert Serves(s, s.readers[t]);
    CheckKeepsInv(s, t, s.readers[t].page, f);
  }

  lemma {:induction false} FreshFetcher(fetchers: map<nat, Fetcher>) returns (f: nat)
    ensures forall g :: g in fetchers ==> g < f
    decreases |fetchers|
  {
    f := 0;
    if g :| g in fetchers {
      var h := FreshFetcher(fetchers - {g});
      f := Max(h, g + 1);
      forall i | i in fetchers ensures i < f { assert i == g || i in fetchers - {g}; }
    }
  }

  lemma DoneKeepsInv(s: State, t: nat)
    requires Inv(s) && Enabled(s, Done(t))
    ensures Inv(Do(s, Done(t)))
  {
    NotWaiting(s, t, Idle);
  }

  lemma WriterKeepsInv(s: State, present: set<nat>, serverPages: nat)
    requires Inv(s) && NobodyInside(s)
    ensures Inv(Do(s, WriterActs(present, serverPages)))
  {
    forall f, t | f in s.fetchers && WaitsFor(s, t, s.fetchers[f].cur) ensures false {}
  }

  // ---------------------------------------------------------------------------------------------
  // Every interleaving

  ghost predicate IsRun(states: seq<State>, steps: seq<Action>) {
    && |states| == |steps| + 1 && Init(states[0])
    && forall i :: 0 <= i < |steps| ==> Enabled(states[i], steps[i]) && states[i + 1] == Do(states[i], steps[i])
  }

  lemma {:induction false} RunKeepsInv(states: seq<State>, steps: seq<Action>, n: nat)
    requires IsRun(states, steps) && n <= |steps|
    ensures Inv(states[n])
  {
    if n == 0 {
      InitInv(states[0]);
    } else {
      RunKeepsInv(states, steps, n - 1);
      StepKeepsInv(states[n - 1], steps[n - 1]);
    }
  }

  /** Step j is the last one by a writer before state n. */
  predicate LastWriter(steps: seq<Action>, j: nat, n: nat)
    requires n <= |steps|
  {
    j < n && steps[j].WriterActs? && forall i :: j < i < n ==> !steps[i].WriterActs?
  }

  ghost predicate PendsSince(states: seq<State>, p: nat, j: nat, n: nat)
    requires j <= n < |states|
  {
    forall i :: j <= i <= n ==> IsPending(states[i], p)
  }

  /** The last writer found the page pending, and left it in the cache. */
  ghost predicate PutMeanwhile(states: seq<State>, steps: seq<Action>, n: nat, p: nat)
    requires n <= |steps| && |states| == |steps| + 1
  {
    exists j: nat :: LastWriter(steps, j, n) && PendsSince(states, p, j, n) && p in steps[j].present
  }

  /** Only a writer makes a pending page present, and until the page arrives only a writer can take it away again. */
  lemma PendingAndPresent(s: State, a: Action, p: nat)
    requires Inv(s) && Enabled(s, a) && IsPending(Do(s, a), p) && !a.WriterActs?
    ensures p in Do(s, a).present ==> IsPending(s, p)
    ensures IsPending(s, p) ==> (p in Do(s, a).present <==> p in s.present)
  {
    match a
    case Read(t, page, window, next, fetcher) =>
      if page in s.present {
        if next.Some? && FetchSize(s, next.value, window) > 0 {
          NewlyPending(s, next.value, window, fetcher, p);
        }
      } else if !IsPending(s, page) && FetchSize(s, page, window) > 0 {
        NewlyPending(s, page, window, fetcher, p);
      }
    case Arrive(f) => RemovedRanges(s, f, true);
    case Fail(f) => RemovedRanges(s, f, false);
    case _ =>
  }

  lemma NewlyPending(s: State, page: nat, window: nat, fetcher: nat, p: nat)
    requires window > 0
    ensures Pends(s.pending + [Range(page, FetchSize(s, page, window), fetcher)], p) && p in s.present ==>
              IsPending(s, p)
  {
    FetchIsNew(s, page, window);
    ExtendedPends(s.pending, Range(page, FetchSize(s, page, window), fetcher), p);
  }

  /** A pending page is there already exactly if the last writer found it pending and left it there. */
  lemma {:induction false} PresentIff(states: seq<State>, steps: seq<Action>, n: nat, p: nat)
    requires IsRun(states, steps) && n <= |steps| && IsPending(states[n], p)
    ensures p in states[n].present <==> PutMeanwhile(states, steps, n, p)
  {
    hide Enabled, Do, Inv, IsPending, PutMeanwhile;
    if n > 0 {
      var s, a := states[n - 1], steps[n - 1];
      RunKeepsInv(states, steps, n - 1);
      assert Enabled(s, a) && states[n - 1 + 1] == Do(s, a);
      if a.WriterActs? {
        WriterDecides(s, a, p);
        JustPut(states, steps, n, p);
      } else {
        PendingAndPresent(s, a, p);
        if IsPending(s, p) {
          PresentIff(states, steps, n - 1, p);
          MeanwhileNext(states, steps, n, p);
        } else {
          JustStarted(states, steps, n, p);
        }
      }
    } else {
      NothingPending(states[0], p);
    }
  }

  lemma NothingPending(s: State, p: nat)
    requires Init(s)
    ensures !IsPending(s, p)
  {
  }

  lemma WriterDecides(s: State, a: Action, p: nat)
    requires Enabled(s, a) && a.WriterActs?
    ensures (p in Do(s, a).present <==> p in a.present) && (IsPending(Do(s, a), p) <==> IsPending(s, p))
  {
  }

  lemma JustPut(states: seq<State>, steps: seq<Action>, n: nat, p: nat)
    requires 0 < n <= |steps| && |states| == |steps| + 1 && steps[n - 1].WriterActs?
    ensures PutMeanwhile(states, steps, n, p) <==>
              p in steps[n - 1].present && IsPending(states[n - 1], p) && IsPending(states[n], p)
  {
    hide IsPending;
    if p in steps[n - 1].present && IsPending(states[n - 1], p) && IsPending(states[n], p) {
      assert LastWriter(steps, n - 1, n) && PendsSince(states, p, n - 1, n);
    }
  }

  lemma JustStarted(states: seq<State>, steps: seq<Action>, n: nat, p: nat)
    requires 0 < n <= |steps| && |states| == |steps| + 1 && !steps[n - 1].WriterActs? && !IsPending(states[n - 1], p)
    ensures !PutMeanwhile(states, steps, n, p)
  {
  }

  lemma MeanwhileNext(states: seq<State>, steps: seq<Action>, n: nat, p: nat)
    requires 0 < n <= |steps| && |states| == |steps| + 1 && !steps[n - 1].WriterActs?
    requires IsPending(states[n - 1], p) && IsPending(states[n], p)
    ensures PutMeanwhile(states, steps, n - 1, p) <==> PutMeanwhile(states, steps, n, p)
  {
    hide IsPending;
    if PutMeanwhile(states, steps, n - 1, p) {
      var j: nat :| LastWriter(steps, j, n - 1) && PendsSince(states, p, j, n - 1) && p in steps[j].present;
      assert LastWriter(steps, j, n) && PendsSince(states, p, j, n);
    }
    if PutMeanwhile(states, steps, n, p) {
      var j: nat :| LastWriter(steps, j, n) && PendsSince(states, p, j, n) && p in steps[j].present;
      assert LastWriter(steps, j, n - 1) && PendsSince(states, p, j, n - 1);
    }
  }

  /**
   * A page is pending in one entry at most; it has not failed then, and is there exactly if a writer came in between.
   */
  lemma PendingOnce(states: seq<State>, steps: seq<Action>, n: nat, i: nat, p: nat)
    requires IsRun(states, steps) && n <= |steps| && i < |states[n].pending| && states[n].pending[i].Has(p)
    ensures p !in states[n].failed && (p in states[n].present <==> PutMeanwhile(states, steps, n, p))
    ensures forall j :: 0 <= j < |states[n].pending| && j != i ==> !states[n].pending[j].Has(p)
  {
    RunKeepsInv(states, steps, n);
    assert IsPending(states[n], p);
    PresentIff(states, steps, n, p);
    forall j | 0 <= j < |states[n].pending| && j != i ensures !states[n].pending[j].Has(p) {
      DisjointHas(states[n].pending, i, j, p);
    }
  }

  /** A reader only ever waits for a page that is cached, pending or failed, and is signalled unless it is pending. */
  lemma WaitsForWhatComes(states: seq<State>, steps: seq<Action>, n: nat, t: nat)
    requires IsRun(states, steps) && n <= |steps| && t in states[n].readers && states[n].readers[t].Waiting?
    ensures var s, page := states[n], states[n].readers[t].page;
      && (page in s.present || IsPending(s, page) || page in s.failed)
      && (!s.readers[t].notified ==> IsPending(s, page))
  {
    RunKeepsInv(states, steps, n);
  }

  /**
   * A page that arrives is there already exactly if the last writer came between the start of the fetch and its lock.
   */
  lemma ArrivesTwiceIff(states: seq<State>, steps: seq<Action>, n: nat)
    requires IsRun(states, steps) && n < |steps| && steps[n].Arrive?
    ensures steps[n].fetcher in states[n].fetchers
    ensures var p := states[n].fetchers[steps[n].fetcher].cur;
      IsPending(states[n], p) && (p in states[n].present <==> PutMeanwhile(states, steps, n, p))
  {
    RunKeepsInv(states, steps, n);
    RemovedRanges(states[n], steps[n].fetcher, true);
    PresentIff(states, steps, n, states[n].fetchers[steps[n].fetcher].cur);
  }

  /** A writer can act exactly if no reader is inside and all fetches under way are ahead and without their lock. */
  lemma WriterActsIff(states: seq<State>, steps: seq<Action>, n: nat, present: set<nat>, serverPages: nat)
    requires IsRun(states, steps) && n <= |steps|
    ensures Enabled(states[n], WriterActs(present, serverPages)) <==>
              && (forall t :: t in states[n].readers ==> states[n].readers[t].Idle?)
              && (forall f :: f in states[n].fetchers ==> states[n].fetchers[f].ahead && !states[n].fetchers[f].locked)
  {
    RunKeepsInv(states, steps, n);
    var s := states[n];
    if NobodyInside(s) {
      forall f, t | f in s.fetchers && WaitsFor(s, t, s.fetchers[f].cur) ensures false {}
    }
  }

  /**
   * The last writer came while the fetch thread was under way, and left less on the server than the thread is to fetch.
   */
  ghost predicate CutMeanwhile(states: seq<State>, steps: seq<Action>, n: nat, f: nat, end: nat)
    requires n <= |steps| && |states| == |steps| + 1
  {
    exists j: nat :: LastWriter(steps, j, n) && RunsSince(states, f, j, n) && steps[j].serverPages < end
  }

  ghost predicate RunsSince(states: seq<State>, f: nat, j: nat, n: nat)
    requires j <= n < |states|
  {
    forall i :: j <= i <= n ==> f in states[i].fetchers
  }

  /** A thread keeps its end, and a new one ends on the server. */
  lemma EndStays(s: State, a: Action, f: nat)
    requires Inv(s) && Enabled(s, a) && f in Do(s, a).fetchers
    ensures f in s.fetchers ==> Do(s, a).fetchers[f].end == s.fetchers[f].end
    ensures f !in s.fetchers ==> Do(s, a).fetchers[f].end <= s.serverPages && !a.WriterActs?
    ensures !a.WriterActs? ==> Do(s, a).serverPages == s.serverPages
  {
    match a
    case Read(t, page, window, next, fetcher) =>
      FetchEnds(s, page, window);
      if next.Some? {
        FetchEnds(s, next.value, window);
      }
    case _ =>
  }

  lemma FetchEnds(s: State, page: nat, window: nat)
    requires window > 0
    ensures FetchSize(s, page, window) > 0 ==> page + FetchSize(s, page, window) <= s.serverPages
  {
    if page < s.serverPages {
      MissingIsMaximal(s, page, if page > 0 then Min(s.serverPages - page, window) else 1);
    }
  }

  /** The range of a fetch thread reaches past the server's end exactly if the last writer cut the file meanwhile. */
  lemma {:induction false} RangeIsCutIff(states: seq<State>, steps: seq<Action>, n: nat, f: nat)
    requires IsRun(states, steps) && n <= |steps| && f in states[n].fetchers
    ensures states[n].fetchers[f].end > states[n].serverPages <==>
              CutMeanwhile(states, steps, n, f, states[n].fetchers[f].end)
  {
    hide Enabled, Do, Inv, CutMeanwhile;
    if n > 0 {
      var s, a, end := states[n - 1], steps[n - 1], states[n].fetchers[f].end;
      RunKeepsInv(states, steps, n - 1);
      assert Enabled(s, a) && states[n - 1 + 1] == Do(s, a);
      EndStays(s, a, f);
      if a.WriterActs? {
        WriterSetsEnd(s, a);
        JustCut(states, steps, n, f, end);
      } else if f in s.fetchers {
        RangeIsCutIff(states, steps, n - 1, f);
        CutNext(states, steps, n, f, end);
      } else {
        NotCutYet(states, steps, n, f, end);
      }
    }
  }

  lemma WriterSetsEnd(s: State, a: Action)
    requires Enabled(s, a) && a.WriterActs?
    ensures Do(s, a).serverPages == a.serverPages && Do(s, a).fetchers == s.fetchers
  {
  }

  lemma JustCut(states: seq<State>, steps: seq<Action>, n: nat, f: nat, end: nat)
    requires 0 < n <= |steps| && |states| == |steps| + 1 && steps[n - 1].WriterActs?
    requires f in states[n - 1].fetchers && f in states[n].fetchers
    ensures CutMeanwhile(states, steps, n, f, end) <==> steps[n - 1].serverPages < end
  {
    if steps[n - 1].serverPages < end {
      assert LastWriter(steps, n - 1, n) && RunsSince(states, f, n - 1, n);
    }
  }

  lemma NotCutYet(states: seq<State>, steps: seq<Action>, n: nat, f: nat, end: nat)
    requires 0 < n <= |steps| && |states| == |steps| + 1 && !steps[n - 1].WriterActs? && f !in states[n - 1].fetchers
    ensures !CutMeanwhile(states, steps, n, f, end)
  {
  }

  lemma CutNext(states: seq<State>, steps: seq<Action>, n: nat, f: nat, end: nat)
    requires 0 < n <= |steps| && |states| == |steps| + 1 && !steps[n - 1].WriterActs?
    requires f in states[n - 1].fetchers && f in states[n].fetchers
    ensures CutMeanwhile(states, steps, n - 1, f, end) <==> CutMeanwhile(states, steps, n, f, end)
  {
    if CutMeanwhile(states, steps, n - 1, f, end) {
      var j: nat :| LastWriter(steps, j, n - 1) && RunsSince(states, f, j, n - 1) && steps[j].serverPages < end;
      assert LastWriter(steps, j, n) && RunsSince(states, f, j, n);
    }
    if CutMeanwhile(states, steps, n, f, end) {
      var j: nat :| LastWriter(steps, j, n) && RunsSince(states, f, j, n) && steps[j].serverPages < end;
      assert LastWriter(steps, j, n - 1) && RunsSince(states, f, j, n - 1);
    }
  }

  /**
   * It happens: a reader has used cached page 1 and a fetch of page 2 has been started ahead; when the reader has left,
   * a writer creates page 2, or cuts the file to two pages, and only then does the fetch thread get its lock.
   */
  lemma WriterComesBetween(cut: bool) returns (states: seq<State>, steps: seq<Action>)
    ensures IsRun(states, steps) && |steps| == 4 && 5 in states[4].fetchers && states[4].fetchers[5].cur == 2
    ensures cut ==> states[4].fetchers[5].end > states[4].serverPages
    ensures !cut ==> Enabled(states[4], Arrive(5)) && 2 in states[4].present
  {
    var s0 := State({1}, {}, [], 3, map[], map[0 := Idle]);
    var read, done := Read(0, 1, 1, Some(2), 5), Done(0);
    var write, enter := WriterActs(if cut then {1} else {1, 2}, if cut then 2 else 3), Enter(5);
    assert FetchSize(s0, 2, 1) == 1 by { assert !IsPending(s0, 2); }
    var s1 := Do(s0, read);
    assert s1 == State({1}, {} - Range(2, 1, 5).Pages(), [Range(2, 1, 5)], 3,
                       map[5 := Fetcher(2, 3, false, true)], map[0 := Got(1)]);
    var s2 := Do(s1, done);
    var s3 := Do(s2, write);
    var s4 := Do(s3, enter);
    states, steps := [s0, s1, s2, s3, s4], [read, done, write, enter];
  }

  // ---------------------------------------------------------------------------------------------
  // What a reader leaves with

  /** What asking for a page does, and what looking for it again does. */
  lemma ReadGetsIff(s: State, a: Action)
    requires Inv(s) && Enabled(s, a) && a.Read?
    ensures var s', t, page := Do(s, a), a.reader, a.page;
      && t in s'.readers
      && (s'.readers[t] == Got(page) <==> page in s.present || (page >= s.serverPages && !IsPending(s, page)))
      && (s'.readers[t] == Waiting(page, false) <==> page !in s.present && IsPending(s', page))
      && (s'.readers[t] == Got(page) || s'.readers[t] == Waiting(page, false))
  {
    FetchIsNew(s, a.page, a.window);
    if a.page !in s.present && !IsPending(s, a.page) && FetchSize(s, a.page, a.window) > 0 {
      StartFetchKeepsInv(s, a.page, a.window, a.fetcher, false);
    }
  }

  /** Pages that a fetch at the given page asks for: on the server, within the window, and none up to them known. */
  ghost predicate InStretch(s: State, page: nat, window: nat, p: nat) {
    && page <= p < page + (if page > 0 then window else 1) && p < s.serverPages
    && forall q: nat :: page <= q <= p ==> q !in s.present && !IsPending(s, q)
  }

  /** The page that a reader's request makes worth fetching: its own if it is missing, else the one ahead, if any. */
  function Worth(s: State, a: Action): Option<nat>
    requires a.Read?
  {
    if a.page in s.present then a.next else Some(a.page)
  }

  /** A request starts a fetch of exactly that stretch, if it is not empty, and nothing else becomes pending. */
  lemma ReadFetches(s: State, a: Action, p: nat)
    requires Inv(s) && Enabled(s, a) && a.Read?
    ensures IsPending(Do(s, a), p) <==>
              IsPending(s, p) || (Worth(s, a).Some? && InStretch(s, Worth(s, a).value, a.window, p))
  {
    hide Inv, Pends, InStretch, FetchSize, Do;
    if Worth(s, a).Some? {
      StretchIsFetched(s, Worth(s, a).value, a.window, p);
      ExtendedPends(s.pending, Range(Worth(s, a).value, FetchSize(s, Worth(s, a).value, a.window), a.fetcher), p);
    }
    RequestStarts(s, a);
  }

  lemma StretchIsFetched(s: State, page: nat, window: nat, p: nat)
    requires window > 0
    ensures InStretch(s, page, window, p) <==> page <= p < page + FetchSize(s, page, window)
  {
    hide IsPending, FetchSize;
    FetchIsNew(s, page, window);
    var next := page + FetchSize(s, page, window);
    assert || next == page + (if page > 0 then window else 1) || next >= s.serverPages
           || next in s.present || IsPending(s, next);
    if page <= p < next {
      assert p !in s.present && p < s.serverPages;
      forall q: nat | page <= q <= p ensures q !in s.present && !IsPending(s, q) {}
    }
  }

  lemma RequestStarts(s: State, a: Action)
    requires Enabled(s, a) && a.Read?
    ensures Worth(s, a).None? || FetchSize(s, Worth(s, a).value, a.window) == 0 ==> Do(s, a).pending == s.pending
    ensures Worth(s, a).Some? && FetchSize(s, Worth(s, a).value, a.window) > 0 ==>
      Do(s, a).pending
        == s.pending + [Range(Worth(s, a).value, FetchSize(s, Worth(s, a).value, a.window), a.fetcher)]
  {
    FetchIsNew(s, a.page, a.window);
    hide FetchSize, Check;
  }

  lemma RetryGetsIff(s: State, t: nat)
    requires Inv(s) && Enabled(s, Retry(t))
    ensures t in Do(s, Retry(t)).readers
    ensures var r, page := Do(s, Retry(t)).readers[t], s.readers[t].page;
      && (r == Got(page) <==> page in s.present)
      && (r == Threw(page) <==> page in s.failed && page !in s.present)
      && (r == Waiting(page, false) <==> IsPending(s, page))
      && (r == Got(page) || r == Threw(page) || r == Waiting(page, false))
  {
    assert Serves(s, s.readers[t]);
  }

  /** Nobody else's answer changes; a waiting reader is at most signalled, and is when a page arrives or fails. */
  lemma OtherReadersStay(s: State, a: Action, t: nat)
    requires Enabled(s, a) && t in s.readers
    requires a.Read? || a.Retry? || a.Done? || a.Wake? ==> a.reader != t
    ensures t in Do(s, a).readers
    ensures Do(s, a).readers[t]
         == if s.readers[t].Waiting? && (a.Arrive? || a.Fail?) then Waiting(s.readers[t].page, true) else s.readers[t]
  {
  }

  /** A page that a reader has got stays cached until the reader is done with it. */
  ghost predicate GotPresent(s: State) {
    forall t :: t in s.readers && s.readers[t].Got? ==> s.readers[t].page in s.present
  }

  lemma StepKeepsGot(s: State, a: Action)
    requires Enabled(s, a) && GotPresent(s)
    ensures GotPresent(Do(s, a))
  {
  }

  /** Step j is where reader t has asked for page p, and it has not been done with it since. */
  ghost predicate Asked(states: seq<State>, steps: seq<Action>, j: nat, n: nat, t: nat, p: nat)
    requires n <= |steps| && |states| == |steps| + 1
  {
    && j < n && steps[j].Read? && steps[j].reader == t && steps[j].page == p
    && forall i :: j < i <= n ==> t in states[i].readers && !states[i].readers[t].Idle?
  }

  /** Every reader that has left Idle has asked for the page it waits for, has got or has failed to get. */
  lemma {:induction false} HasAsked(states: seq<State>, steps: seq<Action>, n: nat, t: nat) returns (j: nat)
    requires IsRun(states, steps) && n <= |steps| && t in states[n].readers && !states[n].readers[t].Idle?
    ensures Asked(states, steps, j, n, t, states[n].readers[t].page)
    ensures IsPending(states[j + 1], states[n].readers[t].page) || states[j + 1].readers[t].Got?
  {
    hide Inv, IsPending;
    var s, a := states[n - 1], steps[n - 1];
    RunKeepsInv(states, steps, n - 1);
    assert Enabled(s, a) && states[n - 1 + 1] == Do(s, a);
    if a.Read? && a.reader == t {
      ReadGetsIff(s, a);
      j := n - 1;
    } else {
      KeepsAsking(s, a, t);
      j := HasAsked(states, steps, n - 1, t);
    }
  }

  lemma KeepsAsking(s: State, a: Action, t: nat)
    requires Inv(s) && Enabled(s, a) && !(a.Read? && a.reader == t)
    requires t in Do(s, a).readers && !Do(s, a).readers[t].Idle?
    ensures t in s.readers && !s.readers[t].Idle? && s.readers[t].page == Do(s, a).readers[t].page
  {
  }

  /** Step i is where a fetch has broken off before page p, and no new fetch of the page has been started since. */
  ghost predicate BrokeOff(states: seq<State>, steps: seq<Action>, i: nat, n: nat, p: nat)
    requires n <= |steps| && |states| == |steps| + 1
  {
    && i < n && steps[i].Fail? && FetchedBy(states[i], steps[i].fetcher, p)
    && forall k :: i < k <= n ==> !IsPending(states[k], p)
  }

  ghost predicate FetchedBy(s: State, f: nat, p: nat) {
    f in s.fetchers && s.fetchers[f].cur <= p < s.fetchers[f].end
  }

  ghost predicate HasBrokenOff(states: seq<State>, steps: seq<Action>, n: nat, p: nat)
    requires n <= |steps| && |states| == |steps| + 1
  {
    exists i: nat :: BrokeOff(states, steps, i, n, p)
  }

  /** Failures are recorded when a fetch breaks off, and forgotten when the page is fetched again. */
  lemma FailureStep(s: State, a: Action, p: nat)
    requires Inv(s) && Enabled(s, a)
    ensures p in Do(s, a).failed <==>
              (a.Fail? && FetchedBy(s, a.fetcher, p)) || (p in s.failed && !IsPending(Do(s, a), p))
    ensures a.Fail? && FetchedBy(s, a.fetcher, p) ==> !IsPending(Do(s, a), p)
  {
    hide Inv;
    StepKeepsInv(s, a);
    FreshPage(Do(s, a), p);
    match a
    case Read(t, page, window, next, fetcher) =>
      FetchIsNew(s, page, window);
      if page in s.present {
        if next.Some? && FetchSize(s, next.value, window) > 0 {
          ExtendedPends(s.pending, Range(next.value, FetchSize(s, next.value, window), fetcher), p);
        }
      } else if !IsPending(s, page) && FetchSize(s, page, window) > 0 {
        ExtendedPends(s.pending, Range(page, FetchSize(s, page, window), fetcher), p);
      }
      FreshPage(s, p);
    case Arrive(f) => RangesOf(s); RemovedRanges(s, f, true); FreshPage(s, p);
    case Fail(f) => RangesOf(s); RemovedRanges(s, f, false); FreshPage(s, p);
    case _ => FreshPage(s, p);
  }

  lemma FreshPage(s: State, p: nat)
    requires Inv(s)
    ensures IsPending(s, p) ==> p !in s.failed
  {
  }

  lemma RangesOf(s: State)
    requires Inv(s)
    ensures Ranges(s)
  {
  }

  /** A page counts as failed exactly if a fetch has broken off before it and no other fetch of it has been started. */
  lemma {:induction false} FailedIff(states: seq<State>, steps: seq<Action>, n: nat, p: nat)
    requires IsRun(states, steps) && n <= |steps|
    ensures p in states[n].failed <==> HasBrokenOff(states, steps, n, p)
  {
    hide Inv, Do, Enabled, IsPending, FetchedBy;
    if n > 0 {
      var s, a := states[n - 1], steps[n - 1];
      RunKeepsInv(states, steps, n - 1);
      assert Enabled(s, a) && states[n - 1 + 1] == Do(s, a);
      FailureStep(s, a, p);
      FailedIff(states, steps, n - 1, p);
      BrokenOffNext(states, steps, n, p);
    }
  }

  lemma BrokenOffNext(states: seq<State>, steps: seq<Action>, n: nat, p: nat)
    requires 0 < n <= |steps| && |states| == |steps| + 1
    requires steps[n - 1].Fail? && FetchedBy(states[n - 1], steps[n - 1].fetcher, p) ==> !IsPending(states[n], p)
    ensures HasBrokenOff(states, steps, n, p) <==>
              || (steps[n - 1].Fail? && FetchedBy(states[n - 1], steps[n - 1].fetcher, p))
              || (HasBrokenOff(states, steps, n - 1, p) && !IsPending(states[n], p))
  {
    hide IsPending, FetchedBy;
    if steps[n - 1].Fail? && FetchedBy(states[n - 1], steps[n - 1].fetcher, p) {
      assert BrokeOff(states, steps, n - 1, n, p);
    } else if HasBrokenOff(states, steps, n - 1, p) && !IsPending(states[n], p) {
      var i: nat :| BrokeOff(states, steps, i, n - 1, p);
      assert BrokeOff(states, steps, i, n, p);
    }
    if HasBrokenOff(states, steps, n, p) {
      var i: nat :| BrokeOff(states, steps, i, n, p);
      if i < n - 1 { assert BrokeOff(states, steps, i, n - 1, p); }
    }
  }

  /** A reader that has got a page has got the one it has asked for, and it is cached. */
  lemma {:induction false} ReaderGetsItsPage(states: seq<State>, steps: seq<Action>, n: nat, t: nat)
    requires IsRun(states, steps) && n <= |steps| && t in states[n].readers && states[n].readers[t].Got?
    ensures states[n].readers[t].page in states[n].present
    ensures exists j: nat :: Asked(states, steps, j, n, t, states[n].readers[t].page)
  {
    var j := HasAsked(states, steps, n, t);
    GotStays(states, steps, n);
  }

  lemma {:induction false} GotStays(states: seq<State>, steps: seq<Action>, n: nat)
    requires IsRun(states, steps) && n <= |steps|
    ensures GotPresent(states[n])
  {
    if n > 0 {
      GotStays(states, steps, n - 1);
      StepKeepsGot(states[n - 1], steps[n - 1]);
    }
  }

  /**
   * A reader throws only for the page it has asked for, only if that page is not cached, and only because a fetch of it
   * has broken off since the reader asked: earlier failures are never reported.
   */
  lemma ReaderThrowsItsFailure(states: seq<State>, steps: seq<Action>, n: nat, t: nat) returns (j: nat, i: nat)
    requires IsRun(states, steps) && n < |steps| && t in states[n].readers && t in states[n + 1].readers
    requires states[n + 1].readers[t].Threw? && !states[n].readers[t].Threw?
    ensures var p := states[n + 1].readers[t].page;
      && p in states[n + 1].failed && p !in states[n + 1].present
      && Asked(states, steps, j, n, t, p) && j < i && BrokeOff(states, steps, i, n, p)
  {
    hide IsPending, Inv;
    var s, a, p := states[n], steps[n], states[n + 1].readers[t].page;
    RunKeepsInv(states, steps, n);
    ThrowStep(s, a, t);
    j := HasAsked(states, steps, n, t);
    FailedIff(states, steps, n, p);
    i :| BrokeOff(states, steps, i, n, p);
    StillWaits(states, steps, j + 1, n, t);
  }

  lemma ThrowStep(s: State, a: Action, t: nat)
    requires Inv(s) && Enabled(s, a) && t in s.readers && t in Do(s, a).readers
    requires Do(s, a).readers[t].Threw? && !s.readers[t].Threw?
    ensures a == Retry(t) && s.readers[t] == Waiting(Do(s, a).readers[t].page, true)
    ensures var p := Do(s, a).readers[t].page; p in s.failed && p !in s.present
    ensures Do(s, a).failed == s.failed && Do(s, a).present == s.present
  {
    if a.Read? && a.reader == t { ReadGetsIff(s, a); }
  }

  /** A reader that waits has waited since it asked. */
  lemma {:induction false} StillWaits(states: seq<State>, steps: seq<Action>, m: nat, n: nat, t: nat)
    requires IsRun(states, steps) && m <= n <= |steps| && t in states[n].readers && states[n].readers[t].Waiting?
    requires forall i :: m <= i <= n ==> t in states[i].readers && !states[i].readers[t].Idle?
    ensures states[m].readers[t].Waiting?
    decreases n - m
  {
    if m < n {
      assert Enabled(states[m], steps[m]) && states[m + 1] == Do(states[m], steps[m]);
      StillWaits(states, steps, m + 1, n, t);
    }
  }

  // ---------------------------------------------------------------------------------------------
  // Every fetch ends

  predicate IsFetchStep(a: Action) { a.Enter? || a.Arrive? || a.Fail? }

  /** The steps that an entry's fetch thread has left: one for its share of the lock and one for each page. */
  function LeftOf(r: Range, fetchers: map<nat, Fetcher>): nat {
    r.count + if r.fetcher in fetchers && fetchers[r.fetcher].locked then 0 else 1
  }

  function Left(pending: seq<Range>, fetchers: map<nat, Fetcher>): nat {
    if pending == [] then 0 else LeftOf(pending[0], fetchers) + Left(pending[1..], fetchers)
  }

  lemma {:induction false} LeftAt(pending: seq<Range>, fetchers: map<nat, Fetcher>, k: nat)
    requires k < |pending|
    ensures Left(pending, fetchers) == LeftOf(pending[k], fetchers) + Left(Without(pending, k), fetchers)
  {
    if k == 0 {
      assert Without(pending, 0) == pending[1..];
    } else {
      LeftAt(pending[1..], fetchers, k - 1);
      assert Without(pending, k) == [pending[0]] + Without(pending[1..], k - 1);
    }
  }

  /** What other threads have left is not touched. */
  lemma {:induction false} LeftOfOthers(pending: seq<Range>, fetchers: map<nat, Fetcher>, fetchers': map<nat, Fetcher>)
    requires forall i :: 0 <= i < |pending| ==> LeftOf(pending[i], fetchers) == LeftOf(pending[i], fetchers')
    ensures Left(pending, fetchers) == Left(pending, fetchers')
  {
    if pending != [] {
      assert LeftOf(pending[0], fetchers) == LeftOf(pending[0], fetchers');
      LeftOfOthers(pending[1..], fetchers, fetchers');
    }
  }

  lemma OthersKeep(pending: seq<Range>, k: nat, fetchers: map<nat, Fetcher>, fetchers': map<nat, Fetcher>)
    requires Disjoint(pending) && k < |pending| && fetchers' - {pending[k].fetcher} == fetchers - {pending[k].fetcher}
    ensures Left(Without(pending, k), fetchers) == Left(Without(pending, k), fetchers')
  {
    var rest, f := Without(pending, k), pending[k].fetcher;
    WithoutAt(pending, k);
    hide Without;
    forall i | 0 <= i < |rest| ensures LeftOf(rest[i], fetchers) == LeftOf(rest[i], fetchers') {
      var g := rest[i].fetcher;
      assert g != f;
      assert g in fetchers <==> g in fetchers - {f};
      assert g in fetchers' <==> g in fetchers' - {f};
      assert g in fetchers ==> (fetchers - {f})[g] == fetchers[g];
      assert g in fetchers' ==> (fetchers' - {f})[g] == fetchers'[g];
    }
    LeftOfOthers(rest, fetchers, fetchers');
  }

  lemma EnterTakes(s: State, f: nat)
    requires Inv(s) && Enabled(s, Enter(f))
    ensures Left(Do(s, Enter(f)).pending, Do(s, Enter(f)).fetchers) == Left(s.pending, s.fetchers) - 1
  {
    var s' := Do(s, Enter(f));
    var k := OwnEntry(s, f);
    OthersKeep(s.pending, k, s.fetchers, s'.fetchers);
    LeftAt(s.pending, s.fetchers, k);
    LeftAt(s.pending, s'.fetchers, k);
  }

  lemma ArriveTakes(s: State, f: nat)
    requires Inv(s) && Enabled(s, Arrive(f))
    ensures Left(Do(s, Arrive(f)).pending, Do(s, Arrive(f)).fetchers) == Left(s.pending, s.fetchers) - 1
  {
    var s' := Do(s, Arrive(f));
    var k := OwnEntry(s, f);
    RemoveAt(s.pending, s.fetchers[f].cur, true, k);
    OthersKeep(s.pending, k, s.fetchers, s'.fetchers);
    LeftAt(s.pending, s.fetchers, k);
    if s.pending[k].count > 1 {
      assert Without(Shrunk(s.pending, k), k) == Without(s.pending, k);
      LeftAt(Shrunk(s.pending, k), s'.fetchers, k);
    }
  }

  lemma FailTakes(s: State, f: nat)
    requires Inv(s) && Enabled(s, Fail(f))
    ensures Left(Do(s, Fail(f)).pending, Do(s, Fail(f)).fetchers) < Left(s.pending, s.fetchers)
  {
    var s' := Do(s, Fail(f));
    var k := OwnEntry(s, f);
    RemoveAt(s.pending, s.fetchers[f].cur, false, k);
    OthersKeep(s.pending, k, s.fetchers, s'.fetchers);
    LeftAt(s.pending, s.fetchers, k);
  }

  lemma StepTakes(s: State, a: Action)
    requires Inv(s) && Enabled(s, a) && !a.Read?
    ensures Left(Do(s, a).pending, Do(s, a).fetchers) + (if IsFetchStep(a) then 1 else 0) <= Left(s.pending, s.fetchers)
  {
    hide Left, Inv;
    match a
    case Enter(f) => EnterTakes(s, f);
    case Arrive(f) => ArriveTakes(s, f);
    case Fail(f) => FailTakes(s, f);
    case _ =>
  }

  function FetchSteps(steps: seq<Action>): nat {
    if steps == [] then 0
    else FetchSteps(steps[..|steps| - 1]) + if IsFetchStep(steps[|steps| - 1]) then 1 else 0
  }

  /**
   * While nobody asks for more pages, the fetch threads take no more steps than they have left; and as long as one is
   * left, it can go on.
   */
  lemma {:induction false} FetchesEnd(states: seq<State>, steps: seq<Action>, m: nat, n: nat)
    requires IsRun(states, steps) && m <= n <= |steps| && forall i :: m <= i < n ==> !steps[i].Read?
    ensures FetchSteps(steps[m..n]) + Left(states[n].pending, states[n].fetchers)
         <= Left(states[m].pending, states[m].fetchers)
    ensures forall f :: f in states[n].fetchers ==>
              Enabled(states[n], if states[n].fetchers[f].locked then Fail(f) else Enter(f))
    decreases n
  {
    hide Left, Inv;
    RunKeepsInv(states, steps, n);
    CanGoOn(states[n]);
    if m < n {
      FetchesEnd(states, steps, m, n - 1);
      RunKeepsInv(states, steps, n - 1);
      StepTakes(states[n - 1], steps[n - 1]);
      assert steps[m..n][..n - 1 - m] == steps[m..n - 1];
    } else {
      assert steps[m..n] == [];
    }
  }

  lemma CanGoOn(s: State)
    requires Inv(s)
    ensures forall f :: f in s.fetchers ==> Enabled(s, if s.fetchers[f].locked then Fail(f) else Enter(f))
  {
    forall f | f in s.fetchers ensures s.fetchers[f].cur <= s.fetchers[f].end {
      var k := OwnEntry(s, f);
    }
  }

  /**
   * Once no fetch thread is left, every waiting reader is signalled and leaves at its next look, with the page if it is
   * cached and else with its failure.
   */
  lemma AllReadersLeave(states: seq<State>, steps: seq<Action>, n: nat, t: nat)
    requires IsRun(states, steps) && n <= |steps| && states[n].fetchers == map[]
    requires t in states[n].readers && states[n].readers[t].Waiting?
    ensures Enabled(states[n], Retry(t)) && !Do(states[n], Retry(t)).readers[t].Waiting?
    ensures var page, r := states[n].readers[t].page, Do(states[n], Retry(t)).readers[t];
      && (r == Got(page) <==> page in states[n].present)
      && (r == Threw(page) <==> page !in states[n].present)
  {
    RunKeepsInv(states, steps, n);
    var s := states[n];
    EntryHasFetcher(s.pending, s.fetchers);
    assert !IsPending(s, s.readers[t].page);
    RetryGetsIff(s, t);
  }

  lemma EntryHasFetcher(pending: seq<Range>, fetchers: map<nat, Fetcher>)
    requires Worked(pending, fetchers)
    ensures pending != [] ==> fetchers != map[]
  {
    if pending != [] {
      assert Mine(fetchers, pending[0]);
    }
  }
}
