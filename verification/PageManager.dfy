/** The client's page cache of one file. Models PageManager. */
module PageManagers {
  import opened Bytes
  import opened SendFile
  import opened StreamFetch
  import opened PageStore
  import opened PageBackends

  // ---------------------------------------------------------------------------------------------
  // Walking the page map in order

  lemma LeastExists(pages: map<nat, Page>, i: nat, p: nat)
    requires p in pages && i <= p
    ensures exists q: nat :: q in pages && IsNext(pages, i, q)
  {
    if q: nat :| q in pages && i <= q < p {
      LeastExists(pages, i, q);
    } else {
      assert IsNext(pages, i, p);
    }
  }

  predicate IsNext(pages: map<nat, Page>, i: nat, q: nat) { i <= q && forall r: nat | r in pages :: i <= r ==> q <= r }

  /** The first page at or after index i; i itself, which is then no page, at the end of the map. */
  function NextPage(pages: map<nat, Page>, i: nat): (it: nat)
    ensures i <= it && forall p | p in pages :: p < i || it <= p
    ensures it !in pages ==> it == i && forall p | p in pages :: p < i
  {
    if exists p | p in pages :: i <= p then
      var p :| p in pages && i <= p;
      LeastExists(pages, i, p);
      var q: nat :| q in pages && IsNext(pages, i, q);
      q
    else i
  }

  ghost function Bound(pages: map<nat, Page>): (b: nat)
    ensures forall p | p in pages :: p < b
  {
    if pages == map[] then 0
    else
      var p :| p in pages;
      assert forall q | q in pages :: q == p || q in pages - {p};
      Max(p + 1, Bound(pages - {p}))
  }

  // ---------------------------------------------------------------------------------------------
  // Runs of pages to write

  /** A list of consecutive pages: count of them from start on. */
  datatype Run = Run(start: nat, count: nat) {
    function Has(p: nat): bool { start <= p < start + count }
  }

  /** The runs lie in ascending order, without touching pages twice, and all before index bound. */
  ghost predicate Ascending(runs: seq<Run>, bound: nat) {
    && (forall j :: 0 <= j < |runs| ==> runs[j].count > 0 && runs[j].start + runs[j].count <= bound)
    && (forall i, j :: 0 <= i < j < |runs| ==> runs[i].start + runs[i].count <= runs[j].start)
  }

  /** Page p is in one of the runs from number j on. */
  ghost predicate Listed(runs: seq<Run>, j: nat, p: nat) { exists i :: j <= i < |runs| && runs[i].Has(p) }

  class PageManager {
    const pageSize: nat
    const backend: PageBackend
    /** How many pages ahead of a read are kept ready. */
    const readAhead: nat

    var fileSize: nat
    var pages: map<nat, Page>
    /** The current read-ahead window in pages, never 0. */
    var fetchSize: nat
    /** Pages whose eviction waits for the next flush. */
    var deferred: seq<nat>

    ghost function View(): Store
      reads this, backend
    {
      Store(pageSize, pages, fileSize, backend.remote, backend.created)
    }

    /** In the middle of a write: the file is about to have n bytes, and x is the page being written, if any. */
    ghost predicate MidWrite(n: nat, x: int)
      reads this, backend
    {
      && backend.Valid() && backend.pageSize == pageSize && fetchSize > 0
      && fileSize <= n && Shaped(View(), n, x) && Covered(View(), fileSize)
    }

    /** Between operations. */
    ghost predicate Valid()
      reads this, backend
    {
      MidWrite(fileSize, -1) && (backend.mode.Append? ==> Sequential(View()))
    }

    constructor (pageBackend: PageBackend, readAhead: nat)
      requires pageBackend.Valid()
      ensures backend == pageBackend && pageSize == pageBackend.pageSize
      ensures Valid() && pages == map[] && View().remote == Contents(View())
    {
      this.backend, this.pageSize, this.readAhead := pageBackend, pageBackend.pageSize, readAhead;
      this.fileSize, this.pages, this.fetchSize, this.deferred := pageBackend.size, map[], 1, [];
      new;
      EmptyCache(View());
    }

    // -------------------------------------------------------------------------------------------
    // Writing pages back

    /**
     * Collects the next run of dirty pages from page it on, ended by a gap, a clean page or the upload limit. Moves
     * past the collected pages and past the clean ones before them.
     */
    method GetWriteList(it0: nat) returns (it: nat, run: Run)
      requires it0 in pages
      ensures it0 < it <= Bound(pages) && it == NextPage(pages, it)
      ensures forall p | it0 <= p < it && DirtyAt(View(), p) :: run.Has(p)
      ensures run.count > 0 ==>
                it0 <= run.start && run.start + run.count <= it && DirtyRun(View(), run.start, run.count)
      ensures pages[it0].dirty ==> run.count > 0 && run.start == it0
      ensures run.count > 0 ==> EndsInTime(View(), run, backend.uploadMax)
    {
      hide Collected, EndsInTime, DirtyRun;
      it, run := it0, Run(0, 0);
      var curSize: nat := 0;
      ghost var bound := Bound(pages);
      CollectNothing(View(), it0, backend.uploadMax);
      while it in pages
        invariant it <= bound && Collected(View(), it0, it, run, curSize, backend.uploadMax)
        invariant it in pages || it > it0
        decreases bound - it
      {
        CollectedSoFar(View(), it0, it, run, curSize, backend.uploadMax);
        if pages[it].dirty {
          var size := |pages[it].data|;
          if run.count == 0 {
            run := Run(it, 0);
          } else if run.start + run.count != it {
            break;
          } else if backend.uploadMax > 0 && curSize + size > backend.uploadMax {
            break;
          }
          CollectDirty(View(), it0, it, run, curSize, backend.uploadMax);
          run := Run(run.start, run.count + 1);
          curSize := curSize + size;
        } else if run.count > 0 {
          break;
        } else {
          SkipClean(View(), it0, it, run, curSize, backend.uploadMax);
        }
        it := NextPage(pages, it + 1);
      }
      CollectedEnds(View(), it0, it, run, curSize, backend.uploadMax);
    }

    /** The byte after the last dirty byte. */
    method MaxDirty() returns (maxDirty: nat)
      ensures LastDirtyEnd(View(), maxDirty)
    {
      maxDirty := 0;
      var it := NextPage(pages, 0);
      ghost var bound := Bound(pages);
      while it in pages
        invariant it == NextPage(pages, it) && it <= bound
        invariant forall p | DirtyAt(View(), p) && p < it :: Start(p, pageSize) + |pages[p].data| <= maxDirty
        invariant maxDirty == 0 || exists p :: DirtyAt(View(), p) && maxDirty == Start(p, pageSize) + |pages[p].data|
        decreases bound - it
      {
        if pages[it].dirty {
          StartIsProduct(it, pageSize);
          assert DirtyAt(View(), it);
          maxDirty := Max(maxDirty, it * pageSize + |pages[it].data|);
        }
        it := NextPage(pages, it + 1);
      }
    }

    /**
     * Creates the file if that is not done yet, then makes up for truncations that were kept back until now. A file
     * that only grows at its end needs no such truncation.
     */
    method FlushCreate(ghost n: nat, ghost x: int)
      requires backend.Valid() && backend.pageSize == pageSize && fetchSize > 0
      requires Shaped(View(), n, x) && fileSize <= n
      requires backend.mode.Append? ==> Covered(View().(created := true), fileSize)
      modifies backend
      ensures MidWrite(n, x) && backend.created && SameCells(old(View()), View())
      ensures backend.mode.Append? ==> backend.remote == old(backend.remote)
    {
      backend.FlushCreate();
      var maxDirty := MaxDirty();
      ghost var s := View();
      if Max(backend.size, maxDirty) < fileSize {
        GrowRemoteKeepsShape(s, n, x, fileSize);
        backend.Truncate(fileSize);
        assert View() == s.(remote := Resized(s.remote, fileSize));
      }
    }

    /** Writes the run to the server and marks it clean. */
    method WriteRun(run: Run, ghost n: nat, ghost x: int) returns (total: nat)
      requires MidWrite(n, x) && run.count > 0 && DirtyRun(View(), run.start, run.count)
      requires backend.mode.Append? ==> Start(run.start, pageSize) == |backend.remote|
      modifies this`pages, backend
      ensures backend.Valid() && View() == Flushed(old(View()), run.start, run.count)
      ensures total > 0
    {
      hide Shaped, Covered, Cleaned;
      ghost var s := View();
      var list := PageList(pages, run.start, run.count);
      RunIsPresent(s, n, x, run.start, run.count);
      StartOrder(0, run.start, pageSize);
      JoinedLength(pageSize, list);
      total := backend.FlushPageList(run.start, list);
      var i := 0;
      CleanedNext(s.pages, run.start, 0);
      while i < run.count
        modifies this`pages
        invariant i <= run.count && pages == Cleaned(s.pages, run.start, i)
      {
        var p := run.start + i;
        CleanedNext(s.pages, run.start, i);
        pages := pages[p := Page(pages[p].data, false)];
        i := i + 1;
      }
    }

    /** Writes a run of dirty pages to the server and marks them clean; with no run it still creates the file. */
    method FlushPageList(run: Run, ghost n: nat, ghost x: int) returns (total: nat)
      requires MidWrite(n, x) && DirtyRun(View(), run.start, run.count)
      requires backend.mode.Append? ==> Valid() && n == fileSize && x == -1
      requires backend.mode.Append? ==>
                if run.count > 0 then Start(run.start, pageSize) == |backend.remote|
                else forall p: nat :: !DirtyAt(View(), p)
      modifies this`pages, backend
      ensures MidWrite(n, x) && backend.created && SameCells(old(View()), View())
      ensures pages == Cleaned(old(pages), run.start, run.count)
      ensures backend.mode.Append? ==> Sequential(View()) && old(backend.remote) <= backend.remote
      ensures total == 0 <==> run.count == 0
    {
      ghost var s := View();
      var flushCreate := !backend.created;
      total := 0;
      if run.count > 0 {
        RunFlushed(s, n, x, run, backend.mode.Append?);
        OverlayAtEnd(s.remote, Stream(pages, run.start, run.count));
        total := WriteRun(run, n, x);
      } else {
        NoRun(s, run, backend.mode.Append?);
      }
      if flushCreate {
        ghost var t := View();
        FlushCreate(n, x);
        SameCellsTrans(s, t, View());
        assert backend.mode.Append? ==> View() == t.(created := true);
      }
    }

    // -------------------------------------------------------------------------------------------
    // Evicting and flushing single pages, also in the middle of a write

    /**
     * Drops the page, after writing it back if it is dirty. Where the server file only grows at its end, a dirty page
     * stays until the next complete flush.
     */
    method EvictPage(index: nat, ghost n: nat, ghost x: int)
      requires MidWrite(n, x) && index != x
      modifies this`pages, this`deferred, backend
      ensures MidWrite(n, x) && Tidied(old(View()), View(), -1)
      ensures forall p | p in old(pages) && p != index :: p in pages
      ensures backend.mode.Random? ==> index !in pages
      ensures backend.mode.Append? ==> OnlyCleanDropped(old(View()), View())
      ensures index in old(pages) && !old(pages)[index].dirty ==> index !in pages
      ensures deferred == old(deferred) + if backend.mode.Append? && DirtyAt(old(View()), index) then [index] else []
    {
      ghost var s := View();
      if index in pages {
        var randWrite := backend.mode.Random?;
        if pages[index].dirty && randWrite {
          var it, run := GetWriteList(index);
          var total := FlushPageList(run, n, x);
          assert Tidied(s, View(), -1);
        }
        ghost var t := View();
        if !pages[index].dirty || randWrite {
          EraseKeepsShape(t, n, x, index, fileSize);
          pages := pages - {index};
          assert View() == Erased(t, index);
          TidiedTwice(s, t, View(), -1);
        } else {
          deferred := deferred + [index];
        }
      }
    }

    /** Writes the page back if it is dirty, together with the dirty pages right after it. */
    method FlushPage(index: nat, ghost n: nat, ghost x: int) returns (written: nat)
      requires MidWrite(n, x)
      modifies this`pages, backend
      ensures MidWrite(n, x) && Tidied(old(View()), View(), -1) && pages.Keys == old(pages.Keys)
      ensures backend.mode.Random? ==> !DirtyAt(View(), index)
      ensures backend.mode.Append? ==> View() == old(View())
      ensures written > 0 <==> backend.mode.Random? && DirtyAt(old(View()), index)
    {
      written := 0;
      if index in pages && pages[index].dirty && backend.mode.Random? {
        var it, run := GetWriteList(index);
        written := FlushPageList(run, n, x);
      }
    }

    /** Memory pressure: any other pages of this file are evicted or flushed, in any order. */
    method Tidy(keep: nat, ghost n: nat, ghost x: int)
      requires MidWrite(n, x) && (x == -1 || x == keep)
      modifies this`pages, this`deferred, backend
      ensures MidWrite(n, x) && Tidied(old(View()), View(), keep)
      ensures backend.mode.Append? ==> OnlyCleanDropped(old(View()), View())
    {
      var rounds: nat :| true;
      while rounds > 0
        invariant MidWrite(n, x) && Tidied(old(View()), View(), keep)
        invariant backend.mode.Append? ==> OnlyCleanDropped(old(View()), View())
      {
        ghost var s := View();
        var index: nat :| true;
        var evict: bool := *;
        if index != keep {
          if evict {
            EvictPage(index, n, x);
          } else {
            var written := FlushPage(index, n, x);
          }
        }
        TidiedTwice(old(View()), s, View(), keep);
        rounds := rounds - 1;
      }
    }

    // -------------------------------------------------------------------------------------------
    // The complete flush

    /** Splits the dirty pages into runs, in ascending order; no dirty page is missed and none is listed twice. */
    method WriteLists() returns (runs: seq<Run>)
      requires Valid()
      ensures exists bound :: Ascending(runs, bound)
      ensures forall p: nat :: DirtyAt(View(), p) <==> Listed(runs, 0, p)
      ensures forall j :: 0 <= j < |runs| ==> EndsInTime(View(), runs[j], backend.uploadMax)
    {
      hide Ascending, Listed, DirtyRun, EndsInTime;
      runs := [];
      var it := NextPage(pages, 0);
      ghost var bound := Bound(pages);
      NoRunsYet(View(), it);
      while it in pages
        invariant it == NextPage(pages, it) && it <= bound
        invariant Ascending(runs, it) && ListedUpTo(View(), runs, it)
        invariant forall j :: 0 <= j < |runs| ==> EndsInTime(View(), runs[j], backend.uploadMax)
        decreases bound - it
      {
        var next, run := GetWriteList(it);
        RunCollected(View(), runs, run, it, next);
        if run.count > 0 {
          runs := runs + [run];
        }
        it := next;
      }
    }

    /**
     * Writes back all dirty pages, creating the file if necessary. Afterwards nothing is dirty and the server's file is
     * the client's file.
     */
    method FlushPages()
      requires Valid()
      modifies this`pages, this`deferred, backend
      ensures Valid() && backend.created && forall p: nat :: !DirtyAt(View(), p)
      ensures fileSize == old(fileSize) && SameCells(old(View()), View())
      ensures backend.remote == Contents(View()) == old(Contents(View()))
      ensures backend.mode.Append? ==> old(backend.remote) <= backend.remote
      ensures deferred == [] && forall d :: d in old(deferred) ==> d !in pages
    {
      hide Shaped, Covered, Sequential, Cell, EndsInTime, Tidied, OnlyCleanDropped;
      ghost var s := View();
      var runs := WriteLists();
      ghost var bound :| Ascending(runs, bound);
      var done := 0;
      if runs == [] {
        var total := FlushPageList(Run(0, 0), fileSize, -1);
        StaysClean(s, View());
      } else {
        while done < |runs|
          modifies this`pages, backend
          invariant done <= |runs| && Valid() && fileSize == s.fileSize && SameCells(s, View())
          invariant forall p: nat :: DirtyAt(View(), p) <==> Listed(runs, done, p)
          invariant done > 0 ==> backend.created
          invariant backend.mode.Append? ==> s.remote <= backend.remote
        {
          ghost var t := View();
          NextRunReady(t, runs, done, bound, backend.mode.Append?);
          var total := FlushPageList(runs[done], fileSize, -1);
          SameCellsTrans(s, t, View());
          RunsLeft(t, View(), runs, done, bound);
          done := done + 1;
        }
      }
      var waiting := deferred;
      for i := 0 to |waiting|
        modifies this`pages, this`deferred, backend
        invariant Valid() && fileSize == s.fileSize && SameCells(s, View()) && backend.created
        invariant forall p: nat :: !DirtyAt(View(), p)
        invariant backend.mode.Append? ==> s.remote <= backend.remote
        invariant forall j :: 0 <= j < i ==> waiting[j] !in pages
      {
        ghost var t := View();
        assert !DirtyAt(t, waiting[i]);
        EvictPage(waiting[i], fileSize, -1);
        if backend.mode.Append? { SequentialStays(t, View()); }
        SameCellsTrans(s, t, View());
        StaysClean(t, View());
      }
      deferred := [];
      CleanIsSynced(View());
      SameContents(s, View());
    }

    // -------------------------------------------------------------------------------------------
    // Reading

    /**
     * How many pages to fetch at index: 0 if it is cached or lies past the server's end, else at most the window,
     * stopping before the server's end and before the next cached page.
     */
    method GetFetchSize(index: nat) returns (count: nat)
      requires Valid()
      ensures count > 0 ==> Start(index + count - 1, pageSize) < |backend.remote|
      ensures count > 0 ==> forall p | index <= p < index + count :: p !in pages
      ensures count == 0 && index !in pages ==> |backend.remote| <= Start(index, pageSize)
      ensures count > 0 && index + count !in pages && Start(index + count, pageSize) < |backend.remote| ==>
        count == if index > 0 then fetchSize else 1
      ensures count <= if index > 0 then fetchSize else 1
      ensures forall p: nat :: InStretch(View(), index, fetchSize, p) <==> index <= p < index + count
    {
      hide Shaped, Covered, Sequential, InStretch;
      count := 0;
      if backend.size == 0 || index in pages { StretchEnds(View(), index, fetchSize, 0); }
      if backend.size == 0 { return; }
      SplitOffset(backend.size - 1, pageSize);
      var lastPage := (backend.size - 1) / pageSize;
      StartOrder(lastPage, index, pageSize);
      if index > lastPage {
        StretchEnds(View(), index, fetchSize, 0);
        return;
      }
      var maxReadCount := Min(lastPage - index + 1, fetchSize);
      if index in pages { return; }
      count := if index > 0 then maxReadCount else 1;
      var next := NextPage(pages, index + 1);
      if next in pages {
        count := Min(next - index, count);
      }
      StartOrder(index + count - 1, lastPage, pageSize);
      StartOrder(lastPage, index + count, pageSize);
      StretchEnds(View(), index, fetchSize, count);
    }

    /**
     * Caches page i of a fetch of count pages from index on; the length it is extended to is that of the first page.
     */
    method CacheFetched(index: nat, ghost count: nat, i: nat, fetched: seq<Byte>)
      requires Valid() && i < count && Start(index + count - 1, pageSize) < |backend.remote|
      requires index + i !in pages && fetched == PageOf(backend.remote, pageSize, index + i)
      modifies this`pages
      ensures Valid() && SameCells(old(View()), View())
      ensures pages.Keys == old(pages.Keys) + {index + i}
    {
      hide Shaped, Covered, SameCells, Sequential, OnlyCleanDropped;
      ghost var s := View();
      var data := fetched;
      StartIsProduct(index, pageSize);
      FetchedPageKeeps(s, index, count, i);
      var realSize := Min(fileSize - index * pageSize, pageSize);
      if |data| < realSize {
        data := Resized(data, realSize);
      }
      pages := pages[index + i := Page(data, false)];
      assert View() == WithPage(s, index + i, data, false);
      if backend.mode.Append? {
        SequentialStays(s, View());
      }
    }

    /** Fetches pages and caches them, extended with zeros where the file is already longer than the server's. */
    method FetchPages(index: nat, count: nat)
      requires Valid() && count > 0 && Start(index + count - 1, pageSize) < |backend.remote|
      requires forall p | index <= p < index + count :: p !in pages
      modifies this`pages, this`fetchSize
      ensures Valid() && SameCells(old(View()), View())
      ensures forall p: nat :: p in pages <==> p in old(pages) || index <= p < index + count
    {
      var fetched := backend.FetchPages(index, count);
      ghost var s := View();
      for i := 0 to count
        modifies this`pages
        invariant Valid() && SameCells(s, View())
        invariant forall p: nat :: p in pages <==> p in s.pages || index <= p < index + i
      {
        ghost var t := View();
        CacheFetched(index, count, i, fetched[i]);
        SameCellsTrans(s, t, View());
      }
      var window: nat :| window > 0;
      fetchSize := window;
    }

    /** Keeps the pages ahead of a read ready, except ahead of the first page. */
    method AdvanceRead(index: nat)
      requires Valid()
      modifies this`pages, this`fetchSize
      ensures Valid() && SameCells(old(View()), View())
      ensures index > 0 ==> forall p: nat :: FirstMissing(old(View()), index, readAhead, p) ==> p in pages
      ensures forall p: nat :: p in pages <==>
                p in old(pages) || (index > 0 && InStretchAhead(old(View()), index, readAhead, old(fetchSize), p))
    {
      hide Shaped, Covered, Sequential, SameCells, FirstMissing, InStretch;
      ghost var s, window := View(), fetchSize;
      SameCellsSelf(s);
      if index == 0 { return; }
      var next := index + 1;
      SearchBegins(s, index, readAhead);
      while next <= index + readAhead
        invariant Valid() && View() == s && fetchSize == window && index < next
        invariant forall p: nat :: FirstMissing(s, index, readAhead, p) ==> next <= p
        invariant forall q: nat :: index < q < next ==> q in s.pages || |s.remote| <= Start(q, s.ps)
      {
        StartIsProduct(next, pageSize);
        if next * pageSize >= fileSize {
          SearchEnds(s, index, readAhead, next);
          break;
        }
        var count := GetFetchSize(next);
        if count > 0 {
          StartOrder(next, next + count - 1, pageSize);
          SearchFinds(s, index, readAhead, next, window);
          FetchPages(next, count);
          return;
        }
        SearchGoesOn(s, index, readAhead, next);
        next := next + 1;
      }
      NothingAhead(s, index, readAhead, window);
    }

    /**
     * Makes sure that a page of the file is cached. If it is already, the stretch ahead of it is fetched that is not;
     * else the stretch that begins with it is fetched, if the server has it.
     */
    method GetPageRead(index: nat)
      requires Valid() && Start(index, pageSize) < fileSize
      modifies this`pages, this`fetchSize
      ensures Valid() && SameCells(old(View()), View()) && index in pages
      ensures index in old(pages) ==> forall p: nat :: p in pages <==>
                p in old(pages) || (index > 0 && InStretchAhead(old(View()), index, readAhead, old(fetchSize), p))
      ensures index !in old(pages) ==> forall p: nat :: p in pages <==>
                p in old(pages) || p == index || InStretch(old(View()), index, old(fetchSize), p)
    {
      hide InStretchAhead;
      if index in pages {
        AdvanceRead(index);
      } else {
        var count := GetFetchSize(index);
        if count == 0 {
          // between the server's end and a dirty page
          ghost var s := View();
          CacheKeepsShape(s, fileSize, index, Zeros(pageSize), fileSize);
          pages := pages[index := Page(Zeros(pageSize), false)];
          assert View() == WithPage(s, index, Zeros(pageSize), false);
        } else {
          FetchPages(index, count);
        }
      }
    }

    method ReadPage(index: nat, off: nat, len: nat) returns (buf: seq<Byte>)
      requires Valid() && Start(index, pageSize) + off + len <= fileSize && off + len <= pageSize && len > 0
      modifies this`pages, this`fetchSize
      ensures Valid() && SameCells(old(View()), View())
      ensures |buf| == len && forall k :: 0 <= k < len ==> buf[k] == Cell(View(), index, off + k)
    {
      GetPageRead(index);
      assert PageOk(View(), fileSize, index);
      buf := pages[index].data[off..off + len];
    }

    // -------------------------------------------------------------------------------------------
    // Writing

    /** Before a page past the end is added, the old last page is filled up, if it is cached. */
    method ExtendOldLast(index: nat, ghost n: nat)
      requires Valid() && fileSize <= n && GrowsBy(View(), n, index) && Start(index, pageSize) < n && index !in pages
      requires backend.mode.Append? ==> Start(index, pageSize) <= fileSize
      modifies this`pages, this`deferred, backend
      ensures MidWrite(n, -1) && SameCells(old(View()), View()) && index !in pages
      ensures backend.mode.Append? ==> OnlyCleanDropped(old(View()), View())
    {
      ghost var s := View();
      StartIsProduct(index, pageSize);
      if index * pageSize > fileSize && fileSize > 0 {
        SplitOffset(fileSize - 1, pageSize);
        var last := (fileSize - 1) / pageSize;
        StartOrder(last, index, pageSize);
        if last in pages {
          ExtendLast(s, n, last, fileSize);
          pages := pages[last := Page(Resized(pages[last].data, pageSize), pages[last].dirty)];
          ghost var t := View();
          Tidy(last, n, -1);
          SameCellsTrans(s, t, View());
        } else {
          OthersFull(s, last, index);
          ReadyForNewPage(s, n, index);
        }
      } else {
        UpToIndexFull(s, index);
        ReadyForNewPage(s, n, index);
      }
    }

    /**
     * Provides the page for a write after which the file is to have n bytes: brought to its new length, with the old
     * bytes unless all of them are to be overwritten. Other pages may be evicted or flushed on the way, while the file
     * still has its old size and the page is not marked dirty.
     */
    method GetPageWrite(index: nat, size: nat, partial: bool, ghost n: nat)
      requires Valid() && fileSize <= n && GrowsBy(View(), n, index) && Start(index, pageSize) < n
      requires size == Fit(n, pageSize, index)
      requires backend.mode.Append? ==> index in pages || |backend.remote| <= Start(index, pageSize) <= fileSize
      modifies this`pages, this`deferred, backend
      ensures MidWrite(n, index) && index in pages
      ensures forall p: nat, k: nat :: k < pageSize && (p != index || partial || k >= size) ==>
                Cell(View(), p, k) == Cell(old(View()), p, k)
      ensures backend.mode.Append? ==> OnlyCleanDropped(old(View()), View())
    {
      hide Shaped, Covered, GrowsBy;
      ghost var s := View();
      RemoteFits(s, fileSize, -1);
      if index in pages {
        ResizeForWrite(s, n, index, fileSize);
        pages := pages[index := Page(Resized(pages[index].data, size), pages[index].dirty)];
        Tidy(index, n, index);
        return;
      }
      StartIsProduct(index, pageSize);
      if index * pageSize >= backend.size || !partial {
        ExtendOldLast(index, n);
        ghost var t := View();
        InsertForWrite(index, Zeros(size), n);
        ZeroPageCells(s, t, View(), index, size, partial);
      } else {
        var fetched := backend.FetchPages(index, 1);
        ReadyForNewPage(s, n, index);
        FetchedPageCells(s, index, size);
        InsertForWrite(index, Resized(fetched[0], size), n);
      }
    }

    /** Caches a new page with its final length; the rest of the file keeps its shape. */
    method InsertForWrite(index: nat, data: seq<Byte>, ghost n: nat)
      requires MidWrite(n, -1) && index !in pages && Start(index, pageSize) < n && |data| == Fit(n, pageSize, index)
      modifies this`pages, this`deferred, backend
      ensures MidWrite(n, index) && index in pages
      ensures forall p: nat, k: nat :: k < pageSize && p != index ==> Cell(View(), p, k) == Cell(old(View()), p, k)
      ensures forall k: nat :: k < pageSize ==> Cell(View(), index, k) == ByteOr0(data, k)
      ensures backend.mode.Append? ==> OnlyCleanDropped(old(View()), View())
    {
      ghost var s := View();
      AddPageForWrite(s, n, index, data, fileSize);
      pages := pages[index := Page(data, false)];
      ghost var t := View();
      assert t == WithPage(s, index, data, false);
      Tidy(index, n, index);
      forall p: nat, k: nat | k < pageSize ensures Cell(View(), p, k) == Cell(t, p, k) {}
    }

    /** Writes into one page; only these bytes of the flat file change, and the file grows as far as they reach. */
    method WritePage(index: nat, off: nat, buf: seq<Byte>)
      requires Valid() && buf != [] && off + |buf| <= pageSize
      requires backend.mode.Append? ==> |backend.remote| <= Start(index, pageSize) <= fileSize && Aligned(View())
      modifies this`pages, this`deferred, this`fileSize, backend
      ensures Valid() && fileSize == Max(old(fileSize), Start(index, pageSize) + off + |buf|)
      ensures forall p: nat, k: nat :: k < pageSize ==>
                Cell(View(), p, k) == PatchedCell(old(View()), index, off, buf, p, k)
      ensures backend.mode.Append? ==> backend.remote == old(backend.remote) && backend.created == old(backend.created)
    {
      hide Shaped, Covered, Sequential;
      ghost var s := View();
      StartIsProduct(index, pageSize);
      var pageStart := index * pageSize;
      var newFileSize := Max(fileSize, pageStart + off + |buf|);
      var size := Min(newFileSize - pageStart, pageSize);
      var partial := off > 0 || |buf| < size;
      GetPageWrite(index, size, partial, newFileSize);
      ghost var t := View();
      RemoteFits(t, newFileSize, index);
      FinishWrite(t, newFileSize, index, off, buf);
      fileSize := newFileSize;
      pages := pages[index := Page(Copied(pages[index].data, off, buf), true)];
      assert View() == Written(t, newFileSize, index, off, buf);
      WrittenCells(s, t, newFileSize, index, off, buf, size, partial);
      if backend.mode.Append? {
        forall p: nat ensures DirtyAt(View(), p) <==> DirtyAt(s, p) || p == index {
          assert DirtyAt(s, p) <==> DirtyAt(t, p);
        }
        WriteKeepsSequential(s, View(), index);
      }
    }

    // -------------------------------------------------------------------------------------------
    // Truncation and changes from outside

    /**
     * Cuts or extends the file, on the server at once if it exists there. Growing the old last page may evict or flush
     * other pages. A file that only grows at its end keeps its dirty pages in one run at the server's end if it is cut
     * to nothing.
     */
    method Truncate(newSize: nat)
      requires Valid()
      modifies this`pages, this`deferred, this`fileSize, backend
      ensures MidWrite(newSize, -1) && fileSize == newSize && (old(backend.created) ==> backend.created)
      ensures backend.mode.Random? || newSize == 0 ==> Valid()
      ensures newSize == 0 ==> backend.remote == [] && backend.created == old(backend.created)
      ensures forall p: nat, k: nat :: k < pageSize ==>
        Cell(View(), p, k) == (if Start(p, pageSize) + k < newSize then Cell(old(View()), p, k) else 0)
    {
      hide Shaped, Covered, Sequential, Cut, NextPage;
      ghost var s, bound := View(), Bound(pages);
      TruncateKeepsShape(s, newSize, bound);
      backend.Truncate(newSize);
      fileSize := newSize;
      CutWithin(s, newSize, 0);
      CutNext(s, newSize, 0, NextPage(pages, 0));
      var it := NextPage(pages, 0);
      while it in pages
        modifies this`pages, this`deferred, backend
        invariant it <= bound && Cutting(s, newSize, bound, it)
        decreases bound - it
      {
        CutWithin(s, newSize, it);
        it := TruncateStep(it, newSize, s, bound);
      }
      if View() == Store(pageSize, Cut(s, newSize, it), newSize, Truncated(s, newSize, bound).remote, s.created) {
        CutDone(s, newSize, it, bound);
      }
      TruncatedCells(s, View(), newSize, bound);
      if newSize == 0 { EmptyIsSequential(View()); }
    }

    /** How far a truncation of state s to n bytes has come when the loop is at page it. */
    ghost predicate Cutting(s: Store, n: nat, bound: nat, it: nat)
      reads this, backend
    {
      && it == NextPage(pages, it) && fileSize == n && fetchSize > 0 && backend.Valid() && backend.pageSize == pageSize
      && (View() == Store(pageSize, Cut(s, n, it), n, Truncated(s, n, bound).remote, s.created)
          || (n > 0 && it !in pages && MidWrite(n, -1) && Tidied(Truncated(s, n, bound), View(), -1)))
    }

    /** The body of the loop: one page, and other pages if this one has grown. */
    method TruncateStep(it: nat, n: nat, ghost s: Store, ghost bound: nat) returns (next: nat)
      requires it in pages && it < bound && Cutting(s, n, bound, it) && s.ps == pageSize
      requires Consistent(s) && Consistent(Truncated(s, n, bound)) && forall p | p in s.pages :: p < bound
      modifies this`pages, this`deferred, backend
      ensures it < next <= bound && Cutting(s, n, bound, next)
    {
      hide Shaped, Covered, SameCells, Cut, OnlyCleanDropped;
      CutWithin(s, n, it);
      CutWithin(s, n, it + 1);
      CutWithin(s, n, bound);
      var grown := TruncatePage(it, n, s);
      if grown {
        GrownPageIsLast(s, n, bound, it);
        ghost var goal := Truncated(s, n, bound);
        assert View() == goal;
        SameCellsSelf(goal);
        Tidy(it, n, -1);
        next := NextPage(pages, it + 1);
        assert forall p | p in pages :: p in goal.pages && p in s.pages;
      } else {
        next := NextPage(pages, it + 1);
        CutNext(s, n, it + 1, next);
      }
    }

    /** Cuts, extends or drops one page; says whether it has grown. */
    method TruncatePage(it: nat, newSize: nat, ghost s: Store) returns (grown: bool)
      requires it in pages && pageSize > 0 && s.ps == pageSize && pages == Cut(s, newSize, it)
      modifies this`pages
      ensures pages == Cut(s, newSize, it + 1)
      ensures grown ==> Start(it, pageSize) < newSize && |s.pages[it].data| < Fit(newSize, pageSize, it)
    {
      StartIsProduct(it, pageSize);
      if newSize == 0 || it > (newSize - 1) / pageSize {
        PastLast(newSize, pageSize, it);
        grown := false;
        pages := pages - {it};
      } else {
        UpToLast(newSize, pageSize, it);
        var size := if it == (newSize - 1) / pageSize then newSize - it * pageSize else pageSize;
        grown := size > |pages[it].data|;
        pages := pages[it := Page(Resized(pages[it].data, size), pages[it].dirty)];
      }
    }

    /**
     * Reacts to a change of the server's file that others made: clean pages are dropped, and the file size follows the
     * server's. Nothing happens while the file does not exist, as the news can then only come from its own creation.
     */
    method RemoteChanged(backendSize: nat)
      requires pageSize > 0 && backend.pageSize == pageSize && backend.serverMax >= SMALLEST_REFUSABLE && fetchSize > 0
      requires backend.created ==> backendSize == |backend.remote|
      modifies this`pages, this`fileSize, backend`size
      ensures !backend.created ==> View() == old(View()) && backend.size == old(backend.size)
      ensures backend.created ==>
        && backend.Valid()
        && exists m :: LastDirtyEnd(old(View()), m) && View() == AfterRemoteChange(old(View()), backend.remote, m)
      ensures backend.created && (forall p: nat :: !DirtyAt(old(View()), p)) ==>
                Valid() && pages == map[] && backend.remote == Contents(View())
    {
      if !backend.created { return; }
      ghost var s := View();
      var maxDirty := DropClean();
      fileSize := Max(backendSize, maxDirty);
      backend.SetBackendSize(backendSize);
      assert View() == AfterRemoteChange(s, backend.remote, maxDirty);
      if forall p: nat :: !DirtyAt(s, p) {
        NoDirtyPages(s);
        EmptyCache(View());
      }
    }

    /** Drops all clean pages, and finds the byte after the last dirty byte. */
    method DropClean() returns (maxDirty: nat)
      modifies this`pages
      ensures pages == DirtyPages(old(pages)) && LastDirtyEnd(old(View()), maxDirty)
    {
      hide Swept, DirtyUpTo, NextPage;
      ghost var s, bound := View(), Bound(pages);
      maxDirty := 0;
      var it := NextPage(pages, 0);
      SweepBegins(s);
      while it in pages
        invariant it <= bound && pages == Swept(s.pages, it) && DirtyUpTo(s, it, maxDirty)
        invariant it !in pages ==> AllBefore(s.pages, it) && pages == DirtyPages(s.pages)
        decreases bound - it
      {
        SweepStep(s, it, maxDirty);
        if !pages[it].dirty {
          pages := pages - {it};
        } else {
          StartIsProduct(it, pageSize);
          maxDirty := Max(maxDirty, it * pageSize + |pages[it].data|);
        }
        SweepNext(s, it + 1, maxDirty);
        it := NextPage(pages, it + 1);
      }
      SweepEnds(s, it, maxDirty);
    }
  }

  /** A run of several pages is no longer than the server takes at once. */
  ghost predicate WithinLimit(s: Store, run: Run, limit: nat) {
    && DirtyRun(s, run.start, run.count)
    && (run.count > 1 && limit > 0 ==> |Stream(s.pages, run.start, run.count)| <= limit)
  }

  /** And it ends only where the dirty pages do, or where one more page would be too long. */
  ghost predicate EndsInTime(s: Store, run: Run, limit: nat) {
    var next := run.start + run.count;
    && WithinLimit(s, run, limit)
    && (DirtyAt(s, next) ==> limit > 0 && |Stream(s.pages, run.start, run.count)| + |s.pages[next].data| > limit)
  }

  /** What has been collected when the search is at page it. */
  ghost predicate Collected(s: Store, it0: nat, it: nat, run: Run, curSize: nat, limit: nat) {
    && it0 <= it && it == NextPage(s.pages, it)
    && (forall p | it0 <= p < it && DirtyAt(s, p) :: run.Has(p))
    && (if run.count == 0 then curSize == 0
        else && it0 <= run.start && run.start + run.count <= it && WithinLimit(s, run, limit)
             && curSize == |Stream(s.pages, run.start, run.count)|
             && (DirtyAt(s, run.start + run.count) ==> it == run.start + run.count))
    && (it > it0 && DirtyAt(s, it0) ==> run.count > 0 && run.start == it0)
  }

  lemma CollectNothing(s: Store, it0: nat, limit: nat)
    requires it0 in s.pages
    ensures Collected(s, it0, it0, Run(0, 0), 0, limit)
  {
  }

  lemma CollectedSoFar(s: Store, it0: nat, it: nat, run: Run, curSize: nat, limit: nat)
    requires Collected(s, it0, it, run, curSize, limit)
    ensures run.count == 0 ==> curSize == 0
    ensures run.count == 0 ==> Collected(s, it0, it, Run(it, 0), curSize, limit)
  {
  }

  lemma CollectDirty(s: Store, it0: nat, it: nat, run: Run, curSize: nat, limit: nat)
    requires Collected(s, it0, it, run, curSize, limit) && DirtyAt(s, it) && run.start + run.count == it
    requires run.count > 0 && limit > 0 ==> curSize + |s.pages[it].data| <= limit
    ensures var run' := Run(run.start, run.count + 1);
      Collected(s, it0, NextPage(s.pages, it + 1), run', curSize + |s.pages[it].data|, limit)
  {
    assert run.count == 0 ==> DirtyRun(s, run.start, run.count);
    StreamNext(s, run.start, run.count);
  }

  lemma SkipClean(s: Store, it0: nat, it: nat, run: Run, curSize: nat, limit: nat)
    requires Collected(s, it0, it, run, curSize, limit) && it in s.pages && !s.pages[it].dirty && run.count == 0
    ensures Collected(s, it0, NextPage(s.pages, it + 1), run, curSize, limit)
  {
  }

  lemma CollectedEnds(s: Store, it0: nat, it: nat, run: Run, curSize: nat, limit: nat)
    requires Collected(s, it0, it, run, curSize, limit) && it0 in s.pages
    requires if it !in s.pages then it > it0
             else if s.pages[it].dirty then
               run.count > 0 && (run.start + run.count != it || (limit > 0 && curSize + |s.pages[it].data| > limit))
             else run.count > 0
    ensures it0 < it && it == NextPage(s.pages, it)
    ensures forall p | it0 <= p < it && DirtyAt(s, p) :: run.Has(p)
    ensures run.count > 0 ==> it0 <= run.start && run.start + run.count <= it
    ensures run.count > 0 ==> DirtyRun(s, run.start, run.count) && EndsInTime(s, run, limit)
    ensures s.pages[it0].dirty ==> run.count > 0 && run.start == it0
  {
  }

  lemma StreamNext(s: Store, a: nat, m: nat)
    requires DirtyRun(s, a, m) && DirtyAt(s, a + m)
    ensures DirtyRun(s, a, m + 1) && |Stream(s.pages, a, m + 1)| == |Stream(s.pages, a, m)| + |s.pages[a + m].data|
    ensures m == 0 ==> |Stream(s.pages, a, m)| == 0
  {
    assert PageList(s.pages, a, m + 1)[..m] == PageList(s.pages, a, m);
  }

  /**
   * The first page after the given one, and no more than ahead pages away, that the server has and the cache has not.
   */
  ghost predicate FirstMissing(s: Store, index: nat, ahead: nat, p: nat) {
    && index < p <= index + ahead && p !in s.pages && Start(p, s.ps) < s.fileSize && Start(p, s.ps) < |s.remote|
    && forall q :: index < q < p ==> q in s.pages
  }

  /** The pages that a fetch at the given one asks for: on the server, within the window, and none of them cached. */
  ghost predicate InStretch(s: Store, index: nat, window: nat, p: nat) {
    && index <= p < index + (if index > 0 then window else 1) && Start(p, s.ps) < |s.remote|
    && forall q :: index <= q <= p ==> q !in s.pages
  }

  /** The same for a fetch at the first missing page ahead. */
  ghost predicate InStretchAhead(s: Store, index: nat, ahead: nat, window: nat, p: nat) {
    exists next: nat :: FirstMissing(s, index, ahead, next) && InStretch(s, next, window, p)
  }

  lemma SearchBegins(s: Store, index: nat, ahead: nat)
    ensures forall p: nat :: FirstMissing(s, index, ahead, p) ==> index + 1 <= p <= index + ahead
  {
  }

  lemma SearchGoesOn(s: Store, index: nat, ahead: nat, next: nat)
    requires forall p: nat :: FirstMissing(s, index, ahead, p) ==> next <= p
    requires next in s.pages || |s.remote| <= Start(next, s.ps)
    ensures forall p: nat :: FirstMissing(s, index, ahead, p) ==> next + 1 <= p
  {
  }

  lemma SearchFinds(s: Store, index: nat, ahead: nat, next: nat, window: nat)
    requires forall p: nat :: FirstMissing(s, index, ahead, p) ==> next <= p
    requires s.ps > 0 && index < next <= index + ahead && next !in s.pages
    requires Start(next, s.ps) < s.fileSize && Start(next, s.ps) < |s.remote|
    requires forall q: nat :: index < q < next ==> q in s.pages || |s.remote| <= Start(q, s.ps)
    ensures forall p: nat :: FirstMissing(s, index, ahead, p) <==> p == next
    ensures forall p: nat :: InStretchAhead(s, index, ahead, window, p) <==> InStretch(s, next, window, p)
  {
    hide InStretch;
    forall q: nat | index < q < next ensures q in s.pages {
      StartOrder(q, next, s.ps);
    }
  }

  lemma NothingAhead(s: Store, index: nat, ahead: nat, window: nat)
    requires forall p: nat :: !FirstMissing(s, index, ahead, p)
    ensures forall p: nat :: !InStretchAhead(s, index, ahead, window, p)
  {
  }

  /** A stretch ends at the end of the window, behind the server's last page, or before a cached page. */
  lemma StretchEnds(s: Store, index: nat, window: nat, count: nat)
    requires s.ps > 0 && count <= (if index > 0 then window else 1)
    requires forall p :: index <= p < index + count ==> p !in s.pages
    requires count > 0 ==> Start(index + count - 1, s.ps) < |s.remote|
    requires count == (if index > 0 then window else 1) || index + count in s.pages
          || |s.remote| <= Start(index + count, s.ps)
    ensures forall p: nat :: InStretch(s, index, window, p) <==> index <= p < index + count
  {
    forall p: nat ensures InStretch(s, index, window, p) <==> index <= p < index + count {
      if index <= p < index + count {
        StartOrder(p, index + count - 1, s.ps);
      } else if InStretch(s, index, window, p) {
        StartOrder(index + count, p, s.ps);
      }
    }
  }

  /** Nothing is missing behind the end of the file. */
  lemma SearchEnds(s: Store, index: nat, ahead: nat, next: nat)
    requires s.ps > 0 && s.fileSize <= Start(next, s.ps)
    ensures forall p: nat :: FirstMissing(s, index, ahead, p) ==> p < next
  {
    forall p: nat | FirstMissing(s, index, ahead, p) ensures p < next {
      StartOrder(next, p, s.ps);
    }
  }

  lemma SameCellsSelf(s: Store)
    ensures SameCells(s, s)
  {
  }

  lemma EmptyCache(s: Store)
    requires s.ps > 0 && s.pages == map[] && s.fileSize == |s.remote| && (!s.created ==> s.remote == [])
    ensures Consistent(s) && Sequential(s) && s.remote == Contents(s)
  {
    forall i | 0 <= i < s.fileSize ensures s.remote[i] == Contents(s)[i] {
      SplitOffset(i, s.ps);
      ContentsAt(s, i / s.ps, i % s.ps);
    }
  }

  lemma SameCellsTrans(s: Store, t: Store, u: Store)
    requires SameCells(s, t) && SameCells(t, u)
    ensures SameCells(s, u)
  {
    forall p: nat, k: nat | k < s.ps ensures Cell(s, p, k) == Cell(u, p, k) { assert Cell(s, p, k) == Cell(t, p, k); }
  }

  /** A file that is only written at its end and has nothing dirty is empty as long as it does not exist. */
  lemma NothingDirtyIsEmpty(s: Store)
    requires s.ps > 0 && Sequential(s) && s.remote == [] && forall p: nat :: !DirtyAt(s, p)
    ensures s.fileSize == 0
  {
    assert !DirtyAt(s, 0);
  }

  /** What holds once a run has been written, except that the file may still be too short if it was created only now. */
  lemma RunFlushed(s: Store, n: nat, x: int, run: Run, append: bool)
    requires Shaped(s, n, x) && Covered(s, s.fileSize) && run.count > 0 && DirtyRun(s, run.start, run.count)
    requires append ==> Sequential(s) && n == s.fileSize && x == -1 && Start(run.start, s.ps) == |s.remote|
    ensures var t := Flushed(s, run.start, run.count);
      && Shaped(t, n, x) && SameCells(s, t)
      && (s.created || append ==> Covered(t, s.fileSize))
      && (append ==> Sequential(t))
  {
    FlushKeepsShape(s, n, x, run.start, run.count);
    if append {
      FlushKeepsSequential(s, run.start, run.count);
      SequentialIsCovered(Flushed(s, run.start, run.count));
    } else if s.created {
      FlushKeepsCover(s, n, x, run.start, run.count, s.fileSize);
    }
  }

  lemma CleanedNext(pages: map<nat, Page>, a: nat, i: nat)
    ensures Cleaned(pages, a, 0) == pages
    ensures a + i in pages ==>
      var now := Cleaned(pages, a, i);
      a + i in now && Cleaned(pages, a, i + 1) == now[a + i := Page(now[a + i].data, false)]
  {
  }

  lemma NoRun(s: Store, run: Run, append: bool)
    requires run.count == 0 && s.ps > 0 && (!s.created ==> s.remote == [])
    requires append ==> Sequential(s) && forall p: nat :: !DirtyAt(s, p)
    ensures Cleaned(s.pages, run.start, run.count) == s.pages && SameCells(s, s)
    ensures append && !s.created ==> Covered(s.(created := true), s.fileSize) && Sequential(s.(created := true))
  {
    if append && !s.created { NothingDirtyIsEmpty(s); }
  }

  lemma ListedMore(runs: seq<Run>, run: Run)
    ensures forall p: nat :: Listed(runs + [run], 0, p) <==> Listed(runs, 0, p) || run.Has(p)
  {
    forall p: nat ensures Listed(runs + [run], 0, p) <==> Listed(runs, 0, p) || run.Has(p) {
      if Listed(runs, 0, p) {
        var i :| 0 <= i < |runs| && runs[i].Has(p);
        assert (runs + [run])[i].Has(p);
      }
      if run.Has(p) { assert (runs + [run])[|runs|].Has(p); }
    }
  }

  /** The runs so far list exactly the dirty pages before page it. */
  ghost predicate ListedUpTo(s: Store, runs: seq<Run>, it: nat) {
    && (forall p: nat :: Listed(runs, 0, p) ==> DirtyAt(s, p))
    && (forall p: nat | p < it && DirtyAt(s, p) :: Listed(runs, 0, p))
  }

  lemma NoRunsYet(s: Store, it: nat)
    requires it == NextPage(s.pages, 0)
    ensures Ascending([], it) && ListedUpTo(s, [], it)
  {
  }

  lemma RunCollected(s: Store, runs: seq<Run>, run: Run, it: nat, next: nat)
    requires Ascending(runs, it) && ListedUpTo(s, runs, it) && it < next
    requires run.count > 0 ==> it <= run.start && run.start + run.count <= next && DirtyRun(s, run.start, run.count)
    requires forall p | it <= p < next && DirtyAt(s, p) :: run.Has(p)
    ensures var runs' := if run.count > 0 then runs + [run] else runs;
      Ascending(runs', next) && ListedUpTo(s, runs', next)
  {
    var runs' := if run.count > 0 then runs + [run] else runs;
    ListedMore(runs, run);
    forall p: nat ensures Listed(runs', 0, p) <==> Listed(runs, 0, p) || run.Has(p) {}
    forall p: nat | run.Has(p) ensures DirtyAt(s, p) {}
  }

  lemma NextRunReady(s: Store, runs: seq<Run>, j: nat, bound: nat, append: bool)
    requires Ascending(runs, bound) && j < |runs| && s.ps > 0
    requires forall p: nat :: DirtyAt(s, p) <==> Listed(runs, j, p)
    requires append ==> Sequential(s)
    ensures DirtyRun(s, runs[j].start, runs[j].count)
    ensures append ==> Start(runs[j].start, s.ps) == |s.remote|
  {
    forall p | runs[j].start <= p < runs[j].start + runs[j].count ensures p in s.pages && s.pages[p].dirty {
      assert runs[j].Has(p);
      assert DirtyAt(s, p);
    }
    if append {
      forall p: nat | DirtyAt(s, p) ensures runs[j].start <= p {
        var i :| j <= i < |runs| && runs[i].Has(p);
      }
      assert runs[j].Has(runs[j].start);
      FirstDirtyIsAtEnd(s, runs[j].start);
    }
  }

  lemma RunsLeft(s: Store, t: Store, runs: seq<Run>, j: nat, bound: nat)
    requires Ascending(runs, bound) && j < |runs|
    requires forall p: nat :: DirtyAt(s, p) <==> Listed(runs, j, p)
    requires t.pages == Cleaned(s.pages, runs[j].start, runs[j].count)
    ensures forall p: nat :: DirtyAt(t, p) <==> Listed(runs, j + 1, p)
  {
    forall p: nat ensures DirtyAt(t, p) <==> Listed(runs, j + 1, p) {
      if Listed(runs, j + 1, p) {
        var i :| j + 1 <= i < |runs| && runs[i].Has(p);
        assert Listed(runs, j, p);
        assert DirtyAt(s, p) && !runs[j].Has(p);
      }
      if DirtyAt(t, p) {
        assert DirtyAt(s, p);
        var i :| j <= i < |runs| && runs[i].Has(p);
      }
    }
  }

  lemma StaysClean(s: Store, t: Store)
    requires forall p: nat :: !DirtyAt(s, p)
    requires forall p | p in t.pages :: p in s.pages && (t.pages[p].dirty ==> s.pages[p].dirty)
    ensures forall p: nat :: !DirtyAt(t, p)
  {
    forall p: nat ensures !DirtyAt(t, p) { assert !DirtyAt(s, p); }
  }

  /** A page of the server's file, zero-extended at least as far as the fetch does, is a page as a reader sees it. */
  lemma FetchedPageFits(s: Store, index: nat, count: nat, i: nat)
    requires Shaped(s, s.fileSize, -1) && i < count && Start(index + count - 1, s.ps) < |s.remote|
    ensures Start(index + i, s.ps) < |s.remote| && Start(index, s.ps) < s.fileSize
    ensures var data, realSize := PageOf(s.remote, s.ps, index + i), Min(s.fileSize - Start(index, s.ps), s.ps);
      && |data| == Min(|s.remote| - Start(index + i, s.ps), s.ps)
      && (forall k :: 0 <= k < |data| ==> data[k] == s.remote[Start(index + i, s.ps) + k])
      && Fit(s.fileSize, s.ps, index + i) <= realSize <= s.ps
  {
    hide Mirrors;
    StartOrder(index, index + i, s.ps);
    StartOrder(index + i, index + count - 1, s.ps);
    RemoteFits(s, s.fileSize, -1);
  }

  /** Caching it, extended like that, is invisible. */
  lemma FetchedPageKeeps(s: Store, index: nat, count: nat, i: nat)
    requires Shaped(s, s.fileSize, -1) && Covered(s, s.fileSize) && i < count
    requires Start(index + count - 1, s.ps) < |s.remote|
    requires index + i !in s.pages
    ensures Start(index, s.ps) < s.fileSize
    ensures var fetched, realSize := PageOf(s.remote, s.ps, index + i), Min(s.fileSize - Start(index, s.ps), s.ps);
      var t := WithPage(s, index + i, if |fetched| < realSize then Resized(fetched, realSize) else fetched, false);
      Shaped(t, s.fileSize, -1) && Covered(t, s.fileSize) && SameCells(s, t) && OnlyCleanDropped(s, t)
  {
    hide Covered, SameCells, OnlyCleanDropped;
    FetchedPageFits(s, index, count, i);
    var fetched, realSize := PageOf(s.remote, s.ps, index + i), Min(s.fileSize - Start(index, s.ps), s.ps);
    var data := if |fetched| < realSize then Resized(fetched, realSize) else fetched;
    CacheKeepsShape(s, s.fileSize, index + i, data, s.fileSize);
  }

  lemma RemoteFits(s: Store, n: nat, x: int)
    requires Shaped(s, n, x)
    ensures |s.remote| <= n && (x in s.pages ==> |s.pages[x].data| == Fit(n, s.ps, x))
  {
  }

  lemma OthersFull(s: Store, last: nat, index: nat)
    requires Shaped(s, s.fileSize, -1) && Start(last, s.ps) < s.fileSize <= Start(last, s.ps) + s.ps && last !in s.pages
    ensures forall p | p in s.pages :: Start(p, s.ps) + s.ps <= s.fileSize
  {
    forall p | p in s.pages ensures Start(p, s.ps) + s.ps <= s.fileSize {
      assert PageOk(s, s.fileSize, p);
      StartOrder(p, last, s.ps);
      StartOrder(last, p, s.ps);
    }
  }

  lemma UpToIndexFull(s: Store, index: nat)
    requires Shaped(s, s.fileSize, -1) && (Start(index, s.ps) <= s.fileSize || s.fileSize == 0)
    ensures forall p | p in s.pages :: Start(p, s.ps) + s.ps <= s.fileSize || Start(index, s.ps) < s.fileSize
  {
    forall p | p in s.pages ensures Start(p, s.ps) + s.ps <= s.fileSize || Start(index, s.ps) < s.fileSize {
      assert PageOk(s, s.fileSize, p);
      StartOrder(p, index, s.ps);
    }
  }

  lemma ZeroPageCells(s: Store, t: Store, u: Store, index: nat, size: nat, partial: bool)
    requires s.ps > 0 && SameCells(s, t) && index !in s.pages && (partial ==> |s.remote| <= Start(index, s.ps))
    requires Shaped(s, s.fileSize, -1) && Start(index, s.ps) + size >= Min(s.fileSize, Start(index, s.ps) + s.ps)
    requires forall p: nat, k: nat :: k < s.ps && p != index ==> Cell(u, p, k) == Cell(t, p, k)
    requires forall k: nat :: k < s.ps ==> Cell(u, index, k) == 0
    ensures forall p: nat, k: nat :: k < s.ps && (p != index || partial || k >= size) ==> Cell(u, p, k) == Cell(s, p, k)
  {
    forall p: nat, k: nat | k < s.ps && (p != index || partial || k >= size) ensures Cell(u, p, k) == Cell(s, p, k) {
      if p == index {
        if !partial { ZeroPastEnd(s, s.fileSize, p, k); }
      } else {
        assert Cell(s, p, k) == Cell(t, p, k);
      }
    }
  }

  lemma FetchedPageCells(s: Store, index: nat, size: nat)
    requires Shaped(s, s.fileSize, -1) && index !in s.pages && Start(index, s.ps) < |s.remote|
    requires Start(index, s.ps) + size >= Min(s.fileSize, Start(index, s.ps) + s.ps)
    ensures forall k: nat :: k < s.ps ==> ByteOr0(Resized(PageOf(s.remote, s.ps, index), size), k) == Cell(s, index, k)
  {
    hide Shaped, Start;
    FetchedPageFits(s, index, 1, 0);
    forall k: nat | k < s.ps && k >= size ensures Cell(s, index, k) == 0 { ZeroPastEnd(s, s.fileSize, index, k); }
  }

  /** A byte of the flat file after buf was written at offset off of page index. */
  ghost function PatchedCell(s: Store, index: nat, off: nat, buf: seq<Byte>, p: nat, k: nat): Byte {
    if p == index && off <= k < off + |buf| then buf[k - off] else Cell(s, p, k)
  }

  lemma WrittenCells(s: Store, t: Store, n: nat, index: nat, off: nat, buf: seq<Byte>, size: nat, partial: bool)
    requires s.ps == t.ps && index in t.pages && off + |buf| <= |t.pages[index].data| <= s.ps
    requires !partial ==> off == 0 && |buf| >= size
    requires forall p: nat, k: nat :: k < s.ps && (p != index || partial || k >= size) ==>
              Cell(t, p, k) == Cell(s, p, k)
    ensures forall p: nat, k: nat :: k < s.ps ==>
              Cell(Written(t, n, index, off, buf), p, k) == PatchedCell(s, index, off, buf, p, k)
  {
    forall p: nat, k: nat | k < s.ps
      ensures Cell(Written(t, n, index, off, buf), p, k) == PatchedCell(s, index, off, buf, p, k)
    {
      WrittenCell(t, n, index, off, buf, p, k);
    }
  }

  lemma PastLast(n: nat, ps: nat, p: nat)
    requires ps > 0 && (n == 0 || p > (n - 1) / ps)
    ensures n <= Start(p, ps)
  {
    if n > 0 {
      SplitOffset(n - 1, ps);
      StartOrder((n - 1) / ps, p, ps);
    }
  }

  lemma UpToLast(n: nat, ps: nat, p: nat)
    requires ps > 0 && n > 0 && p <= (n - 1) / ps
    ensures Start(p, ps) < n
    ensures Fit(n, ps, p) == if p == (n - 1) / ps then n - Start(p, ps) else ps
  {
    SplitOffset(n - 1, ps);
    StartOrder(p, (n - 1) / ps, ps);
  }

  lemma CutWithin(s: Store, n: nat, i: nat)
    ensures Cut(s, n, 0) == s.pages && forall p :: p in Cut(s, n, i) ==> p in s.pages
  {
  }

  lemma CutNext(s: Store, n: nat, i: nat, j: nat)
    requires j == NextPage(Cut(s, n, i), i)
    ensures Cut(s, n, i) == Cut(s, n, j)
  {
    forall p | p in s.pages ensures p < i || j <= p {
      if i <= p { assert p in Cut(s, n, i); }
    }
  }

  lemma CutDone(s: Store, n: nat, i: nat, bound: nat)
    requires i <= bound && i == NextPage(Cut(s, n, i), i) && i !in Cut(s, n, i)
    requires forall p | p in s.pages :: p < bound
    ensures Cut(s, n, i) == Cut(s, n, bound)
  {
    forall p | p in s.pages ensures i <= p ==> p in Cut(s, n, i) {}
  }

  lemma TruncatedCells(s: Store, t: Store, n: nat, bound: nat)
    requires s.ps > 0 && SameCells(Truncated(s, n, bound), t)
    requires forall p: nat, k: nat | k < s.ps :: TruncatedCell(s, n, bound, p, k)
    ensures forall p: nat, k: nat :: k < s.ps ==> Cell(t, p, k) == (if Start(p, s.ps) + k < n then Cell(s, p, k) else 0)
  {
    forall p: nat, k: nat | k < s.ps ensures Cell(t, p, k) == if Start(p, s.ps) + k < n then Cell(s, p, k) else 0 {
      assert TruncatedCell(s, n, bound, p, k);
    }
  }

  lemma EmptyIsSequential(s: Store)
    requires Shaped(s, 0, -1) && s.fileSize == 0
    ensures Sequential(s)
  {
    forall p: nat ensures !DirtyAt(s, p) { PageHasBytes(s, 0, p); }
  }

  lemma PageHasBytes(s: Store, n: nat, p: nat)
    requires Shaped(s, n, -1)
    ensures p in s.pages ==> n > 0
  {
    if p in s.pages { assert PageOk(s, n, p); }
  }

  /** Only the last page is ever extended, so nothing is left to cut when other pages may be touched. */
  lemma GrownPageIsLast(s: Store, n: nat, bound: nat, p: nat)
    requires Consistent(s) && p in s.pages && Start(p, s.ps) < n && |s.pages[p].data| < Fit(n, s.ps, p)
    requires forall q | q in s.pages :: q < bound
    ensures Cut(s, n, p + 1) == Cut(s, n, bound)
    ensures forall q | q in s.pages :: q <= p
  {
    NoneBehind(s, n, p);
    hide Consistent, Fit;
  }

  lemma NoneBehind(s: Store, n: nat, p: nat)
    requires Consistent(s) && p in s.pages && Start(p, s.ps) < n && |s.pages[p].data| < Fit(n, s.ps, p)
    ensures forall q | q in s.pages :: q <= p
  {
    assert PageOk(s, s.fileSize, p);
    forall q | q in s.pages ensures q <= p {
      assert PageOk(s, s.fileSize, q);
      StartOrder(p, q, s.ps);
    }
  }

  /** The page map while the clean pages are being dropped: those before page it are gone. */
  ghost function Swept(pages: map<nat, Page>, it: nat): map<nat, Page> {
    map p | p in pages && (pages[p].dirty || it <= p) :: pages[p]
  }

  ghost predicate AllBefore(pages: map<nat, Page>, i: nat) { forall p | p in pages :: p < i }

  /** The sweep misses no page: all pages between two stops have been seen. */
  lemma SweptNext(pages: map<nat, Page>, i: nat)
    ensures var j := NextPage(Swept(pages, i), i);
      && Swept(pages, j) == Swept(pages, i) && (forall p | p in pages :: p < i || j <= p)
      && (j !in Swept(pages, i) ==> AllBefore(pages, j) && Swept(pages, j) == DirtyPages(pages))
  {
    var j := NextPage(Swept(pages, i), i);
    forall p | p in pages ensures i <= p ==> p in Swept(pages, i) {}
  }

  /** The last dirty byte of the pages before page it. */
  ghost predicate DirtyUpTo(s: Store, it: nat, m: nat) {
    && (forall p | DirtyAt(s, p) && p < it :: Start(p, s.ps) + |s.pages[p].data| <= m)
    && (m == 0 || exists p :: DirtyAt(s, p) && m == Start(p, s.ps) + |s.pages[p].data|)
  }

  lemma SweepBegins(s: Store)
    ensures var it := NextPage(s.pages, 0);
      && s.pages == Swept(s.pages, it) && DirtyUpTo(s, it, 0)
      && (it !in s.pages ==> AllBefore(s.pages, it) && s.pages == DirtyPages(s.pages))
      && it <= Bound(s.pages)
  {
    assert s.pages == Swept(s.pages, 0);
    SweptNext(s.pages, 0);
  }

  lemma SweepStep(s: Store, it: nat, m: nat)
    requires it in Swept(s.pages, it) && DirtyUpTo(s, it, m)
    ensures it in s.pages && Swept(s.pages, it)[it] == s.pages[it]
    ensures Swept(s.pages, it + 1) == if s.pages[it].dirty then Swept(s.pages, it) else Swept(s.pages, it) - {it}
    ensures DirtyUpTo(s, it + 1, if s.pages[it].dirty then Max(m, Start(it, s.ps) + |s.pages[it].data|) else m)
  {
    assert s.pages[it].dirty ==> DirtyAt(s, it);
  }

  lemma SweepNext(s: Store, i: nat, m: nat)
    requires DirtyUpTo(s, i, m) && i <= Bound(s.pages)
    ensures var it := NextPage(Swept(s.pages, i), i);
      && i <= it <= Bound(s.pages) && Swept(s.pages, i) == Swept(s.pages, it) && DirtyUpTo(s, it, m)
      && (it !in Swept(s.pages, i) ==> AllBefore(s.pages, it) && Swept(s.pages, i) == DirtyPages(s.pages))
  {
    SweptNext(s.pages, i);
  }

  lemma SweepEnds(s: Store, it: nat, m: nat)
    requires DirtyUpTo(s, it, m) && AllBefore(s.pages, it)
    ensures LastDirtyEnd(s, m)
  {
  }

  lemma NoDirtyPages(s: Store)
    requires forall p: nat :: !DirtyAt(s, p)
    ensures DirtyPages(s.pages) == map[]
  {
    forall p | p in s.pages ensures !s.pages[p].dirty { assert !DirtyAt(s, p); }
  }
}
