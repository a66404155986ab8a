/**
 * The state behind one cached file, as values: the client's page map and file size, and the server's bytes.
 * Here live the shape invariant, what a run of dirty pages puts on the server, and the lemmas that the
 * classes in PageBackend.dfy, PageManager.dfy and File.dfy use step by step.
 */
module PageStore {
  import opened Bytes
  import opened SendFile

  datatype Page = Page(data: seq<Byte>, dirty: bool)

  datatype Store = Store(ps: nat, pages: map<nat, Page>, fileSize: nat, remote: seq<Byte>, created: bool)

  /** Byte k of page p as a reader sees it: the cached page if there is one, else the server; zero beyond either. */
  function Cell(s: Store, p: nat, k: nat): Byte {
    if p in s.pages then ByteOr0(s.pages[p].data, k) else ByteOr0(s.remote, Start(p, s.ps) + k)
  }

  ghost predicate SameCells(s: Store, t: Store) {
    s.ps == t.ps && forall p: nat, k: nat :: k < s.ps ==> Cell(s, p, k) == Cell(t, p, k)
  }

  /** The flat byte array that the cached file stands for. */
  function Contents(s: Store): (c: seq<Byte>)
    requires s.ps > 0
    ensures |c| == s.fileSize
  {
    seq(s.fileSize, (i: nat) => Cell(s, i / s.ps, i % s.ps))
  }

  lemma ContentsAt(s: Store, p: nat, k: nat)
    requires s.ps > 0 && k < s.ps && Start(p, s.ps) + k < s.fileSize
    ensures Contents(s)[Start(p, s.ps) + k] == Cell(s, p, k)
  {
    SplitUnique(Start(p, s.ps) + k, s.ps, p, k);
  }

  lemma SameContents(s: Store, t: Store)
    requires s.ps > 0 && SameCells(s, t) && s.fileSize == t.fileSize
    ensures Contents(s) == Contents(t)
  {
  }

  // ---------------------------------------------------------------------------------------------
  // The shape invariant

  /** The length of page p in a file of n bytes. */
  function Fit(n: nat, ps: nat, p: nat): int { Min(n - Start(p, ps), ps) }

  ghost predicate Mirrors(s: Store, p: nat)
    requires p in s.pages
  {
    forall k :: 0 <= k < |s.pages[p].data| ==> s.pages[p].data[k] == ByteOr0(s.remote, Start(p, s.ps) + k)
  }

  /**
   * A dirty page is exactly as long as its part of the file; a clean one at least that long, and equal to the server.
   */
  ghost predicate PageOk(s: Store, n: nat, p: nat)
    requires p in s.pages
  {
    var page := s.pages[p];
    Start(p, s.ps) < n && |page.data| <= s.ps &&
    if page.dirty then |page.data| == Fit(n, s.ps, p) else Fit(n, s.ps, p) <= |page.data| && Mirrors(s, p)
  }

  /**
   * The page-shape invariant for a file of n bytes. While a write is under way n is the size the file is about to
   * get, and x is the page being written, of which only the length is known; x < 0 when there is none.
   */
  ghost predicate Shaped(s: Store, n: nat, x: int) {
    && s.ps > 0
    && |s.remote| <= n
    && (!s.created ==> s.remote == [])
    && (forall p | p in s.pages && p != x :: PageOk(s, n, p))
    && (x in s.pages ==> Start(x, s.ps) < n && |s.pages[x].data| == Fit(n, s.ps, x))
  }

  ghost predicate DirtyAt(s: Store, p: int) { p in s.pages && s.pages[p].dirty }

  /** Once the file exists on the server, bytes past the server's end are owed to some dirty page. */
  ghost predicate Covered(s: Store, n: nat) {
    s.created ==> n <= |s.remote| || exists p :: DirtyAt(s, p) && n <= Start(p, s.ps) + |s.pages[p].data|
  }

  /** The invariant between operations. */
  ghost predicate Consistent(s: Store) { Shaped(s, s.fileSize, -1) && Covered(s, s.fileSize) }

  /**
   * Files that can only be appended to on the server: the dirty pages are exactly the pages between the server's end
   * and the end of the file, and there are none while the server's size is not a multiple of the page size.
   */
  ghost predicate Sequential(s: Store) {
    && (forall p: nat :: DirtyAt(s, p) <==> |s.remote| <= Start(p, s.ps) < s.fileSize)
    && (|s.remote| == s.fileSize || Aligned(s))
  }

  /** The server's size is a multiple of the page size. */
  ghost predicate Aligned(s: Store) { exists m: nat :: |s.remote| == Start(m, s.ps) }

  /**
   * Equal to the declared relation between the three sizes: fileSize is the larger of the server's size and the last
   * dirty end.
   */
  lemma FileSizeIsMax(s: Store)
    requires Consistent(s) && s.created
    ensures |s.remote| <= s.fileSize
    ensures forall p :: DirtyAt(s, p) ==> Start(p, s.ps) + |s.pages[p].data| <= s.fileSize
    ensures s.fileSize == |s.remote| || exists p :: DirtyAt(s, p) && s.fileSize == Start(p, s.ps) + |s.pages[p].data|
  {
    forall p | DirtyAt(s, p) ensures Start(p, s.ps) + |s.pages[p].data| <= s.fileSize {
      assert PageOk(s, s.fileSize, p);
    }
  }

  /** Every page before the last one is full. */
  lemma InnerPagesAreFull(s: Store, n: nat, x: int, p: nat)
    requires Shaped(s, n, x) && p in s.pages && Start(p + 1, s.ps) <= n
    ensures |s.pages[p].data| == s.ps
  {
    assert Start(p + 1, s.ps) == Start(p, s.ps) + s.ps;
    if p != x { assert PageOk(s, n, p); }
  }

  /** Nothing but zeros lies past the end, whatever is cached there. */
  lemma ZeroPastEnd(s: Store, n: nat, p: nat, k: nat)
    requires Shaped(s, n, -1) && k < s.ps && n <= Start(p, s.ps) + k
    ensures Cell(s, p, k) == 0
  {
    if p in s.pages { assert PageOk(s, n, p); }
  }

  // ---------------------------------------------------------------------------------------------
  // Runs of dirty pages

  ghost predicate DirtyRun(s: Store, a: nat, m: nat) {
    forall p | a <= p < a + m :: p in s.pages && s.pages[p].dirty
  }

  /** The pages of a run, as the upload's page list. */
  function PageList(pages: map<nat, Page>, a: nat, m: nat): seq<seq<Byte>>
    requires forall p | a <= p < a + m :: p in pages
  {
    seq(m, i requires 0 <= i < m => pages[a + i].data)
  }

  ghost predicate PresentRun(pages: map<nat, Page>, ps: nat, a: nat, m: nat) {
    (forall p | a <= p < a + m :: p in pages) && WellFormed(PageRun(ps, PageList(pages, a, m)))
  }

  /** What a run of pages puts on the wire. */
  function Stream(pages: map<nat, Page>, a: nat, m: nat): seq<Byte>
    requires forall p | a <= p < a + m :: p in pages
  {
    Joined(PageList(pages, a, m))
  }

  lemma StreamLength(pages: map<nat, Page>, ps: nat, a: nat, m: nat)
    requires PresentRun(pages, ps, a, m) && m > 0
    ensures |Stream(pages, a, m)| == Start(m - 1, ps) + |pages[a + m - 1].data|
  {
    JoinedLength(ps, PageList(pages, a, m));
  }

  /** Byte k of page p sits in the stream at its own place in the file. */
  lemma StreamAt(pages: map<nat, Page>, ps: nat, a: nat, m: nat, p: nat, k: nat)
    requires PresentRun(pages, ps, a, m) && a <= p < a + m && k < |pages[p].data|
    ensures 0 <= Start(p, ps) + k - Start(a, ps) < |Stream(pages, a, m)|
    ensures Stream(pages, a, m)[Start(p, ps) + k - Start(a, ps)] == pages[p].data[k]
  {
    hide Joined, WellFormed, Start;
    StartSum(a, p - a, ps);
    JoinedAt(ps, PageList(pages, a, m), p - a, k);
  }

  lemma FullBeforeLast(pages: map<nat, Page>, ps: nat, a: nat, m: nat, p: nat)
    requires PresentRun(pages, ps, a, m) && a <= p < a + m
    ensures p < a + m - 1 ==> |pages[p].data| == ps
  {
    assert PageList(pages, a, m)[p - a] == pages[p].data;
  }

  /** The offsets a run covers are those of its own pages; the last page holds len bytes. */
  lemma OutsideRun(ps: nat, a: nat, m: nat, len: nat, p: nat, k: nat)
    requires m > 0 && len <= ps && k < ps
    requires a <= p < a + m ==> p == a + m - 1 && len <= k
    ensures !(Start(a, ps) <= Start(p, ps) + k < Start(a, ps) + Start(m - 1, ps) + len)
  {
    StartSum(a, m - 1, ps);
    if p < a {
      StartStep(p, a, ps);
    } else if p >= a + m {
      StartStep(a + m - 1, p, ps);
    }
  }

  lemma WrittenInside(remote: seq<Byte>, pages: map<nat, Page>, ps: nat, a: nat, m: nat, p: nat, k: nat)
    requires PresentRun(pages, ps, a, m) && a <= p < a + m && k < |pages[p].data|
    ensures ByteOr0(Overlay(remote, Start(a, ps), Stream(pages, a, m)), Start(p, ps) + k) == pages[p].data[k]
  {
    var d, i := Stream(pages, a, m), Start(p, ps) + k;
    StreamAt(pages, ps, a, m, p, k);
    OverlayAt(remote, Start(a, ps), d, i);
  }

  lemma WrittenOutside(remote: seq<Byte>, d: seq<Byte>, ps: nat, a: nat, m: nat, len: nat, p: nat, k: nat)
    requires m > 0 && len <= ps && k < ps && |d| == Start(m - 1, ps) + len
    requires a <= p < a + m ==> p == a + m - 1 && len <= k
    ensures ByteOr0(Overlay(remote, Start(a, ps), d), Start(p, ps) + k) == ByteOr0(remote, Start(p, ps) + k)
  {
    OutsideRun(ps, a, m, len, p, k);
    OverlayAt(remote, Start(a, ps), d, Start(p, ps) + k);
  }

  /** Writing the run at its first page's offset changes the server exactly under the run's own bytes. */
  lemma WrittenRunAt(remote: seq<Byte>, pages: map<nat, Page>, ps: nat, a: nat, m: nat, p: nat, k: nat)
    requires PresentRun(pages, ps, a, m) && k < ps && m > 0 && 0 < |pages[a + m - 1].data| <= ps
    ensures ByteOr0(Overlay(remote, Start(a, ps), Stream(pages, a, m)), Start(p, ps) + k)
         == if a <= p < a + m && k < |pages[p].data| then pages[p].data[k] else ByteOr0(remote, Start(p, ps) + k)
  {
    var d, len := Stream(pages, a, m), |pages[a + m - 1].data|;
    if a <= p < a + m && k < |pages[p].data| {
      WrittenInside(remote, pages, ps, a, m, p, k);
    } else {
      StreamLength(pages, ps, a, m);
      if a <= p < a + m { FullBeforeLast(pages, ps, a, m, p); }
      WrittenOutside(remote, d, ps, a, m, len, p, k);
    }
  }

  function Cleaned(pages: map<nat, Page>, a: nat, m: nat): map<nat, Page> {
    map p | p in pages :: if a <= p < a + m then Page(pages[p].data, false) else pages[p]
  }

  /** The state after a run of dirty pages was written to the server and marked clean. */
  function Flushed(s: Store, a: nat, m: nat): Store
    requires DirtyRun(s, a, m)
  {
    Store(s.ps, Cleaned(s.pages, a, m), s.fileSize, Overlay(s.remote, Start(a, s.ps), Stream(s.pages, a, m)), true)
  }

  lemma DirtyPageFits(s: Store, n: nat, x: int, p: nat)
    requires Shaped(s, n, x) && DirtyAt(s, p)
    ensures Start(p, s.ps) < n && |s.pages[p].data| == Fit(n, s.ps, p) && 0 < |s.pages[p].data| <= s.ps
  {
    if p != x { assert PageOk(s, n, p); }
  }

  lemma RunIsPresent(s: Store, n: nat, x: int, a: nat, m: nat)
    requires Shaped(s, n, x) && DirtyRun(s, a, m) && m > 0
    ensures PresentRun(s.pages, s.ps, a, m)
  {
    var list := PageList(s.pages, a, m);
    forall i | 0 <= i < m
      ensures 0 < |list[i]| <= s.ps && (i < m - 1 ==> |list[i]| == s.ps)
    {
      DirtyPageFits(s, n, x, a + i);
      if i < m - 1 {
        DirtyPageFits(s, n, x, a + i + 1);
        InnerPagesAreFull(s, n, x, a + i);
      }
    }
  }

  /** What the server holds under page p once the run has been written. */
  lemma FlushedRemoteAt(s: Store, n: nat, x: int, a: nat, m: nat, p: nat, k: nat)
    requires Shaped(s, n, x) && DirtyRun(s, a, m) && m > 0 && k < s.ps
    ensures ByteOr0(Flushed(s, a, m).remote, Start(p, s.ps) + k)
         == if a <= p < a + m && k < |s.pages[p].data| then s.pages[p].data[k]
            else ByteOr0(s.remote, Start(p, s.ps) + k)
  {
    RunIsPresent(s, n, x, a, m);
    DirtyPageFits(s, n, x, a + m - 1);
    WrittenRunAt(s.remote, s.pages, s.ps, a, m, p, k);
  }

  lemma FlushedSize(s: Store, n: nat, x: int, a: nat, m: nat)
    requires Shaped(s, n, x) && DirtyRun(s, a, m) && m > 0
    ensures |Flushed(s, a, m).remote| == Max(|s.remote|, Start(a + m - 1, s.ps) + |s.pages[a + m - 1].data|) <= n
  {
    RunIsPresent(s, n, x, a, m);
    DirtyPageFits(s, n, x, a + m - 1);
    StreamLength(s.pages, s.ps, a, m);
    StartSum(a, m - 1, s.ps);
  }

  lemma FlushKeepsPage(s: Store, n: nat, x: int, a: nat, m: nat, p: nat)
    requires Shaped(s, n, x) && DirtyRun(s, a, m) && m > 0 && p in s.pages && p != x
    ensures PageOk(Flushed(s, a, m), n, p)
  {
    hide Stream, Overlay;
    var t := Flushed(s, a, m);
    var page := s.pages[p];
    assert PageOk(s, n, p);
    if !t.pages[p].dirty {
      forall k | 0 <= k < |page.data| ensures page.data[k] == ByteOr0(t.remote, Start(p, t.ps) + k) {
        FlushedRemoteAt(s, n, x, a, m, p, k);
      }
    }
  }

  /** Writing a dirty run back is invisible to readers and keeps the shape, even in the middle of a write. */
  lemma FlushKeepsShape(s: Store, n: nat, x: int, a: nat, m: nat)
    requires Shaped(s, n, x) && DirtyRun(s, a, m) && m > 0
    ensures Shaped(Flushed(s, a, m), n, x) && SameCells(s, Flushed(s, a, m))
  {
    var t := Flushed(s, a, m);
    FlushedSize(s, n, x, a, m);
    forall p: nat, k: nat | k < s.ps ensures Cell(s, p, k) == Cell(t, p, k) {
      if p !in s.pages { FlushedRemoteAt(s, n, x, a, m, p, k); }
    }
    forall p | p in t.pages && p != x ensures PageOk(t, n, p) {
      FlushKeepsPage(s, n, x, a, m, p);
    }
  }

  lemma EndsOrdered(s: Store, n: nat, x: int, p: nat, q: nat)
    requires Shaped(s, n, x) && DirtyAt(s, p) && DirtyAt(s, q) && p <= q
    ensures Start(p, s.ps) + |s.pages[p].data| <= Start(q, s.ps) + |s.pages[q].data|
  {
    if p < q {
      DirtyPageFits(s, n, x, p);
      StartStep(p, q, s.ps);
    }
  }

  lemma StaysDirty(s: Store, a: nat, m: nat, p: nat)
    requires DirtyRun(s, a, m) && DirtyAt(s, p) && !(a <= p < a + m)
    ensures DirtyAt(Flushed(s, a, m), p) && Flushed(s, a, m).pages[p] == s.pages[p]
  {
  }

  lemma FlushKeepsCover(s: Store, n: nat, x: int, a: nat, m: nat, f: nat)
    requires Shaped(s, n, x) && DirtyRun(s, a, m) && m > 0 && s.created && Covered(s, f)
    ensures Covered(Flushed(s, a, m), f)
  {
    hide Shaped, Stream, Overlay;
    var t := Flushed(s, a, m);
    if f > |t.remote| {
      FlushedSize(s, n, x, a, m);
      var p :| DirtyAt(s, p) && f <= Start(p, s.ps) + |s.pages[p].data|;
      if a <= p < a + m {
        EndsOrdered(s, n, x, p, a + m - 1);
        assert false;
      } else {
        StaysDirty(s, a, m, p);
      }
    }
  }

  // ---------------------------------------------------------------------------------------------
  // The other steps

  /** What evicting and flushing pages behind a writer's back may do to the state; page x is left in place. */
  ghost predicate Tidied(s: Store, t: Store, x: int) {
    && SameCells(s, t) && t.fileSize == s.fileSize
    && (s.created ==> t.created)
    && (forall p | p in t.pages ::
          p in s.pages && t.pages[p].data == s.pages[p].data && (t.pages[p].dirty ==> s.pages[p].dirty))
    && (x in s.pages ==> x in t.pages)
  }

  lemma TidiedTwice(s: Store, t: Store, u: Store, x: int)
    requires Tidied(s, t, x) && Tidied(t, u, x)
    ensures Tidied(s, u, x)
  {
    forall p: nat, k: nat | k < s.ps ensures Cell(s, p, k) == Cell(u, p, k) {
      assert Cell(s, p, k) == Cell(t, p, k) == Cell(u, p, k);
    }
  }

  /** What evicting and flushing may do to a file that is only written at its end: drop clean pages. */
  ghost predicate OnlyCleanDropped(s: Store, t: Store) {
    t.remote == s.remote && t.created == s.created && forall p: nat :: DirtyAt(s, p) <==> DirtyAt(t, p)
  }

  /** Which keeps the dirty pages in one run at the server's end. */
  lemma SequentialStays(s: Store, t: Store)
    requires Sequential(s) && OnlyCleanDropped(s, t) && t.ps == s.ps && t.fileSize == s.fileSize
    ensures Sequential(t)
  {
    assert Aligned(s) ==> Aligned(t);
  }

  function Erased(s: Store, p: nat): Store { s.(pages := s.pages - {p}) }

  /** Dropping a clean page is invisible: the server has its bytes. */
  lemma EraseKeepsShape(s: Store, n: nat, x: int, p: nat, f: nat)
    requires Shaped(s, n, x) && Covered(s, f) && p != x && p in s.pages && !s.pages[p].dirty
    ensures Shaped(Erased(s, p), n, x) && Covered(Erased(s, p), f) && Tidied(s, Erased(s, p), x)
    ensures OnlyCleanDropped(s, Erased(s, p))
  {
    var t := Erased(s, p);
    assert PageOk(s, n, p);
    forall q: nat, k: nat | k < s.ps ensures Cell(s, q, k) == Cell(t, q, k) {
      if q == p && k >= |s.pages[p].data| { PastCleanPage(s, n, p, k); }
    }
    forall q | q in t.pages && q != x ensures PageOk(t, n, q) { assert PageOk(s, n, q); }
    forall q | DirtyAt(s, q) ensures DirtyAt(t, q) && t.pages[q] == s.pages[q] {}
  }

  lemma PastCleanPage(s: Store, n: nat, p: nat, k: nat)
    requires p in s.pages && PageOk(s, n, p) && |s.remote| <= n && !s.pages[p].dirty && |s.pages[p].data| <= k < s.ps
    ensures ByteOr0(s.remote, Start(p, s.ps) + k) == 0
  {
  }

  function WithPage(s: Store, p: nat, data: seq<Byte>, dirty: bool): Store {
    s.(pages := s.pages[p := Page(data, dirty)])
  }

  /** Caching a page of server bytes, zero-extended to at least the page's part of the file, is invisible. */
  lemma CacheKeepsShape(s: Store, n: nat, p: nat, data: seq<Byte>, f: nat)
    requires Shaped(s, n, -1) && Covered(s, f) && p !in s.pages
    requires Start(p, s.ps) < n && Fit(n, s.ps, p) <= |data| <= s.ps
    requires forall k :: 0 <= k < |data| ==> data[k] == ByteOr0(s.remote, Start(p, s.ps) + k)
    ensures Shaped(WithPage(s, p, data, false), n, -1) && Covered(WithPage(s, p, data, false), f)
    ensures SameCells(s, WithPage(s, p, data, false)) && OnlyCleanDropped(s, WithPage(s, p, data, false))
  {
    hide Covered, Start;
    var t := WithPage(s, p, data, false);
    forall q: nat, k: nat | k < s.ps ensures Cell(s, q, k) == Cell(t, q, k) {
      CachedCell(s, n, p, data, q, k);
    }
    AddedIsShaped(s, n, p, data);
    hide Shaped;
    AddedIsCovered(s, p, data, f);
  }

  lemma AddedIsShaped(s: Store, n: nat, p: nat, data: seq<Byte>)
    requires Shaped(s, n, -1) && p !in s.pages && Start(p, s.ps) < n && Fit(n, s.ps, p) <= |data| <= s.ps
    requires forall k :: 0 <= k < |data| ==> data[k] == ByteOr0(s.remote, Start(p, s.ps) + k)
    ensures Shaped(WithPage(s, p, data, false), n, -1)
  {
    hide Start;
    var t := WithPage(s, p, data, false);
    forall q | q in t.pages ensures PageOk(t, n, q) {
      if q != p { assert PageOk(s, n, q); }
    }
  }

  lemma CachedCell(s: Store, n: nat, p: nat, data: seq<Byte>, q: nat, k: nat)
    requires |s.remote| <= n && p !in s.pages && k < s.ps && Fit(n, s.ps, p) <= |data| <= s.ps
    requires forall i :: 0 <= i < |data| ==> data[i] == ByteOr0(s.remote, Start(p, s.ps) + i)
    ensures Cell(s, q, k) == Cell(WithPage(s, p, data, false), q, k)
  {
  }

  /** A clean page more or less owes nothing. */
  lemma AddedIsCovered(s: Store, p: nat, data: seq<Byte>, f: nat)
    requires Covered(s, f) && p !in s.pages
    ensures Covered(WithPage(s, p, data, false), f) && OnlyCleanDropped(s, WithPage(s, p, data, false))
  {
    var t := WithPage(s, p, data, false);
    forall q | DirtyAt(s, q) ensures DirtyAt(t, q) && t.pages[q] == s.pages[q] {}
  }

  /** The server file may be grown up to the file's size: readers already saw zeros there. */
  lemma GrowRemoteKeepsShape(s: Store, n: nat, x: int, size: nat)
    requires Shaped(s, n, x) && s.created && |s.remote| <= size <= n
    ensures Shaped(s.(remote := Resized(s.remote, size)), n, x)
    ensures SameCells(s, s.(remote := Resized(s.remote, size)))
  {
    var t := s.(remote := Resized(s.remote, size));
    forall i: nat ensures ByteOr0(t.remote, i) == ByteOr0(s.remote, i) {}
    forall p | p in t.pages && p != x ensures PageOk(t, n, p) { assert PageOk(s, n, p); }
  }

  // ---------------------------------------------------------------------------------------------
  // Writing into one page of a file that is to have n bytes afterwards

  /** Nothing but the written page can be the file's last one, if the file grows. */
  ghost predicate GrowsBy(s: Store, n: nat, index: nat) {
    n == s.fileSize || s.fileSize < n <= Start(index, s.ps) + s.ps
  }

  lemma OthersKeepFit(s: Store, n: nat, index: nat, p: nat)
    requires Shaped(s, s.fileSize, -1) && GrowsBy(s, n, index) && p in s.pages && p != index
    requires s.fileSize <= Start(index, s.ps) ==> |s.pages[p].data| == s.ps
    requires n == s.fileSize || p < index
    ensures PageOk(s, n, p)
  {
    assert PageOk(s, s.fileSize, p);
    StartOrder(p, index, s.ps);
  }

  lemma PagesUpToIndex(s: Store, n: nat, index: nat, p: nat)
    requires Shaped(s, s.fileSize, -1) && GrowsBy(s, n, index) && n != s.fileSize && p in s.pages && p != index
    ensures p < index
  {
    assert PageOk(s, s.fileSize, p);
    StartOrder(index, p, s.ps);
  }

  /** A cached page is brought to its new length first; the other pages already have theirs. */
  lemma ResizeForWrite(s: Store, n: nat, index: nat, f: nat)
    requires Shaped(s, s.fileSize, -1) && Covered(s, f) && GrowsBy(s, n, index) && index in s.pages
    ensures var t := WithPage(s, index, Resized(s.pages[index].data, Fit(n, s.ps, index)), s.pages[index].dirty);
            Shaped(t, n, index) && Covered(t, f) && SameCells(s, t)
  {
    var t := WithPage(s, index, Resized(s.pages[index].data, Fit(n, s.ps, index)), s.pages[index].dirty);
    assert PageOk(s, s.fileSize, index);
    forall p: nat, k: nat | k < s.ps ensures Cell(s, p, k) == Cell(t, p, k) {
      if p == index && k >= |t.pages[p].data| { ZeroPastEnd(s, s.fileSize, p, k); }
    }
    forall p | p in t.pages && p != index ensures PageOk(t, n, p) {
      if n != s.fileSize { PagesUpToIndex(s, n, index, p); StartOrder(p, index, s.ps); }
      OthersKeepFit(s, n, index, p);
    }
    forall p | DirtyAt(s, p) ensures DirtyAt(t, p) && |s.pages[p].data| <= |t.pages[p].data| {}
  }

  /** Before a page past the file's last one is added, that last page is filled up with zeros. */
  lemma ExtendLast(s: Store, n: nat, last: nat, f: nat)
    requires Shaped(s, s.fileSize, -1) && Covered(s, f) && last in s.pages
    requires s.fileSize <= Start(last, s.ps) + s.ps <= n
    ensures var t := WithPage(s, last, Resized(s.pages[last].data, s.ps), s.pages[last].dirty);
            Shaped(t, n, -1) && Covered(t, f) && SameCells(s, t)
  {
    var t := WithPage(s, last, Resized(s.pages[last].data, s.ps), s.pages[last].dirty);
    assert PageOk(s, s.fileSize, last);
    forall p: nat, k: nat | k < s.ps ensures Cell(s, p, k) == Cell(t, p, k) {}
    forall p | p in t.pages ensures PageOk(t, n, p) {
      ExtendedPageOk(s, n, last, p);
    }
    forall p | DirtyAt(s, p) ensures DirtyAt(t, p) && |s.pages[p].data| <= |t.pages[p].data| {}
  }

  lemma ExtendedLastOk(s: Store, n: nat, last: nat)
    requires Shaped(s, s.fileSize, -1) && last in s.pages && s.fileSize <= Start(last, s.ps) + s.ps <= n
    ensures PageOk(WithPage(s, last, Resized(s.pages[last].data, s.ps), s.pages[last].dirty), n, last)
  {
    hide Start;
    assert PageOk(s, s.fileSize, last);
  }

  lemma ExtendedPageOk(s: Store, n: nat, last: nat, p: nat)
    requires Shaped(s, s.fileSize, -1) && last in s.pages && p in s.pages && s.fileSize <= Start(last, s.ps) + s.ps <= n
    ensures PageOk(WithPage(s, last, Resized(s.pages[last].data, s.ps), s.pages[last].dirty), n, p)
  {
    if p == last {
      ExtendedLastOk(s, n, last);
    } else {
      hide Start, Mirrors, Resized;
      assert PageOk(s, s.fileSize, last) && PageOk(s, s.fileSize, p);
      StartOrder(p, last, s.ps);
      StartOrder(last, p, s.ps);
    }
  }

  /** Where the last page is not cached, or is full, nothing needs to be done before a page is added. */
  lemma ReadyForNewPage(s: Store, n: nat, index: nat)
    requires Shaped(s, s.fileSize, -1) && GrowsBy(s, n, index) && index !in s.pages
    requires forall p | p in s.pages :: Start(p, s.ps) + s.ps <= s.fileSize || Start(index, s.ps) < s.fileSize
    ensures Shaped(s, n, -1)
  {
    forall p | p in s.pages ensures PageOk(s, n, p) {
      assert PageOk(s, s.fileSize, p);
      if n != s.fileSize { PagesUpToIndex(s, n, index, p); StartOrder(p, index, s.ps); }
    }
  }

  /** The page to be written enters the cache clean, with its final length, and not yet with its final bytes. */
  lemma AddPageForWrite(s: Store, n: nat, index: nat, data: seq<Byte>, f: nat)
    requires Shaped(s, n, -1) && Covered(s, f) && index !in s.pages && Start(index, s.ps) < n
    requires |data| == Fit(n, s.ps, index)
    ensures var t := WithPage(s, index, data, false);
      && Shaped(t, n, index) && Covered(t, f) && OnlyCleanDropped(s, t)
      && (forall p: nat, k: nat :: k < s.ps && (p != index || k >= |data|) ==> Cell(s, p, k) == Cell(t, p, k))
  {
    hide Covered, Start;
    var t := WithPage(s, index, data, false);
    forall k: nat | |data| <= k < s.ps ensures Cell(s, index, k) == 0 { ZeroPastEnd(s, n, index, k); }
    OthersStayShaped(s, n, index, data);
    hide Shaped;
    AddedIsCovered(s, index, data, f);
  }

  lemma OthersStayShaped(s: Store, n: nat, index: nat, data: seq<Byte>)
    requires Shaped(s, n, -1) && index !in s.pages && Start(index, s.ps) < n && |data| == Fit(n, s.ps, index)
    ensures Shaped(WithPage(s, index, data, false), n, index)
  {
    hide Start;
    var t := WithPage(s, index, data, false);
    forall p | p in t.pages && p != index ensures PageOk(t, n, p) { assert PageOk(s, n, p); }
  }

  function Written(s: Store, n: nat, index: nat, off: nat, buf: seq<Byte>): Store
    requires index in s.pages && off + |buf| <= |s.pages[index].data|
  {
    WithPage(s, index, Copied(s.pages[index].data, off, buf), true).(fileSize := n)
  }

  lemma WrittenCell(s: Store, n: nat, index: nat, off: nat, buf: seq<Byte>, p: nat, k: nat)
    requires index in s.pages && off + |buf| <= |s.pages[index].data| <= s.ps && k < s.ps
    ensures Cell(Written(s, n, index, off, buf), p, k)
         == if p == index && off <= k < off + |buf| then buf[k - off] else Cell(s, p, k)
  {
  }

  /** The last step of a write: the file gets its new size, the page its bytes and its dirty mark. */
  lemma FinishWrite(s: Store, n: nat, index: nat, off: nat, buf: seq<Byte>)
    requires Shaped(s, n, index) && Covered(s, s.fileSize) && index in s.pages && off + |buf| <= |s.pages[index].data|
    requires n == Max(s.fileSize, Start(index, s.ps) + off + |buf|)
    ensures Consistent(Written(s, n, index, off, buf))
  {
    var t := Written(s, n, index, off, buf);
    forall p | p in t.pages ensures PageOk(t, n, p) { if p != index { assert PageOk(s, n, p); } }
    WrittenIsCovered(s, n, index, off, buf);
  }

  lemma WrittenIsCovered(s: Store, n: nat, index: nat, off: nat, buf: seq<Byte>)
    requires Covered(s, s.fileSize) && index in s.pages && off + |buf| <= |s.pages[index].data|
    requires n == Max(s.fileSize, Start(index, s.ps) + off + |buf|)
    ensures Covered(Written(s, n, index, off, buf), n)
  {
    var t := Written(s, n, index, off, buf);
    forall p | DirtyAt(s, p) ensures DirtyAt(t, p) && |t.pages[p].data| == |s.pages[p].data| {}
    assert DirtyAt(t, index);
  }

  // ---------------------------------------------------------------------------------------------
  // Files that are only written at their end

  /** Writing a page at or behind the server's end, with no gap before it, keeps the dirty pages in one run. */
  lemma WriteKeepsSequential(s: Store, t: Store, index: nat)
    requires Sequential(s) && s.ps > 0 && t.ps == s.ps && t.remote == s.remote
    requires |s.remote| <= Start(index, s.ps) <= s.fileSize <= t.fileSize && Start(index, s.ps) < t.fileSize
    requires s.fileSize < t.fileSize ==> t.fileSize <= Start(index, s.ps) + s.ps
    requires Aligned(s)
    requires forall p: nat :: DirtyAt(t, p) <==> DirtyAt(s, p) || p == index
    ensures Sequential(t)
  {
    forall p: nat ensures DirtyAt(t, p) <==> |t.remote| <= Start(p, t.ps) < t.fileSize {
      assert DirtyAt(s, p) <==> |s.remote| <= Start(p, s.ps) < s.fileSize;
      StartOrder(index, p, s.ps);
    }
  }

  /** The page that holds the last byte of a nonempty file. */
  lemma LastPage(n: nat, ps: nat) returns (last: nat)
    requires n > 0 && ps > 0
    ensures Start(last, ps) < n <= Start(last, ps) + ps
  {
    SplitOffset(n - 1, ps);
    last := (n - 1) / ps;
  }

  /** In such a file the bytes behind the server's end are always owed to a dirty page. */
  lemma SequentialIsCovered(s: Store)
    requires Sequential(s) && Shaped(s, s.fileSize, -1)
    ensures Covered(s, s.fileSize)
  {
    if |s.remote| < s.fileSize {
      var last := LastPage(s.fileSize, s.ps);
      var m: nat :| |s.remote| == Start(m, s.ps);
      StartOrder(last, m, s.ps);
      assert DirtyAt(s, last);
      assert PageOk(s, s.fileSize, last);
    }
  }

  /** In such a file the server always has exactly the beginning of what the client has. */
  lemma ServerHasPrefix(s: Store)
    requires Sequential(s) && Shaped(s, s.fileSize, -1)
    ensures s.remote == Contents(s)[..|s.remote|]
  {
    forall i | 0 <= i < |s.remote| ensures s.remote[i] == Contents(s)[i] {
      SplitOffset(i, s.ps);
      var p, k := i / s.ps, i % s.ps;
      ContentsAt(s, p, k);
      if p in s.pages {
        assert !DirtyAt(s, p);
        assert PageOk(s, s.fileSize, p);
        CleanPageCovers(s, p, k);
      }
    }
  }

  lemma CleanPageCovers(s: Store, p: nat, k: nat)
    requires p in s.pages && PageOk(s, s.fileSize, p) && !s.pages[p].dirty && k < s.ps
    requires Start(p, s.ps) + k < s.fileSize
    ensures k < |s.pages[p].data| && s.pages[p].data[k] == ByteOr0(s.remote, Start(p, s.ps) + k)
  {
  }

  lemma FlushedDirtyAt(s: Store, a: nat, m: nat, p: nat)
    requires Shaped(s, s.fileSize, -1) && Sequential(s) && DirtyRun(s, a, m) && m > 0 && Start(a, s.ps) == |s.remote|
    ensures DirtyAt(Flushed(s, a, m), p) <==> |Flushed(s, a, m).remote| <= Start(p, s.ps) < s.fileSize
  {
    hide Shaped, Overlay, Stream;
    var last := a + m - 1;
    FlushedSize(s, s.fileSize, -1, a, m);
    DirtyPageFits(s, s.fileSize, -1, last);
    assert DirtyAt(s, p) <==> |s.remote| <= Start(p, s.ps) < s.fileSize;
    StartOrder(p, a, s.ps);
    StartOrder(last, p, s.ps);
    StartOrder(p, last, s.ps);
  }

  lemma FlushedEnd(s: Store, a: nat, m: nat)
    requires Shaped(s, s.fileSize, -1) && DirtyRun(s, a, m) && m > 0 && Start(a, s.ps) == |s.remote|
    ensures |Flushed(s, a, m).remote| == s.fileSize || |Flushed(s, a, m).remote| == Start(a + m, s.ps)
  {
    FlushedSize(s, s.fileSize, -1, a, m);
    DirtyPageFits(s, s.fileSize, -1, a + m - 1);
    StartOrder(a, a + m - 1, s.ps);
  }

  /** The run that starts at the server's end may be written back, and leaves the rest in one run at the new end. */
  lemma FlushKeepsSequential(s: Store, a: nat, m: nat)
    requires Shaped(s, s.fileSize, -1) && Sequential(s) && DirtyRun(s, a, m) && m > 0 && Start(a, s.ps) == |s.remote|
    ensures Sequential(Flushed(s, a, m))
  {
    hide Shaped, Stream, Overlay;
    var t := Flushed(s, a, m);
    forall p: nat ensures DirtyAt(t, p) <==> |t.remote| <= Start(p, t.ps) < t.fileSize { FlushedDirtyAt(s, a, m, p); }
    FlushedEnd(s, a, m);
  }

  /** The first dirty page lies exactly at the server's end. */
  lemma FirstDirtyIsAtEnd(s: Store, a: nat)
    requires s.ps > 0 && Sequential(s) && DirtyAt(s, a) && forall p: nat | DirtyAt(s, p) :: a <= p
    ensures Start(a, s.ps) == |s.remote|
  {
    var m: nat :| |s.remote| == Start(m, s.ps);
    StartOrder(a, m, s.ps);
    StartOrder(m, a, s.ps);
    assert DirtyAt(s, m);
  }

  // ---------------------------------------------------------------------------------------------
  // Truncation

  /** The page map half way through a truncation to n bytes: pages before i are done. */
  function Cut(s: Store, n: nat, i: nat): map<nat, Page> {
    map p | p in s.pages && (Start(p, s.ps) < n || i <= p) ::
      if i <= p then s.pages[p] else Page(Resized(s.pages[p].data, Max(0, Fit(n, s.ps, p))), s.pages[p].dirty)
  }

  /** The state after a truncation to n bytes (bound is past all pages). */
  function Truncated(s: Store, n: nat, bound: nat): Store {
    Store(s.ps, Cut(s, n, bound), n, if s.created then Resized(s.remote, n) else s.remote, s.created)
  }

  /** Truncation cuts or zero-extends the flat file, and keeps the shape. */
  lemma TruncateKeepsShape(s: Store, n: nat, bound: nat)
    requires Consistent(s) && forall p | p in s.pages :: p < bound
    ensures Consistent(Truncated(s, n, bound))
    ensures forall p: nat, k: nat | k < s.ps :: TruncatedCell(s, n, bound, p, k)
  {
    var t := Truncated(s, n, bound);
    forall p: nat, k: nat | k < s.ps ensures TruncatedCell(s, n, bound, p, k) {
      TruncatedAt(s, n, bound, p, k);
    }
    forall p | p in t.pages ensures PageOk(t, n, p) {
      assert PageOk(s, s.fileSize, p);
    }
  }

  lemma TruncatedAt(s: Store, n: nat, bound: nat, p: nat, k: nat)
    requires Consistent(s) && (forall q | q in s.pages :: q < bound) && k < s.ps
    ensures TruncatedCell(s, n, bound, p, k)
  {
    if Start(p, s.ps) + k >= s.fileSize { ZeroPastEnd(s, s.fileSize, p, k); }
    if p in s.pages { assert PageOk(s, s.fileSize, p); }
  }

  ghost predicate TruncatedCell(s: Store, n: nat, bound: nat, p: nat, k: nat) {
    Cell(Truncated(s, n, bound), p, k) == if Start(p, s.ps) + k < n then Cell(s, p, k) else 0
  }

  // ---------------------------------------------------------------------------------------------
  // What a complete flush achieves

  /** With no dirty page left, the server's file is the client's file, byte for byte. */
  lemma CleanIsSynced(s: Store)
    requires Consistent(s) && s.created && forall p: nat :: !DirtyAt(s, p)
    ensures s.remote == Contents(s)
  {
    assert |s.remote| == s.fileSize;
    forall i | 0 <= i < s.fileSize ensures s.remote[i] == Contents(s)[i] {
      SplitOffset(i, s.ps);
      var p, k := i / s.ps, i % s.ps;
      ContentsAt(s, p, k);
      if p in s.pages {
        assert !DirtyAt(s, p);
        assert PageOk(s, s.fileSize, p);
      }
    }
  }

  // ---------------------------------------------------------------------------------------------
  // Changes of the server's file from outside

  /** m is the byte after the last dirty byte, 0 if nothing is dirty. */
  ghost predicate LastDirtyEnd(s: Store, m: nat) {
    && (forall p | DirtyAt(s, p) :: Start(p, s.ps) + |s.pages[p].data| <= m)
    && (m == 0 || exists p :: DirtyAt(s, p) && m == Start(p, s.ps) + |s.pages[p].data|)
  }

  function DirtyPages(pages: map<nat, Page>): map<nat, Page> { map p | p in pages && pages[p].dirty :: pages[p] }

  /** The client's state after it was told that the server now holds these bytes: only dirty pages are kept. */
  function AfterRemoteChange(s: Store, remote: seq<Byte>, maxDirty: nat): Store {
    Store(s.ps, DirtyPages(s.pages), Max(|remote|, maxDirty), remote, true)
  }

  /**
   * The shape survives a change from outside exactly if the server's file does not end behind a short dirty page: such
   * a page is not extended to its new length.
   */
  lemma RemoteChangeKeepsShapeIff(s: Store, remote: seq<Byte>, maxDirty: nat)
    requires Shaped(s, s.fileSize, -1) && LastDirtyEnd(s, maxDirty)
    ensures var t := AfterRemoteChange(s, remote, maxDirty);
      Shaped(t, t.fileSize, -1) <==>
        forall p: nat | DirtyAt(s, p) ::
          |s.pages[p].data| == s.ps || |remote| <= Start(p, s.ps) + |s.pages[p].data|
  {
    var t := AfterRemoteChange(s, remote, maxDirty);
    forall p: nat | DirtyAt(s, p)
      ensures PageOk(t, t.fileSize, p) <==> |s.pages[p].data| == s.ps || |remote| <= Start(p, s.ps) + |s.pages[p].data|
    {
      DirtyPageFits(s, s.fileSize, -1, p);
      if |s.pages[p].data| < s.ps { ShortDirtyIsLast(s, maxDirty, p); }
    }
    assert forall p | p in t.pages :: DirtyAt(s, p);
    if Shaped(t, t.fileSize, -1) {
      forall p: nat | DirtyAt(s, p) ensures PageOk(t, t.fileSize, p) { assert p in t.pages; }
    }
  }

  lemma ShortDirtyIsLast(s: Store, maxDirty: nat, p: nat)
    requires Shaped(s, s.fileSize, -1) && LastDirtyEnd(s, maxDirty) && DirtyAt(s, p) && |s.pages[p].data| < s.ps
    ensures maxDirty == Start(p, s.ps) + |s.pages[p].data|
  {
    DirtyPageFits(s, s.fileSize, -1, p);
    var q :| DirtyAt(s, q) && maxDirty == Start(q, s.ps) + |s.pages[q].data|;
    DirtyPageFits(s, s.fileSize, -1, q);
  }

  /**
   * Three dirty bytes in a page of eight, and a server file that is found to have five: the page stays three bytes
   * long.
   */
  lemma RemoteChangeBreaksShape()
    ensures exists s: Store, remote: seq<Byte> ::
      Consistent(s) && LastDirtyEnd(s, s.fileSize) && !Consistent(AfterRemoteChange(s, remote, s.fileSize))
  {
    var s := Store(8, map[0 := Page([1, 2, 3], true)], 3, [], true);
    var remote: seq<Byte> := [7, 7, 7, 7, 7];
    assert DirtyAt(s, 0);
    assert !PageOk(AfterRemoteChange(s, remote, 3), 5, 0);
    assert Consistent(s) && LastDirtyEnd(s, 3) && !Consistent(AfterRemoteChange(s, remote, 3));
  }
}
