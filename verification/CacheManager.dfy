/**
 * The memory manager of all cached pages: the least-recently-used queues, their totals, and the choice of the pages to
 * evict or flush. How threads wait for it is in CacheWaits. Models CacheManager.
 */
module CacheManagers {
  import opened Bytes
  import opened OrderedMaps

  /** The file a page belongs to, its index there, and how much memory it was last known to use. */
  datatype Info = Info(mgr: nat, index: nat, size: nat)

  /** Pages, named by address, most recently used first. */
  type Queue = seq<(nat, Info)>

  function Sum(queue: Queue): nat { if queue == [] then 0 else queue[0].1.size + Sum(queue[1..]) }

  function SizeOf(queue: Queue, page: nat): nat {
    if queue == [] then 0 else if queue[0].0 == page then queue[0].1.size else SizeOf(queue[1..], page)
  }

  /** The queue with one page's size changed; every page keeps its place. */
  function WithSize(queue: Queue, page: nat, size: nat): Queue {
    seq(|queue|, i requires 0 <= i < |queue| =>
      if queue[i].0 == page then (page, queue[i].1.(size := size)) else queue[i])
  }

  lemma {:induction false} SumConcat(a: Queue, b: Queue)
    ensures Sum(a + b) == Sum(a) + Sum(b)
  {
    if a == [] {
      assert a + b == b;
    } else {
      SumConcat(a[1..], b);
      assert (a + b)[1..] == a[1..] + b;
    }
  }

  lemma {:induction false} SumAround(queue: Queue, i: nat)
    requires i < |queue|
    ensures Sum(queue) == Sum(queue[..i]) + queue[i].1.size + Sum(queue[i + 1..])
    ensures Sum(queue[..i] + queue[i + 1..]) == Sum(queue) - queue[i].1.size
  {
    assert queue == queue[..i] + queue[i..] && queue[i..][1..] == queue[i + 1..];
    SumConcat(queue[..i], queue[i..]);
    SumConcat(queue[..i], queue[i + 1..]);
  }

  lemma {:induction false} SizeAt(queue: Queue, i: nat)
    requires Distinct(queue) && i < |queue|
    ensures SizeOf(queue, queue[i].0) == queue[i].1.size
  {
    if i > 0 {
      SizeAt(queue[1..], i - 1);
    }
  }

  lemma {:induction false} SizeAbsent(queue: Queue, page: nat)
    requires !Has(queue, page)
    ensures SizeOf(queue, page) == 0
  {
    if queue != [] {
      assert queue[0].0 != page;
      forall i | 0 <= i < |queue[1..]| ensures queue[1..][i].0 != page {
        assert queue[i + 1].0 != page;
      }
      SizeAbsent(queue[1..], page);
    }
  }

  lemma {:induction false} SumErased(queue: Queue, page: nat)
    requires Distinct(queue)
    ensures Sum(Erased(queue, page)) == Sum(queue) - SizeOf(queue, page)
  {
    if Has(queue, page) {
      var i :| 0 <= i < |queue| && queue[i].0 == page;
      ErasedAt(queue, i);
      SizeAt(queue, i);
      SumAround(queue, i);
    } else {
      ErasedAbsent(queue, page);
      SizeAbsent(queue, page);
    }
  }

  lemma {:induction false} WithSizeKeeps(queue: Queue, page: nat, size: nat)
    requires Distinct(queue)
    ensures !Has(queue, page) ==> WithSize(queue, page, size) == queue
    ensures forall p :: p in WithSize(queue, page, size) && p.0 == page ==> p.1.size == size
    ensures Distinct(WithSize(queue, page, size)) && (Has(WithSize(queue, page, size), page) <==> Has(queue, page))
    ensures Sum(WithSize(queue, page, size)) == Sum(queue) - SizeOf(queue, page) + if Has(queue, page) then size else 0
  {
    var queue' := WithSize(queue, page, size);
    if Has(queue, page) {
      var i :| 0 <= i < |queue| && queue[i].0 == page;
      SizeAt(queue, i);
      SumAround(queue, i);
      assert queue'[i].0 == page;
      SumAround(queue', i);
      forall j | 0 <= j < |queue| && j != i ensures queue'[j] == queue[j] {
        assert queue[j].0 != page;
      }
      assert queue'[..i] == queue[..i] && queue'[i + 1..] == queue[i + 1..];
    } else {
      forall j | 0 <= j < |queue| ensures queue'[j] == queue[j] {
        assert queue[j].0 != page;
      }
      assert queue' == queue;
      SizeAbsent(queue, page);
    }
  }

  // ---------------------------------------------------------------------------------------------
  // The choice of pages to clean

  /**
   * What comes before n fits the target, and no longer prefix does: cleaning the pages from n on is the shortest
   * least-recently-used stretch that frees enough.
   */
  ghost predicate IsCutoff(queue: Queue, target: int, n: nat) {
    n <= |queue| && Sum(queue[..n]) <= target && (n < |queue| ==> Sum(queue[..n + 1]) > target)
  }

  lemma {:induction false} SumGrows(queue: Queue, m: nat, n: nat)
    requires m <= n <= |queue|
    ensures Sum(queue[..m]) <= Sum(queue[..n])
  {
    SumConcat(queue[..m], queue[m..n]);
    assert queue[..n] == queue[..m] + queue[m..n];
  }

  /** A prefix is too big exactly if it is longer than the cutoff. */
  lemma {:induction false} CutoffDecides(queue: Queue, target: int, n: nat, m: nat)
    requires IsCutoff(queue, target, n) && m <= |queue|
    ensures Sum(queue[..m]) > target <==> m > n
  {
    if m > n { SumGrows(queue, n + 1, m); } else { SumGrows(queue, m, n); }
  }

  lemma {:induction false} SumParts(queue: Queue, m: nat)
    requires m <= |queue|
    ensures Sum(queue) == Sum(queue[..m]) + Sum(queue[m..])
  {
    assert queue == queue[..m] + queue[m..];
    SumConcat(queue[..m], queue[m..]);
  }

  /** There is one, unless not even an empty cache would be small enough. */
  lemma {:induction false} CutoffExists(queue: Queue, target: nat) returns (n: nat)
    ensures IsCutoff(queue, target, n)
    decreases |queue|
  {
    if Sum(queue) <= target {
      n := |queue|;
      assert queue[..n] == queue;
    } else {
      var front := queue[..|queue| - 1];
      n := CutoffExists(front, target);
      assert front[..n] == queue[..n];
      if n < |front| {
        assert front[..n + 1] == queue[..n + 1];
      } else {
        assert queue[..n + 1] == queue;
      }
    }
  }

  function ErasedAll(queue: Queue, pages: seq<nat>): Queue
    decreases |pages|
  {
    if pages == [] then queue else Erased(ErasedAll(queue, pages[..|pages| - 1]), pages[|pages| - 1])
  }

  lemma {:induction false} ErasedAllNext(queue: Queue, pages: seq<nat>, page: nat)
    ensures ErasedAll(queue, []) == queue
    ensures ErasedAll(queue, pages + [page]) == Erased(ErasedAll(queue, pages), page)
  {
    assert (pages + [page])[..|pages|] == pages;
  }

  /** All files but perhaps that of the last page reached are still in use. */
  ghost predicate Granted(queue: Queue, n: nat, locked: set<nat>) {
    forall i :: n < i < |queue| ==> queue[i].1.mgr in locked
  }

  /** And if even the first page of the list has to go, its file is in use too: nothing lies before it to step to. */
  ghost predicate InScope(queue: Queue, n: nat, locked: set<nat>) {
    Granted(queue, n, locked) && (n == 0 && queue != [] ==> queue[0].1.mgr in locked)
  }

  /** The files of all pages from n on are in use. */
  ghost predicate InUse(queue: Queue, n: nat, locked: set<nat>) {
    forall i :: n <= i < |queue| ==> queue[i].1.mgr in locked
  }

  /** Every page from n on is chosen, or was taken off the list because its file is going away. */
  ghost predicate AllReached(queue: Queue, n: nat, selected: Queue, rest: Queue) {
    forall i :: n <= i < |queue| ==> queue[i] in selected || queue[i] !in rest
  }

  /** The pages from n on, from the back. */
  function Backwards(queue: Queue, n: nat): Queue
    requires n <= |queue|
  {
    seq(|queue| - n, k requires 0 <= k < |queue| - n => queue[|queue| - 1 - k])
  }

  /** What the loop has done so far: taken pages from the back, each of a file that is in use. */
  ghost predicate OnTrack(queue: Queue, rest: Queue, selected: Queue, removed: seq<nat>, base: int, n: nat,
                          locked: set<nat>) {
    && rest == queue && removed == [] && n <= base <= |queue| && selected == Backwards(queue, base)
    && forall i :: base <= i < |queue| ==> queue[i].1.mgr in locked
  }

  /** The last page of all was of a file that is going away, and its removal has freed enough. */
  ghost predicate Ended(queue: Queue, selected: Queue, removed: seq<nat>, n: nat, locked: set<nat>) {
    && n < |queue| && queue[n].1.mgr !in locked && Granted(queue, n, locked)
    && removed == [queue[n].0] && selected == Backwards(queue, n + 1)
  }

  /** A page that should be cleaned has been passed over: it is still in the list, behind the iterator. */
  ghost predicate PassedOver(queue: Queue, rest: Queue, selected: Queue, base: int, n: nat, locked: set<nat>,
                             page: nat) {
    && !Granted(queue, n, locked) && n <= page < |queue| && queue[page] !in selected
    && exists p: nat :: base <= p < |rest| && rest[p] == queue[page]
  }

  lemma TakeOnTrack(queue: Queue, selected: Queue, base: int, n: nat, locked: set<nat>)
    requires OnTrack(queue, queue, selected, [], base, n, locked) && base > n && queue[base - 1].1.mgr in locked
    ensures OnTrack(queue, queue, selected + [queue[base - 1]], [], base - 1, n, locked)
  {
    var k := |queue| - base;
    assert Backwards(queue, base - 1) == Backwards(queue, base) + [queue[base - 1]];
  }

  lemma RemoveOnTrack(queue: Queue, selected: Queue, base: int, n: nat, locked: set<nat>)
    requires Distinct(queue) && OnTrack(queue, queue, selected, [], base, n, locked) && base > n
    requires queue[base - 1].1.mgr !in locked
    ensures base == n + 1 ==> Ended(queue, selected, [queue[n].0], n, locked)
    ensures base > n + 1 ==>
              PassedOver(queue, Erased(queue, queue[base - 1].0), selected, base - 2, n, locked, base - 2)
  {
    if base > n + 1 {
      assert !Granted(queue, n, locked);
      ErasedAt(queue, base - 1);
      assert Erased(queue, queue[base - 1].0)[base - 2] == queue[base - 2];
      forall k | 0 <= k < |selected| ensures selected[k] != queue[base - 2] {
        assert selected[k] == queue[|queue| - 1 - k] && queue[|queue| - 1 - k].0 != queue[base - 2].0;
      }
    }
  }

  lemma TakePassedOver(queue: Queue, rest: Queue, selected: Queue, base: int, n: nat, locked: set<nat>, page: nat)
    requires Distinct(rest) && PassedOver(queue, rest, selected, base, n, locked, page) && 0 < base
    ensures base <= |rest| && PassedOver(queue, rest, selected + [rest[base - 1]], base - 1, n, locked, page)
  {
    var p: nat :| base <= p < |rest| && rest[p] == queue[page];
    assert rest[base - 1].0 != rest[p].0;
  }

  lemma RemovePassedOver(queue: Queue, rest: Queue, selected: Queue, base: int, n: nat, locked: set<nat>, page: nat)
    requires Distinct(rest) && PassedOver(queue, rest, selected, base, n, locked, page) && 0 < base
    ensures base <= |rest| && PassedOver(queue, Erased(rest, rest[base - 1].0), selected, base - 2, n, locked, page)
  {
    hide Granted, Distinct, Erased;
    var p: nat :| base <= p < |rest| && rest[p] == queue[page];
    StepsBack(rest, base - 1, p);
  }

  lemma StepsBack(rest: Queue, b: nat, p: nat)
    requires Distinct(rest) && b < p < |rest|
    ensures |Erased(rest, rest[b].0)| == |rest| - 1 && Erased(rest, rest[b].0)[p - 1] == rest[p]
  {
    ErasedAt(rest, b);
    var front, back := rest[..b], rest[b + 1..];
    assert (front + back)[p - 1] == back[p - 1 - b];
  }

  function SumTo(queue: Queue, base: int): nat {
    if 0 <= base <= |queue| then Sum(queue[..base]) else 0
  }

  lemma {:induction false} StartOnTrack(queue: Queue, target: int, n: nat, locked: set<nat>)
    requires IsCutoff(queue, target, n)
    ensures n <= |queue| && SumTo(queue, |queue|) == Sum(queue)
    ensures OnTrack(queue, queue, [], [], |queue|, n, locked)
  {
    assert queue[..|queue|] == queue;
  }

  /** While too much memory is in use, there is a page before the iterator, and it has to be cleaned. */
  lemma StillOver(queue: Queue, rest: Queue, selected: Queue, removed: seq<nat>, base: int, n: nat, locked: set<nat>,
                  target: int)
    requires OnTrack(queue, rest, selected, removed, base, n, locked) && IsCutoff(queue, target, n)
    requires SumTo(queue, base) > target
    ensures n < base <= |queue| && rest == queue && removed == []
    ensures SumTo(queue, base - 1) == SumTo(queue, base) - queue[base - 1].1.size
    ensures base == n + 1 ==> SumTo(queue, base - 1) <= target
  {
    CutoffDecides(queue, target, n, base);
    SumParts(queue[..base], base - 1);
    assert queue[..base][..base - 1] == queue[..base - 1];
    assert queue[..base][base - 1..] == [queue[base - 1]];
  }

  lemma NoLongerOver(queue: Queue, rest: Queue, selected: Queue, removed: seq<nat>, base: int, n: nat, locked: set<nat>,
                     target: int)
    requires OnTrack(queue, rest, selected, removed, base, n, locked) && IsCutoff(queue, target, n)
    requires SumTo(queue, base) <= target
    ensures Granted(queue, n, locked) && removed == [] && selected == Backwards(queue, n) && base >= 0
    ensures n < |queue| ==> queue[n].1.mgr in locked
    ensures InScope(queue, n, locked) && InUse(queue, n, locked)
    ensures AllReached(queue, n, selected, ErasedAll(queue, removed))
  {
    CutoffDecides(queue, target, n, base);
    forall i | n <= i < |queue| ensures queue[i] in selected {
      assert selected[|queue| - 1 - i] == queue[i];
    }
  }

  lemma {:induction false} EndedIsGranted(queue: Queue, selected: Queue, removed: seq<nat>, n: nat, locked: set<nat>)
    requires Ended(queue, selected, removed, n, locked) && Distinct(queue)
    ensures Granted(queue, n, locked) && n < |queue| && queue[n].1.mgr !in locked
    ensures removed == [queue[n].0] && selected == Backwards(queue, n + 1)
    ensures (InScope(queue, n, locked) <==> n > 0) && !InUse(queue, n, locked)
    ensures AllReached(queue, n, selected, ErasedAll(queue, removed))
  {
    forall i | n < i < |queue| ensures queue[i] in selected {
      assert selected[|queue| - 1 - i] == queue[i];
    }
    ErasedAllNext(queue, [], queue[n].0);
    assert [] + [queue[n].0] == removed;
    ErasedKeeps(queue, queue[n].0);
  }

  lemma PassedOverRemains(queue: Queue, rest: Queue, selected: Queue, base: int, n: nat, locked: set<nat>, page: nat)
    requires PassedOver(queue, rest, selected, base, n, locked, page)
    ensures base <= |rest| && !Granted(queue, n, locked)
    ensures exists i :: n <= i < |queue| && queue[i] !in selected && queue[i] in rest
  {
    assert queue[page] in rest;
  }

  lemma PassedOverIsNotRight(queue: Queue, rest: Queue, selected: Queue, base: int, n: nat, locked: set<nat>, page: nat)
    requires PassedOver(queue, rest, selected, base, n, locked, page)
    ensures !InScope(queue, n, locked) && !Granted(queue, n, locked) && !AllReached(queue, n, selected, rest)
    ensures !InUse(queue, n, locked)
  {
    PassedOverRemains(queue, rest, selected, base, n, locked, page);
  }

  /** The pages chosen so far are distinct, and still in the list behind the iterator. */
  ghost predicate Behind(rest: Queue, selected: Queue, base: int) {
    base <= |rest| && Distinct(selected) && forall e :: e in selected ==> StandsBehind(rest, base, e)
  }

  ghost predicate StandsBehind(rest: Queue, base: int,
                               e: (nat, Info)) { exists p: nat :: base <= p < |rest| && rest[p] == e }

  lemma NothingBehind(queue: Queue)
    ensures Behind(queue, [], |queue|)
  {
  }

  lemma BehindIsChosen(rest: Queue, selected: Queue, base: int)
    requires Behind(rest, selected, base)
    ensures base <= |rest| && Distinct(selected) && forall e :: e in selected ==> e in rest
  {
    forall e | e in selected ensures e in rest {
      assert StandsBehind(rest, base, e);
    }
  }

  lemma BehindTaken(rest: Queue, selected: Queue, base: int)
    requires Behind(rest, selected, base) && Distinct(rest) && base > 0
    ensures Behind(rest, selected + [rest[base - 1]], base - 1)
  {
    var e := rest[base - 1];
    forall d | d in selected ensures d.0 != e.0 && StandsBehind(rest, base - 1, d) {
      assert StandsBehind(rest, base, d);
      var p: nat :| base <= p < |rest| && rest[p] == d;
    }
    assert StandsBehind(rest, base - 1, e) by { assert rest[base - 1] == e; }
  }

  lemma BehindRemoved(rest: Queue, selected: Queue, base: int)
    requires Behind(rest, selected, base) && Distinct(rest) && base > 0
    ensures Behind(Erased(rest, rest[base - 1].0), selected, base - 2)
  {
    var rest' := Erased(rest, rest[base - 1].0);
    ErasedAt(rest, base - 1);
    forall d | d in selected ensures StandsBehind(rest', base - 2, d) {
      assert StandsBehind(rest, base, d);
      var p: nat :| base <= p < |rest| && rest[p] == d;
      StepsBack(rest, base - 1, p);
      assert rest'[p - 1] == d;
    }
  }

  /**
   * Two pages of a file that is going away, with more memory in use than one of them: out of scope, whatever is done
   * for the limit. With the file in use all is well.
   */
  lemma GoingAwayIsOutOfScope()
    ensures var queue: Queue := [(1, Info(7, 0, 10)), (2, Info(7, 1, 10))];
      && Distinct(queue) && IsCutoff(queue, 5, 0) && !InScope(queue, 0, {}) && InScope(queue, 0, {7})
      && IsCutoff(queue, 10, 1) && InScope(queue, 1, {})
  {
    var queue: Queue := [(1, Info(7, 0, 10)), (2, Info(7, 1, 10))];
    assert queue[..0] == [] && queue[..1] == [queue[0]] && queue[..2] == queue;
    assert Sum(queue) == 20 by { assert queue[1..] == [queue[1]] && queue[1..][1..] == []; }
    var first: Queue := [queue[0]];
    assert first[1..] == [] && Sum(first) == 10;
    assert !Granted(queue, 0, {}) by { assert queue[1].1.mgr !in {}; }
  }

  /**
   * A single page that is the first of the list: its removal frees enough, but the iterator then stands before the
   * list.
   */
  lemma FirstPageIsOutOfScope()
    ensures var queue: Queue := [(1, Info(7, 0, 10))];
      Distinct(queue) && IsCutoff(queue, 0, 0) && Granted(queue, 0, {}) && !InScope(queue, 0, {})
  {
    var queue: Queue := [(1, Info(7, 0, 10))];
    assert queue[..1] == queue && queue[1..] == [];
  }

  /**
   * Even where the choice is right a file that is going away may be among those looked at, and its lock is then taken.
   * Here it is that of the last page, whose removal alone frees enough.
   */
  method LooksAtFileGoingAway() returns (selected: Queue, removed: seq<nat>, files: set<nat>, inBounds: bool)
    ensures var queue: Queue := [(1, Info(8, 0, 10)), (2, Info(7, 0, 10))];
      && IsCutoff(queue, 10, 1) && InScope(queue, 1, {8}) && !InUse(queue, 1, {8})
      && inBounds && removed == [2] && selected == [] && !(files <= {8})
  {
    hide AllReached, ErasedAll;
    var queue: Queue := [(1, Info(8, 0, 10)), (2, Info(7, 0, 10))];
    assert queue[..1] == [queue[0]] && queue[..2] == queue;
    assert Sum(queue[..1]) == 10 by { assert queue[..1][1..] == []; }
    assert Sum(queue) == 20 by { assert queue[1..] == [queue[1]] && queue[1..][1..] == []; }
    assert queue[1].1.mgr !in {8};
    selected, removed, files, inBounds := Select(queue, 0, 10, {8}, 1);
    assert queue[1].0 == 2;
  }

  /**
   * The loop that both cleanup threads use to choose pages, least recently used first; locked are the files that can be
   * kept from going away. The iterator stands on the page before base; when a page is taken off the list under it, the
   * step that follows passes over the next page, or steps in front of the first one. So the choice is right exactly if
   * no file is going away but perhaps that of the last page reached, and not that one either if the page is the first
   * of the list: otherwise a page is passed over, or the iterator runs off the front of the list. All files of the
   * pages it stood on are listed, also those that are going away.
   */
  method Select(queue: Queue, margin: nat, limit: nat, locked: set<nat>, ghost n: nat)
    returns (selected: Queue, removed: seq<nat>, files: set<nat>, inBounds: bool)
    requires Distinct(queue) && IsCutoff(queue, limit - margin, n)
    ensures files <= locked <==> InUse(queue, n, locked)
    ensures forall e :: e in selected ==> e.1.mgr in files && e.1.mgr in locked
    ensures InScope(queue, n, locked) <==> inBounds && AllReached(queue, n, selected, ErasedAll(queue, removed))
    ensures Granted(queue, n, locked) ==> (inBounds <==> InScope(queue, n, locked))
    ensures Distinct(selected) && Distinct(ErasedAll(queue, removed))
    ensures forall e :: e in selected ==> e in ErasedAll(queue, removed)
    ensures Granted(queue, n, locked) && (n == |queue| || queue[n].1.mgr in locked) ==>
              removed == [] && selected == Backwards(queue, n)
    ensures Granted(queue, n, locked) && n < |queue| && queue[n].1.mgr !in locked ==>
              removed == [queue[n].0] && selected == Backwards(queue, n + 1)
  {
    hide Behind, InScope, InUse, AllReached, Distinct, Erased, ErasedAll, Sum, PassedOver;
    hide OnTrack, Ended, Granted, IsCutoff, SumTo, Backwards;
    var rest, total, cleaned, base: int := queue, Sum(queue), 0, |queue|;
    ghost var passed: Option<nat>, held := None, true;
    selected, removed, files := [], [], {};
    ErasedAllNext(queue, [], 0);
    NothingBehind(queue);
    StartOnTrack(queue, limit - margin, n, locked);
    while total + margin > limit + cleaned
      invariant rest == ErasedAll(queue, removed) && Distinct(rest)
      invariant passed.Some? ==> !held
      invariant || passed.Some?
                || (held && OnTrack(queue, rest, selected, removed, base, n, locked)
                    && total == cleaned + SumTo(queue, base))
                || (!held && Ended(queue, selected, removed, n, locked)
                    && total + margin <= limit + cleaned && base == n - 1)
      invariant held <==> files <= locked
      invariant forall e :: e in selected ==> e.1.mgr in files && e.1.mgr in locked
      invariant Behind(rest, selected, base)
      invariant passed.Some? ==> PassedOver(queue, rest, selected, base, n, locked, passed.value)
      decreases base
    {
      if passed.None? {
        StillOver(queue, rest, selected, removed, base, n, locked, limit - margin);
      } else {
        PassedOverRemains(queue, rest, selected, base, n, locked, passed.value);
      }
      BehindIsChosen(rest, selected, base);
      if base <= 0 {
        PassedOverIsNotRight(queue, rest, selected, base, n, locked, passed.value);
        return selected, removed, files, false;
      }
      var e := rest[base - 1];
      files := files + {e.1.mgr};
      held := held && e.1.mgr in locked;
      if e.1.mgr !in locked {
        if passed.Some? {
          RemovePassedOver(queue, rest, selected, base, n, locked, passed.value);
        } else {
          RemoveOnTrack(queue, selected, base, n, locked);
          passed := if base > n + 1 then Some(base - 2) else None;
        }
        BehindRemoved(rest, selected, base);
        ErasedKeeps(rest, e.0);
        ErasedAllNext(queue, removed, e.0);
        assert [] + [e.0] == [e.0];
        rest := Erased(rest, e.0);
        removed := removed + [e.0];
        total := total - e.1.size;
        base := base - 2;
      } else {
        if passed.Some? {
          TakePassedOver(queue, rest, selected, base, n, locked, passed.value);
        } else {
          TakeOnTrack(queue, selected, base, n, locked);
        }
        BehindTaken(rest, selected, base);
        selected := selected + [e];
        cleaned := cleaned + e.1.size;
        base := base - 1;
      }
    }
    if passed.Some? {
      PassedOverIsNotRight(queue, rest, selected, base, n, locked, passed.value);
    } else if held {
      NoLongerOver(queue, rest, selected, removed, base, n, locked, limit - margin);
    } else {
      EndedIsGranted(queue, selected, removed, n, locked);
    }
    BehindIsChosen(rest, selected, base);
    inBounds := base >= 0;
  }

  // ---------------------------------------------------------------------------------------------
  // The manager

  lemma {:induction false} SumSubset(a: Queue, b: Queue)
    requires Distinct(a) && Distinct(b) && forall e :: e in a ==> e in b
    ensures Sum(a) <= Sum(b) && |a| <= |b|
  {
    if a != [] {
      assert a[0] in b;
      var i :| 0 <= i < |b| && b[i] == a[0];
      SumAround(b, i);
      CutKeeps(b, i);
      forall e | e in a[1..] ensures e in b[..i] + b[i + 1..] {
        var k :| 0 <= k < |a[1..]| && a[1..][k] == e;
        assert a[k + 1].0 != a[0].0;
      }
      SumSubset(a[1..], b[..i] + b[i + 1..]);
    }
  }

  predicate Matches(p: (nat, Info), e: (nat, Info), resizing: Option<nat>) {
    p.0 == e.0 && p.1.mgr == e.1.mgr && p.1.index == e.1.index && (resizing == Some(e.0) || p.1.size == e.1.size)
  }

  ghost predicate Tracked(pages: Queue, e: (nat, Info), resizing: Option<nat>) {
    exists p :: p in pages && Matches(p, e, resizing)
  }

  /** Every dirty page is tracked, with the same size but for the page that is just being resized. */
  ghost predicate DirtyTracked(pages: Queue, dirty: Queue, resizing: Option<nat>) {
    forall e :: e in dirty ==> Tracked(pages, e, resizing)
  }

  lemma {:induction false} ErasedTracked(pages: Queue, dirty: Queue, resizing: Option<nat>, page: nat)
    requires Distinct(pages) && Distinct(dirty) && DirtyTracked(pages, dirty, resizing)
    ensures DirtyTracked(pages, Erased(dirty, page), resizing)
    ensures DirtyTracked(Erased(pages, page), Erased(dirty, page), resizing)
  {
    ErasedKeeps(pages, page);
    ErasedKeeps(dirty, page);
    forall e | e in Erased(dirty, page)
      ensures Tracked(pages, e, resizing) && Tracked(Erased(pages, page), e, resizing)
    {
      assert e in dirty && e.0 != page;
      var p :| p in pages && Matches(p, e, resizing);
      assert p in Erased(pages, page);
    }
  }

  lemma {:induction false} EnqueuedIsTracked(pages: Queue, dirty: Queue, e: (nat, Info))
    requires Distinct(pages) && Distinct(dirty) && DirtyTracked(pages, dirty, None)
    ensures Distinct([e] + Erased(pages, e.0)) && Distinct([e] + Erased(dirty, e.0))
    ensures DirtyTracked([e] + Erased(pages, e.0), Erased(dirty, e.0), None)
    ensures DirtyTracked([e] + Erased(pages, e.0), [e] + Erased(dirty, e.0), None)
    ensures Sum([e] + Erased(pages, e.0)) == Sum(Erased(pages, e.0)) + e.1.size
    ensures Sum([e] + Erased(dirty, e.0)) == Sum(Erased(dirty, e.0)) + e.1.size
  {
    PushedKeeps(Erased(pages, e.0), e);
    PushedKeeps(Erased(dirty, e.0), e);
    ErasedTracked(pages, dirty, None, e.0);
    ErasedKeeps(pages, e.0);
    ErasedKeeps(dirty, e.0);
    var pages' := [e] + Erased(pages, e.0);
    forall d | d in [e] + Erased(dirty, e.0) ensures Tracked(pages', d, None) {
      if d == e {
        assert e in pages';
      } else {
        var p :| p in Erased(pages, e.0) && Matches(p, d, None);
        assert p in pages';
      }
    }
  }

  lemma {:induction false} PushedKeeps(queue: Queue, e: (nat, Info))
    ensures Sum([e] + queue) == Sum(queue) + e.1.size
    ensures Distinct(queue) && !Has(queue, e.0) ==> Distinct([e] + queue)
  {
    assert ([e] + queue)[1..] == queue;
  }

  lemma WithSizeTracked(pages: Queue, dirty: Queue, page: nat, size: nat)
    requires DirtyTracked(pages, dirty, None)
    ensures DirtyTracked(WithSize(pages, page, size), dirty, Some(page))
  {
    forall e | e in dirty ensures Tracked(WithSize(pages, page, size), e, Some(page)) {
      var p :| p in pages && Matches(p, e, None);
      var i :| 0 <= i < |pages| && pages[i] == p;
      assert Matches(WithSize(pages, page, size)[i], e, Some(page));
    }
  }

  lemma WithSizeAt(queue: Queue, page: nat, size: nat)
    ensures |WithSize(queue, page, size)| == |queue|
    ensures forall i :: 0 <= i < |queue| ==>
      WithSize(queue, page, size)[i].0 == queue[i].0 && WithSize(queue, page, size)[i].1.mgr == queue[i].1.mgr
  {
  }

  /** Where the resized page is still there it has its new size. */
  lemma PrefixSized(q: Queue, queue: Queue, page: nat, size: nat)
    requires q <= WithSize(queue, page, size)
    ensures forall p :: p in q && p.0 == page ==> p.1.size == size
  {
    forall p | p in q && p.0 == page ensures p.1.size == size {
      var i :| 0 <= i < |q| && q[i] == p;
      assert q[i] == WithSize(queue, page, size)[i];
    }
  }

  lemma WithSizeSubset(a: Queue, b: Queue, page: nat, size: nat)
    requires forall e :: e in a ==> e in b
    ensures forall e :: e in WithSize(a, page, size) ==> e in WithSize(b, page, size)
  {
    forall e | e in WithSize(a, page, size) ensures e in WithSize(b, page, size) {
      var i :| 0 <= i < |a| && WithSize(a, page, size)[i] == e;
      assert a[i] in b;
      var j :| 0 <= j < |b| && b[j] == a[i];
      assert WithSize(b, page, size)[j] == e;
    }
  }

  lemma SizeInSubset(a: Queue, b: Queue, page: nat)
    requires Distinct(a) && Distinct(b) && forall e :: e in a ==> e in b
    ensures Has(a, page) ==> SizeOf(a, page) == SizeOf(b, page)
  {
    if Has(a, page) {
      var i :| 0 <= i < |a| && a[i].0 == page;
      SizeAt(a, i);
      assert a[i] in b;
      var j :| 0 <= j < |b| && b[j] == a[i];
      SizeAt(b, j);
    }
  }

  /** Between calls a dirty page has the same size in both queues. */
  lemma SameSize(pages: Queue, dirty: Queue, page: nat)
    requires Distinct(pages) && Distinct(dirty) && DirtyTracked(pages, dirty, None) && Has(dirty, page)
    ensures SizeOf(dirty, page) == SizeOf(pages, page)
  {
    var i :| 0 <= i < |dirty| && dirty[i].0 == page;
    SizeAt(dirty, i);
    assert dirty[i] in dirty;
    var p :| p in pages && Matches(p, dirty[i], None);
    var j :| 0 <= j < |pages| && pages[j] == p;
    SizeAt(pages, j);
  }

  lemma BothWithSize(pages: Queue, dirty: Queue, page: nat, size: nat)
    requires DirtyTracked(pages, dirty, Some(page)) && forall p :: p in pages && p.0 == page ==> p.1.size == size
    ensures DirtyTracked(pages, WithSize(dirty, page, size), None)
  {
    var dirty' := WithSize(dirty, page, size);
    forall e | e in dirty' ensures Tracked(pages, e, None) {
      var i :| 0 <= i < |dirty'| && dirty'[i] == e;
      assert dirty[i] in dirty;
      var p :| p in pages && Matches(p, dirty[i], Some(page));
      assert Matches(p, e, None);
    }
  }

  /** A queue that has lost a page, and perhaps others, is shorter. */
  lemma {:induction false} Fewer(a: Queue, b: Queue, i: nat)
    requires Distinct(a) && Distinct(b) && i < |b| && forall e :: e in a ==> e in b && e.0 != b[i].0
    ensures |a| < |b| && Sum(a) <= Sum(b)
  {
    ErasedKeeps(b, b[i].0);
    ErasedAt(b, i);
    SumSubset(a, Erased(b, b[i].0));
    SumSubset(a, b);
  }

  /** The last page of a queue is the one that erasing takes off. */
  lemma {:induction false} ErasedLast(queue: Queue)
    requires Distinct(queue) && queue != []
    ensures Erased(queue, queue[|queue| - 1].0) == queue[..|queue| - 1]
  {
    ErasedAt(queue, |queue| - 1);
  }

  /** The dirty pages and their limit at the moment when a writer asks for the last one of them to be flushed. */
  datatype Request = Request(dirty: Queue, limit: nat)

  /** It has to: the limit in force is exceeded, and the last page belongs to the writer's file and is not in use. */
  predicate IsDue(r: Request, mgr: nat, page: nat) {
    && r.dirty != [] && Sum(r.dirty) > r.limit
    && r.dirty[|r.dirty| - 1].1.mgr == mgr && r.dirty[|r.dirty| - 1].0 != page
  }

  /** That page is no longer dirty afterwards, and no page has become so. */
  ghost predicate IsMet(r: Request, after: Queue) {
    r.dirty != [] && forall e :: e in after ==> e in r.dirty && e.0 != r.dirty[|r.dirty| - 1].0
  }

  /** A writer's requests, from the first to the dirty pages that are left. */
  ghost predicate AllDue(asked: seq<Request>, dirty: Queue, limit: nat, mgr: nat, page: nat, left: Queue) {
    && (forall r :: r in asked ==> IsDue(r, mgr, page))
    && (forall i :: 0 <= i < |asked| - 1 ==> IsMet(asked[i], asked[i + 1].dirty))
    && (asked != [] ==> asked[0] == Request(dirty, limit) && IsMet(asked[|asked| - 1], left))
  }

  lemma NothingAsked(dirty: Queue, limit: nat, mgr: nat, page: nat) returns (asked: seq<Request>)
    ensures asked == [] && AllDue(asked, dirty, limit, mgr, page, dirty)
  {
    asked := [];
  }

  lemma OneMoreDue(asked: seq<Request>, dirty: Queue, limit: nat, mgr: nat, page: nat, r: Request, left: Queue)
    requires AllDue(asked, dirty, limit, mgr, page, r.dirty) && IsDue(r, mgr, page) && IsMet(r, left)
    requires asked == [] ==> r == Request(dirty, limit)
    ensures AllDue(asked + [r], dirty, limit, mgr, page, left)
  {
    var asked' := asked + [r];
    forall i | 0 <= i < |asked'| - 1 ensures IsMet(asked'[i], asked'[i + 1].dirty) {
      assert asked'[i] == asked[i] && IsDue(asked[i], mgr, page);
    }
  }

  class CacheManager {
    const memoryLimit: nat
    const evictSizeFrac: nat
    var dirtyLimit: nat
    var pageQueue: Queue
    var dirtyQueue: Queue
    var currentTotal: nat
    var currentDirty: nat

    /** The totals are those of the queues, and the dirty pages are among the tracked ones. */
    ghost predicate Valid(resizing: Option<nat>)
      reads this
    {
      && Distinct(pageQueue) && Distinct(dirtyQueue)
      && currentTotal == Sum(pageQueue) && currentDirty == Sum(dirtyQueue)
      && DirtyTracked(pageQueue, dirtyQueue, resizing)
    }

    constructor (memoryLimit: nat, evictSizeFrac: nat)
      ensures Valid(None) && pageQueue == [] && dirtyQueue == []
      ensures this.memoryLimit == memoryLimit && this.evictSizeFrac == evictSizeFrac
    {
      this.memoryLimit, this.evictSizeFrac := memoryLimit, evictSizeFrac;
      dirtyLimit, pageQueue, dirtyQueue, currentTotal, currentDirty := 0, [], [], 0, 0;
    }

    method RemoveDirty(page: nat, ghost resizing: Option<nat>)
      requires Valid(resizing)
      modifies this`dirtyQueue, this`currentDirty
      ensures Valid(resizing) && dirtyQueue == Erased(old(dirtyQueue), page)
    {
      ErasedTracked(pageQueue, dirtyQueue, resizing, page);
      ErasedKeeps(dirtyQueue, page);
      SumErased(dirtyQueue, page);
      currentDirty := currentDirty - SizeOf(dirtyQueue, page);
      dirtyQueue := Erased(dirtyQueue, page);
    }

    method RemovePage(page: nat, ghost resizing: Option<nat>) returns (size: nat)
      requires Valid(resizing)
      modifies this`pageQueue, this`dirtyQueue, this`currentTotal, this`currentDirty
      ensures Valid(resizing) && size == SizeOf(old(pageQueue), page)
      ensures pageQueue == Erased(old(pageQueue), page) && dirtyQueue == Erased(old(dirtyQueue), page)
    {
      ErasedTracked(pageQueue, dirtyQueue, resizing, page);
      ErasedKeeps(pageQueue, page);
      SumErased(pageQueue, page);
      ErasedKeeps(dirtyQueue, page);
      SumErased(dirtyQueue, page);
      size := SizeOf(pageQueue, page);
      currentTotal := currentTotal - size;
      pageQueue := Erased(pageQueue, page);
      currentDirty := currentDirty - SizeOf(dirtyQueue, page);
      dirtyQueue := Erased(dirtyQueue, page);
    }

    method EnqueuePage(mgr: nat, index: nat, page: nat, capacity: nat, dirty: bool) returns (oldSize: nat)
      requires Valid(None)
      modifies this`pageQueue, this`dirtyQueue, this`currentTotal, this`currentDirty
      ensures Valid(None) && oldSize == SizeOf(old(pageQueue), page)
      ensures pageQueue == [(page, Info(mgr, index, capacity))] + Erased(old(pageQueue), page)
      ensures dirtyQueue == (if dirty then [(page, Info(mgr, index, capacity))] else []) + Erased(old(dirtyQueue), page)
    {
      var e := (page, Info(mgr, index, capacity));
      EnqueuedIsTracked(pageQueue, dirtyQueue, e);
      oldSize := RemovePage(page, None);
      pageQueue := [e] + pageQueue;
      currentTotal := currentTotal + capacity;
      if dirty {
        dirtyQueue := [e] + dirtyQueue;
        currentDirty := currentDirty + capacity;
      }
    }

    /**
     * What the file does when it is asked to evict: it may have to write this page, and with it neighbours that are
     * dirty too, which then count as clean; and it gives the page up. The caller has the file's lock.
     */
    method EvictPage(e: (nat, Info), ghost lock: nat, ghost resizing: Option<nat>)
      requires Valid(resizing) && lock == e.1.mgr
      modifies this`pageQueue, this`dirtyQueue, this`currentTotal, this`currentDirty
      ensures Valid(resizing) && pageQueue == Erased(old(pageQueue), e.0)
      ensures forall d :: d in dirtyQueue ==> d in old(dirtyQueue) && d.0 != e.0
    {
      FlushSome(resizing);
      ErasedKeeps(dirtyQueue, e.0);
      var _ := RemovePage(e.0, resizing);
    }

    /** Any dirty pages are written and count as clean. */
    method FlushSome(ghost resizing: Option<nat>)
      requires Valid(resizing)
      modifies this`dirtyQueue, this`currentDirty
      ensures Valid(resizing) && forall e :: e in dirtyQueue ==> e in old(dirtyQueue)
    {
      var pages: seq<nat> :| true;
      for i := 0 to |pages|
        invariant Valid(resizing) && forall e :: e in dirtyQueue ==> e in old(dirtyQueue)
        modifies this`dirtyQueue, this`currentDirty
      {
        ErasedKeeps(dirtyQueue, pages[i]);
        RemoveDirty(pages[i], resizing);
      }
    }

    /** What the file does when it is asked to flush; after that the limit is measured anew. */
    method FlushPage(e: (nat, Info), ghost lock: nat, ghost resizing: Option<nat>)
      requires Valid(resizing) && lock == e.1.mgr
      modifies this`dirtyQueue, this`currentDirty, this`dirtyLimit
      ensures Valid(resizing) && forall d :: d in dirtyQueue ==> d in old(dirtyQueue) && d.0 != e.0
    {
      FlushSome(resizing);
      ErasedKeeps(dirtyQueue, e.0);
      RemoveDirty(e.0, resizing);
      var measured: nat :| true;
      dirtyLimit := measured;
    }

    /** Where the synchronous flushes for a page end: within the limit, or at a page that is not to be flushed. */
    ghost predicate FlushesDone(mgr: nat, page: nat)
      requires currentDirty == Sum(dirtyQueue)
      reads this
    {
      currentDirty <= dirtyLimit || dirtyQueue[|dirtyQueue| - 1].1.mgr != mgr || dirtyQueue[|dirtyQueue| - 1].0 == page
    }

    ghost predicate EvictionsDone(mgr: nat, page: nat)
      requires currentTotal == Sum(pageQueue)
      reads this
    {
      currentTotal <= memoryLimit || pageQueue[|pageQueue| - 1].1.mgr != mgr || pageQueue[|pageQueue| - 1].0 == page
    }

    /**
     * The synchronous evictions of a writer: pages of its own file go from the back of the queue, never the one it is
     * about to use, and never one more than necessary.
     */
    method HandleMemory(mgr: nat, page: nat, ghost resizing: Option<nat>)
      requires Valid(resizing)
      modifies this`pageQueue, this`dirtyQueue, this`currentTotal, this`currentDirty
      ensures Valid(resizing) && pageQueue <= old(pageQueue)
      ensures forall i :: |pageQueue| <= i < |old(pageQueue)| ==>
                old(pageQueue)[i].1.mgr == mgr && old(pageQueue)[i].0 != page
      ensures pageQueue != old(pageQueue) ==> Sum(old(pageQueue)[..|pageQueue| + 1]) > memoryLimit
      ensures EvictionsDone(mgr, page)
      ensures forall e :: e in dirtyQueue ==> e in old(dirtyQueue)
      ensures pageQueue == old(pageQueue) ==> dirtyQueue == old(dirtyQueue)
    {
      hide Distinct, DirtyTracked;
      while currentTotal > memoryLimit
            && pageQueue[|pageQueue| - 1].1.mgr == mgr && pageQueue[|pageQueue| - 1].0 != page
        invariant Valid(resizing) && pageQueue <= old(pageQueue)
        invariant forall i :: |pageQueue| <= i < |old(pageQueue)| ==>
                  old(pageQueue)[i].1.mgr == mgr && old(pageQueue)[i].0 != page
        invariant pageQueue != old(pageQueue) ==> Sum(old(pageQueue)[..|pageQueue| + 1]) > memoryLimit
        invariant forall e :: e in dirtyQueue ==> e in old(dirtyQueue)
        invariant pageQueue == old(pageQueue) ==> dirtyQueue == old(dirtyQueue)
        modifies this`pageQueue, this`dirtyQueue, this`currentTotal, this`currentDirty
        decreases |pageQueue|
      {
        ErasedLast(pageQueue);
        assert old(pageQueue)[..|pageQueue|] == pageQueue;
        EvictPage(pageQueue[|pageQueue| - 1], mgr, resizing);
      }
    }

    /**
     * The synchronous flushes of a writer: no page leaves the cache, none becomes dirty, and the last dirty page is
     * asked for only while the limit then in force is exceeded. asked are these requests.
     */
    method HandleDirtyMemory(mgr: nat, page: nat, ghost resizing: Option<nat>) returns (ghost asked: seq<Request>)
      requires Valid(resizing)
      modifies this`dirtyQueue, this`currentDirty, this`dirtyLimit
      ensures Valid(resizing) && forall e :: e in dirtyQueue ==> e in old(dirtyQueue)
      ensures FlushesDone(mgr, page)
      ensures AllDue(asked, old(dirtyQueue), old(dirtyLimit), mgr, page, dirtyQueue)
      ensures asked == [] ==> dirtyQueue == old(dirtyQueue) && dirtyLimit == old(dirtyLimit)
      ensures old(currentDirty) <= old(dirtyLimit) ==>
                asked == [] && dirtyQueue == old(dirtyQueue) && dirtyLimit == old(dirtyLimit)
    {
      hide AllDue;
      asked := NothingAsked(dirtyQueue, dirtyLimit, mgr, page);
      while currentDirty > dirtyLimit
            && dirtyQueue[|dirtyQueue| - 1].1.mgr == mgr && dirtyQueue[|dirtyQueue| - 1].0 != page
        invariant Valid(resizing) && forall e :: e in dirtyQueue ==> e in old(dirtyQueue)
        invariant AllDue(asked, old(dirtyQueue), old(dirtyLimit), mgr, page, dirtyQueue)
        invariant asked == [] ==> dirtyQueue == old(dirtyQueue) && dirtyLimit == old(dirtyLimit)
        invariant old(currentDirty) <= old(dirtyLimit) ==> asked == []
        modifies this`dirtyQueue, this`currentDirty, this`dirtyLimit
        decreases |dirtyQueue|
      {
        ghost var r := Request(dirtyQueue, dirtyLimit);
        FlushPage(dirtyQueue[|dirtyQueue| - 1], mgr, resizing);
        Fewer(dirtyQueue, r.dirty, |r.dirty| - 1);
        OneMoreDue(asked, old(dirtyQueue), old(dirtyLimit), mgr, page, r, dirtyQueue);
        asked := asked + [r];
      }
    }

    /** A page has been used: it comes to the front, and room is made if the page is new or has grown. */
    method InformPage(mgr: nat, index: nat, page: nat, capacity: nat, dirty: bool, sync: bool)
      requires Valid(None)
      modifies this`pageQueue, this`dirtyQueue, this`currentTotal, this`currentDirty, this`dirtyLimit
      ensures Valid(None)
      ensures var front := [(page, Info(mgr, index, capacity))] + Erased(old(pageQueue), page);
        && pageQueue <= front && pageQueue != []
        && (capacity <= SizeOf(old(pageQueue), page) || !sync ==> pageQueue == front)
        && (forall i :: |pageQueue| <= i < |front| ==> front[i].1.mgr == mgr)
        && (capacity > SizeOf(old(pageQueue), page) && sync ==> EvictionsDone(mgr, page))
        && (pageQueue != front ==> Sum(front[..|pageQueue| + 1]) > memoryLimit)
      ensures var front := (if dirty then [(page, Info(mgr, index, capacity))] else []) + Erased(old(dirtyQueue), page);
        && (forall e :: e in dirtyQueue ==> e in front)
        && (capacity <= SizeOf(old(pageQueue), page) || !sync ==> dirtyQueue == front && dirtyLimit == old(dirtyLimit))
        && (!dirty || Sum(front) <= old(dirtyLimit) ==> dirtyLimit == old(dirtyLimit))
        && (|pageQueue| == |Erased(old(pageQueue), page)| + 1 && (!dirty || Sum(front) <= old(dirtyLimit)) ==>
              dirtyQueue == front)
      ensures dirty && capacity > SizeOf(old(pageQueue), page) && sync ==> FlushesDone(mgr, page)
    {
      hide Distinct, DirtyTracked, Erased, AllDue, Sum, SizeOf;
      var oldSize := EnqueuePage(mgr, index, page, capacity, dirty);
      ghost var front, dirtyFront := pageQueue, dirtyQueue;
      if capacity > oldSize && sync {
        HandleMemory(mgr, page, None);
        assert front[0].0 == page;
        if dirty {
          SumSubset(dirtyQueue, dirtyFront);
          ghost var asked := HandleDirtyMemory(mgr, page, None);
        }
      }
    }

    /** A page has changed its size: it keeps its place in both queues, and room is made if it has grown. */
    method ResizePage(mgr: nat, page: nat, capacity: nat, sync: bool)
      requires Valid(None)
      modifies this`pageQueue, this`dirtyQueue, this`currentTotal, this`currentDirty, this`dirtyLimit
      ensures Valid(None)
      ensures var resized := WithSize(old(pageQueue), page, capacity);
        && pageQueue <= resized
        && (capacity <= SizeOf(old(pageQueue), page) || !sync ==> pageQueue == resized)
        && (pageQueue != resized ==> Sum(resized[..|pageQueue| + 1]) > memoryLimit)
        && (forall i :: |pageQueue| <= i < |resized| ==> resized[i].1.mgr == mgr && resized[i].0 != page)
      ensures var resized := WithSize(old(dirtyQueue), page, capacity);
        && (forall e :: e in dirtyQueue ==> e in resized)
        && (capacity <= SizeOf(old(pageQueue), page) || !sync ==>
              dirtyQueue == resized && dirtyLimit == old(dirtyLimit))
        && (Sum(resized) <= old(dirtyLimit) ==> dirtyLimit == old(dirtyLimit))
        && (Sum(resized) <= old(dirtyLimit) && |pageQueue| == |old(pageQueue)| ==> dirtyQueue == resized)
      ensures sync && Has(old(pageQueue), page) && capacity > SizeOf(old(pageQueue), page) ==> EvictionsDone(mgr, page)
      ensures sync && Has(dirtyQueue, page) && capacity > SizeOf(old(dirtyQueue), page) ==> FlushesDone(mgr, page)
    {
      hide Distinct, DirtyTracked, WithSize;
      ghost var pages, dirty := pageQueue, dirtyQueue;
      if Has(dirty, page) {
        SameSize(pages, dirty, page);
      }
      WithSizeAt(pages, page, capacity);
      ResizeTracked(mgr, page, capacity, sync);
      WithSizeKeeps(dirty, page, capacity);
      WithSizeKeeps(dirtyQueue, page, capacity);
      WithSizeSubset(dirtyQueue, dirty, page, capacity);
      SizeInSubset(dirtyQueue, dirty, page);
      SumSubset(WithSize(dirtyQueue, page, capacity), WithSize(dirty, page, capacity));
      ResizeDirty(mgr, page, capacity, sync);
    }

    /** The first half: the page's size among all pages, while its dirty entry still has the old one. */
    method ResizeTracked(mgr: nat, page: nat, capacity: nat, sync: bool)
      requires Valid(None)
      modifies this`pageQueue, this`dirtyQueue, this`currentTotal, this`currentDirty
      ensures Valid(Some(page)) && forall p :: p in pageQueue && p.0 == page ==> p.1.size == capacity
      ensures var resized := WithSize(old(pageQueue), page, capacity);
        && pageQueue <= resized
        && (capacity <= SizeOf(old(pageQueue), page) || !sync ==> pageQueue == resized)
        && (pageQueue != resized ==> Sum(resized[..|pageQueue| + 1]) > memoryLimit)
        && (pageQueue == resized ==> dirtyQueue == old(dirtyQueue))
        && (forall i :: |pageQueue| <= i < |resized| ==> resized[i].1.mgr == mgr && resized[i].0 != page)
      ensures forall e :: e in dirtyQueue ==> e in old(dirtyQueue)
      ensures sync && Has(old(pageQueue), page) && capacity > SizeOf(old(pageQueue), page) ==> EvictionsDone(mgr, page)
    {
      hide Distinct, DirtyTracked, WithSize;
      WithSizeTracked(pageQueue, dirtyQueue, page, capacity);
      WithSizeKeeps(pageQueue, page, capacity);
      WithSizeAt(pageQueue, page, capacity);
      ghost var pages := pageQueue;
      var oldSize := SizeOf(pageQueue, page);
      if Has(pageQueue, page) {
        currentTotal := currentTotal - oldSize + capacity;
        pageQueue := WithSize(pageQueue, page, capacity);
        if capacity > oldSize && sync {
          HandleMemory(mgr, page, Some(page));
        }
      }
      PrefixSized(pageQueue, pages, page, capacity);
    }

    /** The second half: the page's size among the dirty pages. */
    method ResizeDirty(mgr: nat, page: nat, capacity: nat, sync: bool)
      requires Valid(Some(page)) && forall p :: p in pageQueue && p.0 == page ==> p.1.size == capacity
      modifies this`dirtyQueue, this`currentDirty, this`dirtyLimit
      ensures Valid(None)
      ensures var resized := WithSize(old(dirtyQueue), page, capacity);
        && (forall e :: e in dirtyQueue ==> e in resized)
        && (capacity <= SizeOf(old(dirtyQueue), page) || !sync || Sum(resized) <= old(dirtyLimit) ==>
              dirtyQueue == resized && dirtyLimit == old(dirtyLimit))
      ensures sync && Has(old(dirtyQueue), page) && capacity > SizeOf(old(dirtyQueue), page) ==> FlushesDone(mgr, page)
      ensures !Has(old(dirtyQueue), page) ==> dirtyQueue == old(dirtyQueue) && dirtyLimit == old(dirtyLimit)
      ensures Has(dirtyQueue, page) ==> Has(old(dirtyQueue), page)
    {
      hide Distinct, DirtyTracked, WithSize, AllDue;
      BothWithSize(pageQueue, dirtyQueue, page, capacity);
      WithSizeKeeps(dirtyQueue, page, capacity);
      var oldDirty := SizeOf(dirtyQueue, page);
      ghost var resized := WithSize(dirtyQueue, page, capacity);
      if Has(dirtyQueue, page) {
        currentDirty := currentDirty - oldDirty + capacity;
        dirtyQueue := WithSize(dirtyQueue, page, capacity);
        if capacity > oldDirty && sync {
          ghost var asked := HandleDirtyMemory(mgr, page, None);
        }
      }
    }

    /** Takes the pages off whose files are going away. */
    method RemovePages(removed: seq<nat>)
      requires Valid(None)
      modifies this`pageQueue, this`dirtyQueue, this`currentTotal, this`currentDirty
      ensures Valid(None)
      ensures pageQueue == ErasedAll(old(pageQueue), removed) && dirtyQueue == ErasedAll(old(dirtyQueue), removed)
    {
      hide Distinct, DirtyTracked;
      for i := 0 to |removed|
        invariant Valid(None)
        invariant pageQueue == ErasedAll(old(pageQueue), removed[..i])
        invariant dirtyQueue == ErasedAll(old(dirtyQueue), removed[..i])
        modifies this`pageQueue, this`dirtyQueue, this`currentTotal, this`currentDirty
      {
        assert removed[..i + 1][..i] == removed[..i];
        var _ := RemovePage(removed[i], None);
      }
      assert removed[..|removed|] == removed;
    }

    /**
     * Tries to evict a page. If that fails the page moves to the front, so that others are tried first the next time.
     * broken are the pages whose eviction fails, as the server will not take them.
     */
    method TryEvict(e: (nat, Info), ghost lock: nat, broken: set<nat>) returns (ok: bool)
      requires Valid(None) && e in pageQueue && lock == e.1.mgr
      modifies this`pageQueue, this`dirtyQueue, this`currentTotal, this`currentDirty
      ensures Valid(None) && (ok <==> e.0 !in broken)
      ensures ok ==> pageQueue == Erased(old(pageQueue), e.0)
      ensures !ok ==> pageQueue == Requeued(e) + Erased(old(pageQueue), e.0)
    {
      ok := e.0 !in broken;
      if ok {
        EvictPage(e, lock, None);
        return;
      }
      SizeIn(pageQueue, e);
      ErasedKeeps(pageQueue, e.0);
      ErasedAbsent(Erased(pageQueue, e.0), e.0);
      var size := RemovePage(e.0, None);
      if size > 0 {
        var dirty: bool := *;
        var _ := EnqueuePage(e.1.mgr, e.1.index, e.0, e.1.size, dirty);
      }
    }

    /**
     * Takes the locks of the files that were looked at, one after the other, and evicts the pages chosen of each, until
     * one fails.
     */
    method EvictAll(selected: Queue, files: set<nat>, broken: set<nat>)
      returns (failed: Option<(nat, Info)>, ghost gone: set<nat>, ghost taken: set<nat>)
      requires Valid(None) && Distinct(selected) && forall e :: e in selected ==> e in pageQueue && e.1.mgr in files
      modifies this`pageQueue, this`dirtyQueue, this`currentTotal, this`currentDirty
      ensures Valid(None) && taken <= files
      ensures failed.None? ==>
                taken == files && gone == KeysOf(selected, {}) && pageQueue == Without(old(pageQueue), gone)
      ensures failed.None? <==> forall e :: e in selected ==> e.0 !in broken
      ensures failed.Some? ==> failed.value in selected && failed.value.1.mgr in taken
      ensures failed.Some? ==> gone * broken == {failed.value.0} && gone <= KeysOf(selected, {})
      ensures failed.Some? ==> pageQueue == Requeued(failed.value) + Without(old(pageQueue), gone)
    {
      hide Distinct, DirtyTracked, Without, Requeued;
      ghost var queue := pageQueue;
      var left := files;
      failed, gone, taken := None, {}, {};
      NoneGone(queue, selected, left);
      while left != {}
        invariant Valid(None) && gone == KeysOf(selected, left) && pageQueue == Without(queue, gone)
        invariant left <= files && taken == files - left && gone !! broken
        modifies this`pageQueue, this`dirtyQueue, this`currentTotal, this`currentDirty
        decreases left
      {
        var mgr :| mgr in left;
        taken := taken + {mgr};
        for i := 0 to |selected|
          invariant Valid(None) && pageQueue == Without(queue, gone) && gone !! broken
          invariant gone == KeysOf(selected, left) + KeysUpTo(selected, mgr, i)
          modifies this`pageQueue, this`dirtyQueue, this`currentTotal, this`currentDirty
        {
          var e := selected[i];
          NextKey(selected, left, mgr, i);
          if e.1.mgr == mgr {
            NotGoneYet(queue, e, gone);
            WithoutMore(queue, gone, e.0);
            gone := gone + {e.0};
            var ok := TryEvict(e, mgr, broken);
            if !ok {
              return Some(e), gone, taken;
            }
          }
        }
        FileDone(selected, left, mgr);
        left := left - {mgr};
      }
    }

    /**
     * The eviction thread's work. If no eviction fails, exactly the shortest least-recently-used stretch is gone, and
     * memory is below the limit by the margin, if and only if the choice was in scope; and only locks of files in use
     * were taken on the way if and only if all files of the stretch are in use. If an eviction fails, its page is the
     * most recently used one now, and of the others all that were not tried yet are still there, in order.
     */
    method DoPageEvictions(locked: set<nat>, broken: set<nat>)
      returns (inBounds: bool, failed: Option<(nat, Info)>, ghost n: nat, ghost selected: Queue,
               ghost removed: seq<nat>, ghost gone: set<nat>, ghost taken: set<nat>)
      requires Valid(None) && evictSizeFrac > 0
      modifies this`pageQueue, this`dirtyQueue, this`currentTotal, this`currentDirty
      ensures Valid(None) && IsCutoff(old(pageQueue), memoryLimit - memoryLimit / evictSizeFrac, n)
      ensures InScope(old(pageQueue), n, locked) <==>
                inBounds && AllReached(old(pageQueue), n, selected, ErasedAll(old(pageQueue), removed))
      ensures failed.None? ==> (InScope(old(pageQueue), n, locked) <==> inBounds && pageQueue == old(pageQueue)[..n])
      ensures failed.None? ==> (InUse(old(pageQueue), n, locked) <==>
                inBounds && pageQueue == old(pageQueue)[..n] && taken <= locked)
      ensures InUse(old(pageQueue), n, locked) ==> taken <= locked
      ensures failed.None? && InScope(old(pageQueue), n, locked) ==>
                currentTotal <= memoryLimit - memoryLimit / evictSizeFrac
      ensures InScope(old(pageQueue), n, locked) ==>
        (failed.None? <==> forall e :: e in old(pageQueue)[n..] && e.1.mgr in locked ==> e.0 !in broken)
      ensures failed.Some? ==>
                && inBounds && failed.value in selected
                && gone * broken == {failed.value.0} && gone <= KeysOf(selected, {})
      ensures failed.Some? ==> pageQueue == Requeued(failed.value) + Without(ErasedAll(old(pageQueue), removed), gone)
    {
      hide Distinct, DirtyTracked, Granted, InScope, InUse, AllReached, Without, Requeued;
      var margin := memoryLimit / evictSizeFrac;
      SplitOffset(memoryLimit, evictSizeFrac);
      StartAtLeast(margin, evictSizeFrac);
      n := CutoffExists(pageQueue, memoryLimit - margin);
      var chosen, goneAway, files;
      chosen, goneAway, files, inBounds := Select(pageQueue, margin, memoryLimit, locked, n);
      selected, removed, failed, gone, taken := chosen, goneAway, None, {}, {};
      InUseIsInScope(old(pageQueue), n, locked);
      RemovePages(goneAway);
      if !inBounds {
        return;
      }
      if InScope(old(pageQueue), n, locked) {
        InScopeIsGranted(old(pageQueue), n, locked);
        ChosenAreInUse(old(pageQueue), selected, n, locked);
      }
      EvictedIff(old(pageQueue), n, locked, selected, removed);
      failed, gone, taken := EvictAll(chosen, files, broken);
    }

    /**
     * The flush thread's work: by the same choice among the dirty pages. If the choice was in scope and no flush fails,
     * what stays dirty lies in front of the chosen stretch, and is within the limit that the thread started from. Again
     * only locks of files in use are taken if and only if all files of the stretch are in use.
     */
    method DoPageFlushes(locked: set<nat>, broken: set<nat>)
      returns (inBounds: bool, failed: Option<(nat, Info)>, ghost n: nat, ghost taken: set<nat>)
      requires Valid(None)
      modifies this`pageQueue, this`dirtyQueue, this`currentTotal, this`currentDirty, this`dirtyLimit
      ensures Valid(None) && IsCutoff(old(dirtyQueue), old(dirtyLimit), n)
      ensures Granted(old(dirtyQueue), n, locked) ==> (inBounds <==> InScope(old(dirtyQueue), n, locked))
      ensures failed.None? ==> (InUse(old(dirtyQueue), n, locked) <==> inBounds && taken <= locked)
      ensures InUse(old(dirtyQueue), n, locked) ==> taken <= locked
      ensures failed.Some? ==> failed.value in old(dirtyQueue) && failed.value.0 in broken
      ensures !inBounds ==> failed.None? && taken == {}
      ensures InScope(old(dirtyQueue), n, locked) ==>
        (failed.None? <==> forall e :: e in old(dirtyQueue)[n..] && e.1.mgr in locked ==> e.0 !in broken)
      ensures InScope(old(dirtyQueue), n, locked) && failed.None? ==>
        (forall e :: e in dirtyQueue ==> e in old(dirtyQueue)[..n]) && currentDirty <= old(dirtyLimit)
      ensures forall e :: e in dirtyQueue ==> e in old(dirtyQueue)
    {
      hide Distinct, DirtyTracked, Granted, InScope, InUse, AllReached, Backwards, ErasedAll, IsCutoff, Sum;
      n := CutoffExists(dirtyQueue, dirtyLimit);
      var selected, removed, files;
      selected, removed, files, inBounds := Select(dirtyQueue, 0, dirtyLimit, locked, n);
      failed, taken := None, {};
      ghost var was := dirtyQueue;
      InUseIsInScope(was, n, locked);
      RemovePages(removed);
      ghost var rest := dirtyQueue;
      ErasedAllSubset(was, removed);
      if !inBounds {
        return;
      }
      failed, taken := FlushAll(selected, files, broken);
      if InScope(was, n, locked) {
        InScopeIsGranted(was, n, locked);
        ChosenAreInUse(was, selected, n, locked);
        ChosenFromBack(was, removed, selected, n);
        if failed.None? { LeftInFront(was, rest, selected, dirtyQueue, n); }
      }
    }

    /**
     * Takes the locks of the files that were looked at, one after the other, and flushes the pages chosen of each,
     * until one fails; broken are the pages that the server will not take.
     */
    method FlushAll(selected: Queue, files: set<nat>, broken: set<nat>)
      returns (failed: Option<(nat, Info)>, ghost taken: set<nat>)
      requires Valid(None) && forall e :: e in selected ==> e.1.mgr in files
      modifies this`dirtyQueue, this`currentDirty, this`dirtyLimit
      ensures Valid(None) && forall e :: e in dirtyQueue ==> e in old(dirtyQueue)
      ensures failed.None? <==> forall e :: e in selected ==> e.0 !in broken
      ensures failed.Some? ==>
                failed.value in selected && failed.value.0 in broken && failed.value.1.mgr in taken
      ensures failed.None? ==> forall e, k :: e in dirtyQueue && 0 <= k < |selected| ==> e.0 != selected[k].0
      ensures taken <= files && (failed.None? ==> taken == files)
    {
      hide Distinct, DirtyTracked;
      var left := files;
      ghost var gone := {};
      taken := {};
      while left != {}
        invariant Valid(None) && forall e :: e in dirtyQueue ==> e in old(dirtyQueue) && e.0 !in gone
        invariant forall k :: 0 <= k < |selected| ==> selected[k].1.mgr in left || selected[k].0 in gone
        invariant left <= files && taken == files - left && gone !! broken
        modifies this`dirtyQueue, this`currentDirty, this`dirtyLimit
        decreases left
      {
        var mgr :| mgr in left;
        taken := taken + {mgr};
        for i := 0 to |selected|
          invariant Valid(None) && forall e :: e in dirtyQueue ==> e in old(dirtyQueue) && e.0 !in gone
          invariant forall k :: 0 <= k < |selected| ==> selected[k].1.mgr in left || selected[k].0 in gone
          invariant gone !! broken && forall k :: 0 <= k < i && selected[k].1.mgr == mgr ==> selected[k].0 in gone
          modifies this`dirtyQueue, this`currentDirty, this`dirtyLimit
        {
          if selected[i].1.mgr == mgr {
            if selected[i].0 in broken {
              return Some(selected[i]), taken;
            }
            FlushPage(selected[i], mgr, None);
            gone := gone + {selected[i].0};
          }
        }
        left := left - {mgr};
      }
      failed := None;
    }
  }

  /** A page whose eviction failed is queued again, unless it was known to use no memory. */
  function Requeued(e: (nat, Info)): Queue { if e.1.size > 0 then [e] else [] }

  /** The queue without some pages, the others in order. */
  function Without(queue: Queue, gone: set<nat>): Queue {
    if queue == [] then [] else (if queue[0].0 in gone then [] else [queue[0]]) + Without(queue[1..], gone)
  }

  /** The chosen pages of the files that have been dealt with. */
  function KeysOf(selected: Queue, files: set<nat>): set<nat> { set e | e in selected && e.1.mgr !in files :: e.0 }

  /** The chosen pages of one file, among the first i. */
  function KeysUpTo(selected: Queue, mgr: nat, i: nat): set<nat> {
    set k | 0 <= k < i && k < |selected| && selected[k].1.mgr == mgr :: selected[k].0
  }

  lemma SizeIn(queue: Queue, e: (nat, Info))
    requires Distinct(queue) && e in queue
    ensures SizeOf(queue, e.0) == e.1.size
  {
    var i :| 0 <= i < |queue| && queue[i] == e;
    SizeAt(queue, i);
  }

  lemma NoneGone(queue: Queue, selected: Queue, files: set<nat>)
    requires forall e :: e in selected ==> e.1.mgr in files
    ensures KeysOf(selected, files) == {} && Without(queue, {}) == queue
  {
    WithoutNothing(queue);
  }

  lemma {:induction false} WithoutNothing(queue: Queue)
    ensures Without(queue, {}) == queue
  {
    if queue != [] {
      WithoutNothing(queue[1..]);
    }
  }

  lemma {:induction false} WithoutHas(queue: Queue, gone: set<nat>, e: (nat, Info))
    ensures e in Without(queue, gone) <==> e in queue && e.0 !in gone
  {
    if queue != [] {
      WithoutHas(queue[1..], gone, e);
      assert queue == [queue[0]] + queue[1..];
    }
  }

  lemma {:induction false} NotGoneYet(queue: Queue, e: (nat, Info), gone: set<nat>)
    requires e in queue && e.0 !in gone
    ensures e in Without(queue, gone)
  {
    WithoutHas(queue, gone, e);
  }

  lemma {:induction false} WithoutMore(queue: Queue, gone: set<nat>, key: nat)
    requires Distinct(queue)
    ensures Erased(Without(queue, gone), key) == Without(queue, gone + {key})
  {
    if queue != [] {
      var first, rest := queue[0], Without(queue[1..], gone);
      WithoutMore(queue[1..], gone, key);
      if first.0 in gone {
        assert Without(queue, gone) == rest;
      } else {
        assert Without(queue, gone) == [first] + rest && ([first] + rest)[1..] == rest;
        if first.0 == key {
          FirstKeyIsGone(queue, gone);
        }
      }
    }
  }

  lemma {:induction false} FirstKeyIsGone(queue: Queue, gone: set<nat>)
    requires Distinct(queue) && queue != []
    ensures Erased(Without(queue[1..], gone), queue[0].0) == Without(queue[1..], gone)
  {
    var rest := Without(queue[1..], gone);
    forall e | e in rest ensures e.0 != queue[0].0 {
      WithoutHas(queue[1..], gone, e);
      var i :| 0 <= i < |queue[1..]| && queue[1..][i] == e;
      assert queue[i + 1].0 != queue[0].0;
    }
    ErasedAbsent(rest, queue[0].0);
  }

  lemma SameKey(queue: Queue, d: (nat, Info), e: (nat, Info))
    requires Distinct(queue) && d in queue && e in queue
    ensures d.0 == e.0 ==> d == e
  {
    var i :| 0 <= i < |queue| && queue[i] == d;
    var j :| 0 <= j < |queue| && queue[j] == e;
  }

  lemma NextKey(selected: Queue, files: set<nat>, mgr: nat, i: nat)
    requires Distinct(selected) && i < |selected| && mgr in files
    ensures selected[i].1.mgr == mgr ==> selected[i].0 !in KeysOf(selected, files) + KeysUpTo(selected, mgr, i)
    ensures KeysUpTo(selected, mgr, i + 1)
         == KeysUpTo(selected, mgr, i) + if selected[i].1.mgr == mgr then {selected[i].0} else {}
  {
    forall e | e in selected ensures e.0 == selected[i].0 ==> e == selected[i] {
      SameKey(selected, e, selected[i]);
    }
  }

  lemma FileDone(selected: Queue, files: set<nat>, mgr: nat)
    requires mgr in files
    ensures KeysOf(selected, files) + KeysUpTo(selected, mgr, |selected|) == KeysOf(selected, files - {mgr})
  {
    forall key | key in KeysOf(selected, files - {mgr})
      ensures key in KeysOf(selected, files) + KeysUpTo(selected, mgr, |selected|)
    {
      var e :| e in selected && e.1.mgr !in files - {mgr} && e.0 == key;
      var k :| 0 <= k < |selected| && selected[k] == e;
      if e.1.mgr == mgr { assert selected[k].0 == key; }
    }
  }

  lemma {:induction false} ErasedAllSubset(queue: Queue, pages: seq<nat>)
    requires Distinct(queue)
    ensures Distinct(ErasedAll(queue, pages)) && forall e :: e in ErasedAll(queue, pages) ==> e in queue
    decreases |pages|
  {
    if pages != [] {
      ErasedAllSubset(queue, pages[..|pages| - 1]);
      ErasedKeeps(ErasedAll(queue, pages[..|pages| - 1]), pages[|pages| - 1]);
    }
  }

  lemma InUseIsInScope(queue: Queue, n: nat, locked: set<nat>)
    ensures InUse(queue, n, locked) ==> InScope(queue, n, locked)
  {
  }

  lemma BackwardsHas(queue: Queue, n: nat, e: (nat, Info))
    requires n <= |queue|
    ensures e in Backwards(queue, n) <==> e in queue[n..]
  {
    if e in queue[n..] {
      var i :| n <= i < |queue| && queue[i] == e;
      assert Backwards(queue, n)[|queue| - 1 - i] == e;
    }
  }

  /** Where no page is passed over, exactly the pages from n on whose files are in use are chosen. */
  lemma ChosenAreInUse(queue: Queue, selected: Queue, n: nat, locked: set<nat>)
    requires n <= |queue| && Granted(queue, n, locked)
    requires n == |queue| || queue[n].1.mgr in locked ==> selected == Backwards(queue, n)
    requires n < |queue| && queue[n].1.mgr !in locked ==> selected == Backwards(queue, n + 1)
    ensures forall e :: e in selected <==> e in queue[n..] && e.1.mgr in locked
  {
    forall e ensures e in selected <==> e in queue[n..] && e.1.mgr in locked {
      BackwardsHas(queue, n, e);
      if n < |queue| {
        BackwardsHas(queue, n + 1, e);
        assert queue[n..] == [queue[n]] + queue[n + 1..];
      }
    }
  }

  lemma InScopeIsGranted(queue: Queue, n: nat, locked: set<nat>)
    requires InScope(queue, n, locked)
    ensures Granted(queue, n, locked)
  {
  }

  /** Taking away the keys of the back leaves the front. */
  lemma {:induction false} WithoutBack(rest: Queue, n: nat, gone: set<nat>)
    requires Distinct(rest) && n <= |rest| && forall i :: 0 <= i < |rest| ==> (rest[i].0 in gone <==> n <= i)
    ensures Without(rest, gone) == rest[..n]
    decreases |rest|
  {
    if rest == [] {
    } else if n == 0 {
      WithoutBack(rest[1..], 0, gone);
    } else {
      WithoutBack(rest[1..], n - 1, gone);
      assert rest[..n] == [rest[0]] + rest[1..][..n - 1];
    }
  }

  lemma KeysAtBack(rest: Queue, selected: Queue, n: nat)
    requires Distinct(rest) && |rest| - |selected| == n
    requires forall i :: 0 <= i < |selected| ==> selected[i] == rest[|rest| - 1 - i]
    ensures forall i :: 0 <= i < |rest| ==> (rest[i].0 in KeysOf(selected, {}) <==> n <= i)
  {
    forall i | 0 <= i < |rest| ensures rest[i].0 in KeysOf(selected, {}) <==> n <= i {
      if n <= i {
        assert selected[|rest| - 1 - i] == rest[i];
      }
      if rest[i].0 in KeysOf(selected, {}) {
        var e :| e in selected && e.0 == rest[i].0;
        var k :| 0 <= k < |selected| && selected[k] == e;
        assert rest[|rest| - 1 - k].0 == rest[i].0;
      }
    }
  }

  /** Evicting all chosen pages leaves the front of the queue exactly if the choice was in scope. */
  lemma {:induction false} EvictedIff(queue: Queue, n: nat, locked: set<nat>, selected: Queue, removed: seq<nat>)
    requires Distinct(queue) && n <= |queue| && Distinct(selected) && Distinct(ErasedAll(queue, removed))
    requires forall e :: e in selected ==> e in ErasedAll(queue, removed)
    requires InScope(queue, n, locked) <==> AllReached(queue, n, selected, ErasedAll(queue, removed))
    requires InScope(queue, n, locked) ==>
              || (removed == [] && selected == Backwards(queue, n))
              || (n < |queue| && removed == [queue[n].0] && selected == Backwards(queue, n + 1))
    ensures InScope(queue, n, locked) <==> Without(ErasedAll(queue, removed), KeysOf(selected, {})) == queue[..n]
  {
    var rest := ErasedAll(queue, removed);
    if InScope(queue, n, locked) {
      FrontStays(queue, n, selected, removed);
    } else {
      var i :| n <= i < |queue| && queue[i] !in selected && queue[i] in rest;
      PassedOverStays(queue, rest, selected, i);
      NotInFront(queue, n, i);
    }
  }

  lemma {:induction false} FrontStays(queue: Queue, n: nat, selected: Queue, removed: seq<nat>)
    requires Distinct(queue) && n <= |queue| && Distinct(ErasedAll(queue, removed))
    requires || (removed == [] && selected == Backwards(queue, n))
             || (n < |queue| && removed == [queue[n].0] && selected == Backwards(queue, n + 1))
    ensures Without(ErasedAll(queue, removed), KeysOf(selected, {})) == queue[..n]
  {
    hide KeysOf, Without;
    var rest := ErasedAll(queue, removed);
    ChosenFromBack(queue, removed, selected, n);
    KeysAtBack(rest, selected, n);
    WithoutBack(rest, n, KeysOf(selected, {}));
  }

  lemma NotInFront(queue: Queue, n: nat, i: nat)
    requires Distinct(queue) && n <= i < |queue|
    ensures queue[i] !in queue[..n]
  {
    forall k | 0 <= k < n ensures queue[k] != queue[i] {}
  }

  lemma {:induction false} PassedOverStays(queue: Queue, rest: Queue, selected: Queue, i: nat)
    requires Distinct(rest) && i < |queue| && queue[i] in rest && queue[i] !in selected
    requires forall e :: e in selected ==> e in rest
    ensures queue[i] in Without(rest, KeysOf(selected, {}))
  {
    forall e | e in selected ensures e.0 == queue[i].0 ==> e == queue[i] {
      SameKey(rest, e, queue[i]);
    }
    WithoutHas(rest, KeysOf(selected, {}), queue[i]);
  }

  /** The chosen pages are those at the back of what is left of the queue. */
  lemma {:induction false} ChosenFromBack(queue: Queue, removed: seq<nat>, selected: Queue, n: nat)
    requires Distinct(queue) && n <= |queue|
    requires || (removed == [] && selected == Backwards(queue, n))
             || (n < |queue| && removed == [queue[n].0] && selected == Backwards(queue, n + 1))
    ensures var rest := ErasedAll(queue, removed);
      && |rest| - |selected| == n && rest[..n] == queue[..n]
      && forall i :: 0 <= i < |selected| ==> selected[i] == rest[|rest| - 1 - i]
  {
    if removed != [] {
      assert removed[..0] == [];
      ErasedAt(queue, n);
    }
  }

  lemma {:induction false} StartAtLeast(p: nat, ps: nat)
    requires ps > 0
    ensures p <= Start(p, ps)
  {
    if p > 0 {
      StartAtLeast(p - 1, ps);
    }
  }

  /** Once the pages at the back of a queue are gone, and perhaps others, what is left is from its front. */
  lemma {:induction false} LeftInFront(queue: Queue, rest: Queue, selected: Queue, left: Queue, n: nat)
    requires Distinct(left) && Distinct(queue) && n <= |queue| && |rest| - |selected| == n && rest[..n] == queue[..n]
    requires forall i :: 0 <= i < |selected| ==> selected[i] == rest[|rest| - 1 - i]
    requires forall e :: e in left ==> e in rest
    requires forall e, k :: e in left && 0 <= k < |selected| ==> e.0 != selected[k].0
    ensures forall e :: e in left ==> e in queue[..n]
    ensures Sum(left) <= Sum(queue[..n])
  {
    forall i | n <= i < |rest| ensures rest[i] == selected[|rest| - 1 - i] {}
    forall e | e in left ensures e in queue[..n] {
      var i :| 0 <= i < |rest| && rest[i] == e;
      assert queue[..n][i] == e;
    }
    SumSubset(left, queue[..n]);
  }
}
