/**
 * A pool of freed memory in front of the allocator: best fit by size and newest first when memory is asked for, oldest
 * first when the pool is cut down. Models CachingAllocator.
 */
module CachingAllocators {
  import opened Bytes
  import opened MemoryAllocators
  import opened OrderedMaps

  /** The free queue: address and size, most recently freed first. */
  type Queue = seq<(nat, nat)>

  function BlockOf(e: (nat, nat)): Block { Block(e.0, e.1) }

  function Pool(queue: Queue): set<Block> { set e | e in queue :: BlockOf(e) }

  function Total(queue: Queue): nat { if queue == [] then 0 else queue[0].1 + Total(queue[1..]) }

  function Cut(queue: Queue, i: nat): Queue
    requires i < |queue|
  {
    queue[..i] + queue[i + 1..]
  }

  // ---------------------------------------------------------------------------------------------
  // Blocks that share out the mapped memory

  ghost predicate Held(blocks: set<Block>, a: nat) { exists b :: b in blocks && b.Has(a) }

  ghost predicate Disjoint(blocks: set<Block>) {
    && (forall b :: b in blocks ==> b.ptr > 0 && b.pages > 0)
    && (forall b, c :: b in blocks && c in blocks && b != c ==> b.Apart(c))
  }

  ghost predicate InRuns(blocks: set<Block>, m: AllocMap) { forall b :: b in blocks ==> Inside(m, b) }

  ghost predicate AllHeld(blocks: set<Block>, m: AllocMap) { forall a: nat :: a in Mapped(m) ==> Held(blocks, a) }

  /** The blocks are disjoint, each lies in one mapped run, and together they are all that is mapped. */
  ghost predicate Separated(blocks: set<Block>, m: AllocMap) {
    Proper(m) && Disjoint(blocks) && InRuns(blocks, m) && AllHeld(blocks, m)
  }

  /** What is left of a block on either side of a part of it. */
  function Rest(c: Block, b: Block): set<Block>
    requires b.Within(c)
  {
    (if c.ptr < b.ptr then {Block(c.ptr, b.ptr - c.ptr)} else {})
    + (if b.End() < c.End() then {Block(b.End(), c.End() - b.End())} else {})
  }

  lemma PiecesDisjoint(blocks: set<Block>, c: Block, b: Block)
    requires Disjoint(blocks) && c in blocks && b.Within(c) && b.pages > 0
    ensures Disjoint(blocks - {c} + Rest(c, b) + {b})
    ensures b !in blocks - {c} + Rest(c, b) && (blocks - {c}) !! Rest(c, b)
    ensures forall x :: x in blocks - {c} ==> x.Apart(b) && x.ptr != b.ptr
    ensures forall x, y :: x in blocks - {c} && y in Rest(c, b) ==> x.ptr != y.ptr
  {
    forall x | x in Rest(c, b) + {b} ensures x.ptr > 0 && x.pages > 0 && x.Within(c) {}
    forall x, y | x in blocks - {c} && y in Rest(c, b) + {b} ensures x.Apart(y) && x.ptr != y.ptr && x.pages > 0 {
      assert x.Apart(c);
    }
  }

  lemma PiecesHeld(blocks: set<Block>, c: Block, b: Block, a: nat)
    requires c in blocks && b.Within(c) && Held(blocks, a)
    ensures Held(blocks - {c} + Rest(c, b) + {b}, a)
  {
    var blocks' := blocks - {c} + Rest(c, b) + {b};
    var x :| x in blocks && x.Has(a);
    if x != c {
      assert x in blocks' && x.Has(a);
    } else if a < b.ptr {
      assert Block(c.ptr, b.ptr - c.ptr) in blocks' && Block(c.ptr, b.ptr - c.ptr).Has(a);
    } else if a < b.End() {
      assert b in blocks' && b.Has(a);
    } else {
      assert Block(b.End(), c.End() - b.End()) in blocks' && Block(b.End(), c.End() - b.End()).Has(a);
    }
  }

  /** Cutting a block into pieces changes nothing else. */
  lemma PiecesKeep(blocks: set<Block>, m: AllocMap, c: Block, b: Block)
    requires Separated(blocks, m) && c in blocks && b.Within(c) && b.pages > 0
    ensures Separated(blocks - {c} + Rest(c, b) + {b}, m)
  {
    PiecesDisjoint(blocks, c, b);
    forall x | x in Rest(c, b) + {b} ensures Inside(m, x) {
      var s: nat :| s in m && c.Within(Entry(m, s));
      assert x.Within(Entry(m, s));
    }
    forall a: nat | a in Mapped(m) ensures Held(blocks - {c} + Rest(c, b) + {b}, a) {
      PiecesHeld(blocks, c, b, a);
    }
  }

  /** A new run of the system is a block of its own. */
  lemma NewRunKeeps(blocks: set<Block>, m: AllocMap, b: Block)
    requires Separated(blocks, m) && Unmapped(m, b) && b.ptr > 0 && b.pages > 0
    ensures Separated(blocks + {b}, m[b.ptr := b.pages])
    ensures forall x :: x in blocks ==> x.Apart(b) && x != b
  {
    hide Proper;
    var m' := m[b.ptr := b.pages];
    AllocatedMap(m, b);
    hide Mapped;
    forall x | x in blocks ensures x.Apart(b) && x != b && Inside(m', x) {
      var s: nat :| s in m && x.Within(Entry(m, s));
      assert Entry(m, s).Apart(b);
    }
    assert b.Within(Entry(m', b.ptr));
    forall a: nat | a in Mapped(m') ensures Held(blocks + {b}, a) {
      if a in Mapped(m) {
        var x :| x in blocks && x.Has(a);
        assert x in blocks + {b};
      } else {
        assert b in blocks + {b} && b.Has(a);
      }
    }
  }

  lemma ReturnInRuns(blocks: set<Block>, m: AllocMap, m': AllocMap, b: Block)
    requires Disjoint(blocks) && InRuns(blocks, m) && b in blocks && TakenOut(m, m', b)
    ensures InRuns(blocks - {b}, m')
  {
    forall x | x in blocks - {b} ensures Inside(m', x) {
      assert x.Apart(b) && Inside(m, x) && x.pages > 0;
    }
  }

  /** A block goes back to the system. */
  lemma ReturnKeeps(blocks: set<Block>, m: AllocMap, m': AllocMap, b: Block)
    requires Disjoint(blocks) && AllHeld(blocks, m) && b in blocks && Mapped(m') == Mapped(m) - Span(b)
    ensures Disjoint(blocks - {b}) && AllHeld(blocks - {b}, m')
  {
    forall a: nat | a in Mapped(m') ensures Held(blocks - {b}, a) {
      assert a !in Span(b);
      var x :| x in blocks && x.Has(a);
      assert x in blocks - {b};
    }
  }

  // ---------------------------------------------------------------------------------------------
  // Counting pages

  ghost function Sum(blocks: set<Block>): nat {
    if blocks == {} then 0 else var b :| b in blocks; b.pages + Sum(blocks - {b})
  }

  lemma {:induction false} SumRemove(blocks: set<Block>, b: Block)
    requires b in blocks
    ensures Sum(blocks) == b.pages + Sum(blocks - {b})
  {
    var c :| c in blocks && Sum(blocks) == c.pages + Sum(blocks - {c});
    if c != b {
      SumRemove(blocks - {c}, b);
      SumRemove(blocks - {b}, c);
      assert blocks - {c} - {b} == blocks - {b} - {c};
    }
  }

  lemma SumAdd(blocks: set<Block>, b: Block)
    requires b !in blocks
    ensures Sum(blocks + {b}) == Sum(blocks) + b.pages
  {
    SumRemove(blocks + {b}, b);
    assert blocks + {b} - {b} == blocks;
  }

  /** Disjoint blocks that make up a set of pages have as many pages as the set. */
  lemma {:induction false} SumIsSize(blocks: set<Block>, pages: set<nat>)
    requires Disjoint(blocks) && forall a: nat :: a in pages <==> Held(blocks, a)
    ensures Sum(blocks) == |pages|
    decreases blocks
  {
    if blocks == {} {
      assert pages == {} by { forall a: nat ensures a !in pages { assert !Held(blocks, a); } }
    } else {
      var b :| b in blocks;
      SumRemove(blocks, b);
      forall a: nat ensures a in pages - Span(b) <==> Held(blocks - {b}, a) {
        HeldWithout(blocks, b, a);
        assert b.Has(a) ==> Held(blocks, a);
      }
      SumIsSize(blocks - {b}, pages - Span(b));
      SpanSize(b);
      assert Span(b) <= pages by { forall a | a in Span(b) ensures a in pages { assert b.Has(a); } }
      assert pages == (pages - Span(b)) + Span(b);
    }
  }

  lemma HeldWithout(blocks: set<Block>, b: Block, a: nat)
    requires Disjoint(blocks) && b in blocks
    ensures Held(blocks - {b}, a) <==> Held(blocks, a) && !b.Has(a)
  {
    if Held(blocks - {b}, a) {
      var x :| x in blocks - {b} && x.Has(a);
      assert x in blocks && x.Apart(b);
    }
    if Held(blocks, a) && !b.Has(a) {
      var x :| x in blocks && x.Has(a);
      assert x in blocks - {b};
    }
  }

  /** The mapped pages, counted by the blocks. */
  lemma SeparatedSize(blocks: set<Block>, m: AllocMap)
    requires Separated(blocks, m)
    ensures Sum(blocks) == |Mapped(m)|
  {
    forall a: nat ensures a in Mapped(m) <==> Held(blocks, a) {
      if Held(blocks, a) {
        var b :| b in blocks && b.Has(a);
        var s: nat :| s in m && b.Within(Entry(m, s));
        var run := Entry(m, s);
        assert run.Has(a);
      }
    }
    SumIsSize(blocks, Mapped(m));
  }

  // ---------------------------------------------------------------------------------------------
  // The free queue and the free lists

  lemma {:induction false} TotalCut(queue: Queue, i: nat)
    requires i < |queue|
    ensures Total(Cut(queue, i)) == Total(queue) - queue[i].1
  {
    if i == 0 {
      assert Cut(queue, 0) == queue[1..];
    } else {
      TotalCut(queue[1..], i - 1);
      assert Cut(queue, i)[1..] == Cut(queue[1..], i - 1);
    }
  }

  lemma PoolCut(queue: Queue, i: nat)
    requires Distinct(queue) && i < |queue|
    ensures Distinct(Cut(queue, i)) && Pool(Cut(queue, i)) == Pool(queue) - {BlockOf(queue[i])}
  {
    CutKeeps(queue, i);
  }

  lemma PoolPush(queue: Queue, e: (nat, nat))
    ensures Pool([e] + queue) == Pool(queue) + {BlockOf(e)} && Total([e] + queue) == Total(queue) + e.1
  {
    assert ([e] + queue)[1..] == queue;
    forall x ensures x in [e] + queue <==> x == e || x in queue {}
  }

  /** The addresses in the queue that have the size, in the order of the queue. */
  function Ptrs(queue: Queue, size: nat): seq<nat> {
    if queue == [] then [] else (if queue[0].1 == size then [queue[0].0] else []) + Ptrs(queue[1..], size)
  }

  function Removed(list: seq<nat>, ptr: nat): seq<nat> {
    if list == [] then [] else if list[0] == ptr then list[1..] else [list[0]] + Removed(list[1..], ptr)
  }

  /** The lists hold what the queue holds, sorted by size, and none is empty. */
  ghost predicate Listed(lists: map<nat, seq<nat>>, queue: Queue) {
    forall size: nat :: ListedSize(lists, queue, size)
  }

  ghost predicate ListedSize(lists: map<nat, seq<nat>>, queue: Queue, size: nat) {
    if size in lists then lists[size] == Ptrs(queue, size) && lists[size] != [] else Ptrs(queue, size) == []
  }

  function PushList(lists: map<nat, seq<nat>>, ptr: nat, size: nat): map<nat, seq<nat>> {
    lists[size := [ptr] + (if size in lists then lists[size] else [])]
  }

  lemma PushListed(lists: map<nat, seq<nat>>, queue: Queue, ptr: nat, size: nat)
    requires Listed(lists, queue)
    ensures Listed(PushList(lists, ptr, size), [(ptr, size)] + queue)
  {
    var queue' := [(ptr, size)] + queue;
    assert queue'[1..] == queue;
    forall n: nat ensures ListedSize(PushList(lists, ptr, size), queue', n) {
      assert ListedSize(lists, queue, n);
    }
  }

  /** Takes an address off its list, and an empty list off the table. */
  function DropList(lists: map<nat, seq<nat>>, ptr: nat, size: nat): map<nat, seq<nat>>
    requires size in lists
  {
    var list := Removed(lists[size], ptr);
    if list == [] then lists - {size} else lists[size := list]
  }

  lemma {:induction false} PtrsOfListed(queue: Queue, size: nat, ptr: nat)
    ensures ptr in Ptrs(queue, size) <==> (ptr, size) in queue
  {
    if queue != [] {
      PtrsOfListed(queue[1..], size, ptr);
      assert queue == [queue[0]] + queue[1..];
      assert (ptr, size) in queue <==> (ptr, size) == queue[0] || (ptr, size) in queue[1..];
    }
  }

  lemma {:induction false} PtrsCut(queue: Queue, i: nat, size: nat)
    requires Distinct(queue) && i < |queue|
    ensures Ptrs(Cut(queue, i), size)
         == if size == queue[i].1 then Removed(Ptrs(queue, size), queue[i].0) else Ptrs(queue, size)
  {
    if i == 0 {
      assert Cut(queue, 0) == queue[1..];
    } else {
      PtrsCut(queue[1..], i - 1, size);
      assert Cut(queue, i)[0] == queue[0] && Cut(queue, i)[1..] == Cut(queue[1..], i - 1);
      PtrsCutStep(queue, i, size);
    }
  }

  lemma PtrsCutStep(queue: Queue, i: nat, size: nat)
    requires Distinct(queue) && 0 < i < |queue|
    ensures Removed(Ptrs(queue, size), queue[i].0)
         == (if queue[0].1 == size then [queue[0].0] else []) + Removed(Ptrs(queue[1..], size), queue[i].0)
  {
    assert queue[0].0 != queue[i].0;
    if queue[0].1 == size {
      assert Ptrs(queue, size) == [queue[0].0] + Ptrs(queue[1..], size);
    } else {
      assert Ptrs(queue, size) == Ptrs(queue[1..], size);
    }
  }

  lemma DropListed(lists: map<nat, seq<nat>>, queue: Queue, i: nat)
    requires Listed(lists, queue) && Distinct(queue) && i < |queue|
    ensures queue[i].1 in lists && queue[i].0 in lists[queue[i].1]
    ensures Listed(DropList(lists, queue[i].0, queue[i].1), Cut(queue, i))
  {
    var ptr, size := queue[i].0, queue[i].1;
    PtrsOfListed(queue, size, ptr);
    assert ListedSize(lists, queue, size);
    forall n: nat ensures ListedSize(DropList(lists, ptr, size), Cut(queue, i), n) {
      assert ListedSize(lists, queue, n);
      PtrsCut(queue, i, n);
    }
  }

  /** The head of a list is the newest block of that size. */
  lemma {:induction false} HeadIsNewest(queue: Queue, size: nat) returns (i: nat)
    requires Ptrs(queue, size) != []
    ensures i < |queue| && queue[i] == (Ptrs(queue, size)[0], size) && forall j :: 0 <= j < i ==> queue[j].1 != size
  {
    if queue[0].1 == size {
      i := 0;
    } else {
      i := HeadIsNewest(queue[1..], size);
      i := i + 1;
    }
  }

  /** The smallest blocks that are big enough, and the newest of these. */
  ghost predicate BestFit(queue: Queue, pages: nat, i: nat) {
    && i < |queue| && queue[i].1 >= pages
    && forall j :: 0 <= j < |queue| && queue[j].1 >= pages ==>
            queue[i].1 < queue[j].1 || (queue[i].1 == queue[j].1 && i <= j)
  }

  lemma ListedHead(lists: map<nat, seq<nat>>, queue: Queue, size: nat) returns (i: nat)
    requires Listed(lists, queue) && size in lists
    ensures lists[size] != [] && i < |queue| && queue[i] == (lists[size][0], size)
  {
    assert ListedSize(lists, queue, size);
    i := HeadIsNewest(queue, size);
  }

  lemma NothingListed(queue: Queue)
    requires Listed(map[], queue)
    ensures queue == []
  {
    NothingListedAt(queue);
  }

  lemma NothingListedAt(queue: Queue)
    ensures queue != [] ==> !ListedSize(map[], queue, queue[0].1)
  {
    if queue != [] {
      PtrsOfListed(queue, queue[0].1, queue[0].0);
    }
  }

  /** What the lists find is the best fit. */
  lemma ListsFindBestFit(lists: map<nat, seq<nat>>, queue: Queue, pages: nat, size: nat) returns (i: nat)
    requires Listed(lists, queue) && size in lists && size >= pages
    requires forall n: nat :: n in lists && n >= pages ==> size <= n
    ensures BestFit(queue, pages, i) && lists[size] != [] && queue[i] == (lists[size][0], size)
  {
    assert ListedSize(lists, queue, size);
    i := HeadIsNewest(queue, size);
    forall j | 0 <= j < |queue| && queue[j].1 >= pages ensures size < queue[j].1 || (size == queue[j].1 && i <= j) {
      PtrsOfListed(queue, queue[j].1, queue[j].0);
      assert ListedSize(lists, queue, queue[j].1);
    }
  }

  /** A block that has just been freed is the best fit for its own size, and taking it undoes the free. */
  lemma JustFreedIsReused(queue: Queue, ptr: nat, pages: nat, i: nat)
    ensures BestFit([(ptr, pages)] + queue, pages, i) <==> i == 0
    ensures Cut([(ptr, pages)] + queue, 0) == queue
  {
    var queue' := [(ptr, pages)] + queue;
    assert queue'[0].1 == pages;
  }

  lemma ListsFindNothing(lists: map<nat, seq<nat>>, queue: Queue, pages: nat)
    requires Listed(lists, queue) && forall n: nat :: n in lists ==> n < pages
    ensures forall i: nat :: !BestFit(queue, pages, i)
  {
    forall i | 0 <= i < |queue| ensures queue[i].1 < pages {
      PtrsOfListed(queue, queue[i].1, queue[i].0);
      assert ListedSize(lists, queue, queue[i].1);
    }
  }

  // ---------------------------------------------------------------------------------------------
  // What clients hold, what the pool holds, and what is mapped

  /** The blocks that clients hold and those in the pool share out the mapped memory. */
  ghost predicate Layout(live: set<Block>, queue: Queue, m: AllocMap) {
    Separated(live + Pool(queue), m) && live !! Pool(queue) && Distinct(queue)
  }

  lemma LayoutIsProper(live: set<Block>, queue: Queue, m: AllocMap)
    requires Layout(live, queue, m)
    ensures Proper(m) && Distinct(queue) && Disjoint(live)
  {
    assert forall b :: b in live ==> b in live + Pool(queue);
  }

  /** The range that the allocator below checks: a pooled block lies in one run. */
  lemma PooledInside(live: set<Block>, queue: Queue, m: AllocMap, i: nat)
    requires Layout(live, queue, m) && i < |queue|
    ensures queue[i].0 > 0 && queue[i].1 > 0 && Inside(m, BlockOf(queue[i]))
  {
    assert BlockOf(queue[i]) in live + Pool(queue);
  }

  lemma LayoutSize(live: set<Block>, queue: Queue, m: AllocMap)
    requires Layout(live, queue, m)
    ensures |Mapped(m)| == Sum(live) + Total(queue)
  {
    SeparatedSize(live + Pool(queue), m);
    SumOfPool(live, queue);
  }

  lemma {:induction false} SumOfPool(live: set<Block>, queue: Queue)
    requires live !! Pool(queue) && Distinct(queue)
    ensures Sum(live + Pool(queue)) == Sum(live) + Total(queue)
  {
    if queue == [] {
      assert live + Pool(queue) == live;
    } else {
      var b := BlockOf(queue[0]);
      PoolCut(queue, 0);
      assert Cut(queue, 0) == queue[1..];
      PoolPush(queue[1..], queue[0]);
      assert queue == [queue[0]] + queue[1..];
      SumOfPool(live, queue[1..]);
      assert live + Pool(queue) == live + Pool(queue[1..]) + {b};
      SumAdd(live + Pool(queue[1..]), b);
    }
  }

  /** What the queue is left with when the front of one of its blocks is taken: the remainder counts as newly freed. */
  function Taken(queue: Queue, i: nat, pages: nat): Queue
    requires i < |queue| && pages <= queue[i].1
  {
    (if pages < queue[i].1 then [(queue[i].0 + pages, queue[i].1 - pages)] else []) + Cut(queue, i)
  }

  lemma TakenPool(queue: Queue, i: nat, pages: nat)
    requires Distinct(queue) && i < |queue| && 0 < pages <= queue[i].1
    ensures Pool(Taken(queue, i, pages))
         == Pool(queue) - {BlockOf(queue[i])} + Rest(BlockOf(queue[i]), Block(queue[i].0, pages))
    ensures Total(Taken(queue, i, pages)) == Total(queue) - pages
  {
    hide Distinct, Pool, Total;
    PoolCut(queue, i);
    TotalCut(queue, i);
    if pages < queue[i].1 {
      var e := (queue[i].0 + pages, queue[i].1 - pages);
      PoolPush(Cut(queue, i), e);
      assert Rest(BlockOf(queue[i]), Block(queue[i].0, pages)) == {BlockOf(e)};
    } else {
      assert Taken(queue, i, pages) == Cut(queue, i);
      assert Rest(BlockOf(queue[i]), Block(queue[i].0, pages)) == {};
    }
  }

  /** The lists after the newest block of a size has been taken off, and the remainder put back under its own size. */
  function RecycledLists(lists: map<nat, seq<nat>>, size: nat, pages: nat): map<nat, seq<nat>>
    requires size in lists && lists[size] != [] && 0 < pages <= size
  {
    var popped := lists[size := lists[size][1..]];
    var pushed := if size != pages then PushList(popped, lists[size][0] + pages, size - pages) else popped;
    if pushed[size] == [] then pushed - {size} else pushed
  }

  lemma RecycleListed(lists: map<nat, seq<nat>>, queue: Queue, i: nat, pages: nat)
    requires Listed(lists, queue) && Distinct(queue) && i < |queue| && 0 < pages <= queue[i].1
    requires queue[i].1 in lists && lists[queue[i].1] != [] && lists[queue[i].1][0] == queue[i].0
    ensures Listed(RecycledLists(lists, queue[i].1, pages), Taken(queue, i, pages))
  {
    hide Listed;
    var (ptr, size) := (queue[i].0, queue[i].1);
    DropListed(lists, queue, i);
    var dropped := DropList(lists, ptr, size);
    if size != pages {
      PushListed(dropped, Cut(queue, i), ptr + pages, size - pages);
      assert RecycledLists(lists, size, pages) == PushList(dropped, ptr + pages, size - pages);
    } else {
      assert Taken(queue, i, pages) == Cut(queue, i);
      assert RecycledLists(lists, size, pages) == dropped;
    }
  }

  lemma LayoutTake(live: set<Block>, queue: Queue, m: AllocMap, i: nat, pages: nat)
    requires Layout(live, queue, m) && i < |queue| && 0 < pages <= queue[i].1
    ensures Layout(live + {Block(queue[i].0, pages)}, Taken(queue, i, pages), m)
    ensures forall x :: x in live ==> x.Apart(Block(queue[i].0, pages)) && x != Block(queue[i].0, pages)
  {
    hide Separated;
    var c, b := BlockOf(queue[i]), Block(queue[i].0, pages);
    var all, queue' := live + Pool(queue), Taken(queue, i, pages);
    assert c in Pool(queue);
    PiecesKeep(all, m, c, b);
    SeparatedPieces(all, m, c, b);
    TakenPool(queue, i, pages);
    PoolCut(queue, i);
    assert live + {b} + Pool(queue') == all - {c} + Rest(c, b) + {b};
    TakenDistinct(all, queue, c, i, pages);
  }

  lemma SeparatedPieces(blocks: set<Block>, m: AllocMap, c: Block, b: Block)
    requires Separated(blocks, m) && c in blocks && b.Within(c) && b.pages > 0
    ensures b !in blocks - {c} + Rest(c, b) && (blocks - {c}) !! Rest(c, b)
    ensures forall x :: x in blocks - {c} ==> x.Apart(b) && x.ptr != b.ptr
    ensures forall x, y :: x in blocks - {c} && y in Rest(c, b) ==> x.ptr != y.ptr
  {
    PiecesDisjoint(blocks, c, b);
  }

  lemma TakenDistinct(blocks: set<Block>, queue: Queue, c: Block, i: nat, pages: nat)
    requires i < |queue| && c == BlockOf(queue[i]) && 0 < pages <= queue[i].1 && Distinct(queue)
    requires Pool(queue) <= blocks
    requires forall x, y :: x in blocks - {c} && y in Rest(c, Block(queue[i].0, pages)) ==> x.ptr != y.ptr
    ensures Distinct(Taken(queue, i, pages))
  {
    PoolCut(queue, i);
    var rest := Cut(queue, i);
    forall k | 0 <= k < |rest| ensures pages == queue[i].1 || rest[k].0 != queue[i].0 + pages {
      assert BlockOf(rest[k]) in Pool(rest);
      assert pages < queue[i].1 ==> Block(queue[i].0 + pages, queue[i].1 - pages) in Rest(c, Block(queue[i].0, pages));
    }
  }

  /** Everything that taking a block off the pool does. */
  lemma RecycledIsBestFit(live: set<Block>, lists: map<nat, seq<nat>>, queue: Queue, m: AllocMap, size: nat, pages: nat)
    returns (i: nat)
    requires Layout(live, queue, m) && Listed(lists, queue)
    requires 0 < pages <= size && size in lists && forall n: nat :: n in lists && n >= pages ==> size <= n
    ensures BestFit(queue, pages, i) && i < |queue| && lists[size] != [] && queue[i] == (lists[size][0], size)
    ensures queue[i].0 > 0
    ensures Erased(queue, queue[i].0) == Cut(queue, i)
    ensures Layout(live + {Block(queue[i].0, pages)}, Taken(queue, i, pages), m)
    ensures Listed(RecycledLists(lists, size, pages), Taken(queue, i, pages))
    ensures Sum(live + {Block(queue[i].0, pages)}) == Sum(live) + pages
    ensures Total(Taken(queue, i, pages)) == Total(queue) - pages
    ensures forall x :: x in live ==> x.Apart(Block(queue[i].0, pages))
  {
    hide Layout, Listed;
    i := ListsFindBestFit(lists, queue, pages, size);
    LayoutIsProper(live, queue, m);
    PooledInside(live, queue, m, i);
    RecycleListed(lists, queue, i, pages);
    LayoutTake(live, queue, m, i, pages);
    TakenPool(queue, i, pages);
    ErasedAt(queue, i);
    SumAdd(live, Block(queue[i].0, pages));
  }

  lemma LayoutMap(live: set<Block>, queue: Queue, m: AllocMap, b: Block)
    requires Layout(live, queue, m) && Unmapped(m, b) && b.ptr > 0 && b.pages > 0
    ensures Layout(live + {b}, queue, m[b.ptr := b.pages])
    ensures forall x :: x in live ==> x.Apart(b) && x != b
  {
    NewRunKeeps(live + Pool(queue), m, b);
    assert live + Pool(queue) + {b} == live + {b} + Pool(queue);
  }

  lemma LayoutGive(live: set<Block>, queue: Queue, m: AllocMap, c: Block, b: Block)
    requires Layout(live, queue, m) && c in live && b.Within(c) && b.pages > 0
    ensures Layout(live - {c} + Rest(c, b), [(b.ptr, b.pages)] + queue, m)
  {
    var all, queue' := live + Pool(queue), [(b.ptr, b.pages)] + queue;
    PiecesKeep(all, m, c, b);
    PiecesDisjoint(all, c, b);
    PoolPush(queue, (b.ptr, b.pages));
    assert live - {c} + Rest(c, b) + Pool(queue') == all - {c} + Rest(c, b) + {b};
    forall e | e in queue ensures e.0 != b.ptr {
      assert BlockOf(e) in all - {c};
    }
  }

  lemma LayoutDiscard(live: set<Block>, queue: Queue, m: AllocMap, m': AllocMap, i: nat)
    requires Layout(live, queue, m) && i < |queue|
    requires Proper(m') && TakenOut(m, m', BlockOf(queue[i])) && Mapped(m') == Mapped(m) - Span(BlockOf(queue[i]))
    ensures Layout(live, Cut(queue, i), m')
  {
    var all, b := live + Pool(queue), BlockOf(queue[i]);
    assert b in Pool(queue);
    ReturnKeeps(all, m, m', b);
    ReturnInRuns(all, m, m', b);
    PoolCut(queue, i);
    assert live + Pool(Cut(queue, i)) == all - {b};
  }

  /** A client gives back a part of what it holds: everything that this changes. */
  lemma GivenBack(live: set<Block>, lists: map<nat, seq<nat>>, queue: Queue, m: AllocMap, c: Block, b: Block)
    requires Layout(live, queue, m) && Listed(lists, queue) && c in live && b.Within(c) && b.pages > 0
    ensures Layout(live - {c} + Rest(c, b), [(b.ptr, b.pages)] + queue, m)
    ensures Listed(PushList(lists, b.ptr, b.pages), [(b.ptr, b.pages)] + queue)
    ensures Sum(live - {c} + Rest(c, b)) == Sum(live) - b.pages
    ensures Total([(b.ptr, b.pages)] + queue) == Total(queue) + b.pages
  {
    LayoutIsProper(live, queue, m);
    LayoutGive(live, queue, m, c, b);
    SumGive(live, c, b);
    PushListed(lists, queue, b.ptr, b.pages);
    PoolPush(queue, (b.ptr, b.pages));
  }

  lemma SumGive(live: set<Block>, c: Block, b: Block)
    requires Disjoint(live) && c in live && b.Within(c) && b.pages > 0
    ensures Sum(live - {c} + Rest(c, b)) == Sum(live) - b.pages
  {
    hide Sum;
    PiecesDisjoint(live, c, b);
    hide Disjoint;
    SumRemove(live, c);
    var before := if c.ptr < b.ptr then {Block(c.ptr, b.ptr - c.ptr)} else {};
    var after := if b.End() < c.End() then {Block(b.End(), c.End() - b.End())} else {};
    if c.ptr < b.ptr {
      SumAdd(live - {c}, Block(c.ptr, b.ptr - c.ptr));
    } else {
      assert live - {c} + before == live - {c};
    }
    if b.End() < c.End() {
      SumAdd(live - {c} + before, Block(b.End(), c.End() - b.End()));
    } else {
      assert live - {c} + before + after == live - {c} + before;
    }
    assert live - {c} + Rest(c, b) == live - {c} + before + after;
  }

  lemma LayoutWithoutPool(live: set<Block>, m: AllocMap)
    requires Layout(live, [], m)
    ensures Separated(live, m) && (live == {} ==> m == map[])
  {
    assert live + Pool([]) == live;
    if live == {} {
      MappedUnlessEmpty(m);
      forall a: nat ensures a !in Mapped(m) {
        assert !Held(live, a);
      }
    }
  }

  lemma MappedUnlessEmpty(m: AllocMap)
    requires Proper(m)
    ensures m == map[] || exists a: nat :: a in Mapped(m)
  {
    if m != map[] {
      var s: nat :| s in m;
      var run := Entry(m, s);
      assert run.Has(s);
      assert s in Mapped(m);
    }
  }

  // ---------------------------------------------------------------------------------------------
  // The allocator

  /** The number of values of size_t. */
  const SIZE_T: nat := 0x1_0000_0000_0000_0000

  function InBytes(pages: nat, pageSize: nat): nat { pages * pageSize }

  lemma BytesAdd(a: nat, b: nat, pageSize: nat)
    ensures InBytes(a + b, pageSize) == InBytes(a, pageSize) + InBytes(b, pageSize) && InBytes(1, pageSize) == pageSize
  {
  }

  lemma EmptyInBytes(pageSize: nat)
    ensures InBytes(Total([]), pageSize) == 0
  {
  }

  /** No front part of the pool is bigger than the pool. */
  lemma {:induction false} PrefixInBytes(queue: Queue, n: nat, pageSize: nat)
    ensures n <= |queue| ==> InBytes(Total(queue[..n]), pageSize) <= InBytes(Total(queue), pageSize)
  {
    if 0 < n <= |queue| {
      assert queue[..n][1..] == queue[1..][..n - 1];
      PrefixInBytes(queue[1..], n - 1, pageSize);
      BytesAdd(queue[0].1, Total(queue[1..][..n - 1]), pageSize);
      BytesAdd(queue[0].1, Total(queue[1..]), pageSize);
    }
  }

  /** Where std::map::lower_bound points to. */
  lemma {:induction false} SmallestFrom(sizes: set<nat>, pages: nat) returns (size: nat)
    requires exists n: nat :: n in sizes && n >= pages
    ensures size in sizes && size >= pages && forall n: nat :: n in sizes && n >= pages ==> size <= n
    decreases sizes
  {
    var n: nat :| n in sizes && n >= pages;
    if exists k: nat :: k in sizes - {n} && k >= pages {
      size := SmallestFrom(sizes - {n}, pages);
      size := Min(size, n);
    } else {
      size := n;
    }
    forall k: nat | k in sizes && k >= pages ensures size <= k {
      if k != n { assert k in sizes - {n}; }
    }
  }

  method LowerBound(lists: map<nat, seq<nat>>, pages: nat) returns (found: Option<nat>)
    ensures found.None? ==> forall n: nat :: n in lists ==> n < pages
    ensures found.Some? ==> found.value in lists && found.value >= pages
    ensures found.Some? ==> forall n: nat :: n in lists && n >= pages ==> found.value <= n
  {
    if n: nat :| n in lists.Keys && n >= pages {
      ghost var smallest := SmallestFrom(lists.Keys, pages);
      assert smallest in lists.Keys;
      var size: nat :| size in lists.Keys && size >= pages && forall k | k in lists.Keys && k >= pages :: size <= k;
      return Some(size);
    }
    return None;
  }

  class CachingAllocator {
    const os: MemoryAllocator
    const baseline: nat
    var curAlloc: nat
    var maxAlloc: nat
    var curFree: nat
    var recycles: nat
    var allocs: nat
    var freeLists: map<nat, seq<nat>>
    var freeQueue: Queue
    /** What clients hold. */
    ghost var live: set<Block>

    ghost predicate Counted()
      reads this
    {
      && curAlloc == InBytes(Sum(live), os.pageSize) && curFree == InBytes(Total(freeQueue), os.pageSize)
      && curAlloc <= maxAlloc
    }

    ghost predicate Valid()
      reads this, os
    {
      Layout(live, freeQueue, os.allocMap) && Listed(freeLists, freeQueue) && Counted()
    }

    constructor (pageSize: nat, baseline: nat)
      ensures Valid() && fresh(os) && os.pageSize == pageSize && this.baseline == baseline
      ensures live == {} && freeQueue == [] && maxAlloc == 0
    {
      os := new MemoryAllocator(pageSize);
      this.baseline := baseline;
      curAlloc, maxAlloc, curFree, recycles, allocs := 0, 0, 0, 0, 0;
      freeLists, freeQueue, live := map[], [], {};
    }

    /**
     * How big the pool may be: by how much memory in use has ever exceeded the baseline, in the arithmetic of size_t.
     */
    function Limit(): (limit: nat)
      reads this
      ensures baseline <= maxAlloc < SIZE_T ==> limit == maxAlloc - baseline
      ensures maxAlloc < baseline < SIZE_T ==> limit == SIZE_T - (baseline - maxAlloc)
    {
      (maxAlloc - baseline) % SIZE_T
    }

    method AddEntry(ptr: nat, pages: nat)
      modifies this`freeLists, this`freeQueue
      ensures freeLists == PushList(old(freeLists), ptr, pages) && freeQueue == [(ptr, pages)] + old(freeQueue)
    {
      freeLists := PushList(freeLists, ptr, pages);
      freeQueue := [(ptr, pages)] + freeQueue;
    }

    /** Gives the block that was freed longest ago back to the system. */
    method PopLastEntry()
      requires Valid() && freeQueue != []
      modifies this`freeLists, this`freeQueue, this`curFree, os
      ensures Valid() && freeQueue == old(freeQueue)[..|old(freeQueue)| - 1]
      ensures Mapped(os.allocMap) == Mapped(old(os.allocMap)) - Span(BlockOf(old(freeQueue)[|old(freeQueue)| - 1]))
    {
      hide Layout, Listed, InBytes, TakenOut, Inside;
      ghost var i := |freeQueue| - 1;
      assert Cut(freeQueue, i) == freeQueue[..i];
      LayoutIsProper(live, freeQueue, os.allocMap);
      PooledInside(live, freeQueue, os.allocMap, i);
      DropListed(freeLists, freeQueue, i);
      TotalCut(freeQueue, i);
      BytesAdd(Total(freeQueue) - freeQueue[i].1, freeQueue[i].1, os.pageSize);
      var ptr: nat, pages: nat := freeQueue[|freeQueue| - 1].0, freeQueue[|freeQueue| - 1].1;
      freeQueue := freeQueue[..|freeQueue| - 1];
      var freeList := Removed(freeLists[pages], ptr);
      curFree := curFree - InBytes(pages, os.pageSize);
      os.Free(ptr, pages);
      freeLists := if freeList == [] then freeLists - {pages} else freeLists[pages := freeList];
      LayoutDiscard(live, old(freeQueue), old(os.allocMap), os.allocMap, i);
    }

    /** Memory that nobody holds: the best fit of the pool, or else new memory of the system. */
    method Alloc(pages: nat) returns (ptr: nat)
      requires Valid()
      modifies this, os
      ensures Valid() && maxAlloc == Max(old(maxAlloc), curAlloc)
      ensures pages > 0 ==> allocs == old(allocs) + 1 && curAlloc == old(curAlloc) + InBytes(pages, os.pageSize)
      ensures pages == 0 ==>
                ptr == 0 && live == old(live) && freeQueue == old(freeQueue) && os.allocMap == old(os.allocMap)
      ensures pages > 0 ==> ptr > 0 && live == old(live) + {Block(ptr, pages)}
      ensures pages > 0 ==> forall b :: b in old(live) ==> b.Apart(Block(ptr, pages))
      ensures pages > 0 && (exists i: nat :: BestFit(old(freeQueue), pages, i)) ==>
        (exists i: nat ::
          && BestFit(old(freeQueue), pages, i)
          && ptr == old(freeQueue)[i].0 && freeQueue == Taken(old(freeQueue), i, pages))
        && os.allocMap == old(os.allocMap) && recycles == old(recycles) + 1
      ensures pages > 0 && !(exists i: nat :: BestFit(old(freeQueue), pages, i)) ==>
        freeQueue == old(freeQueue) && Unmapped(old(os.allocMap), Block(ptr, pages)) && recycles == old(recycles)
    {
      hide Layout, Listed, InBytes, BestFit, Sum, Total, Unmapped;
      if pages == 0 {
        return 0;
      }
      BytesAdd(Sum(live), pages, os.pageSize);
      allocs := allocs + 1;
      curAlloc := curAlloc + InBytes(pages, os.pageSize);
      maxAlloc := Max(curAlloc, maxAlloc);
      var found := LowerBound(freeLists, pages);
      if found.Some? {
        ptr := Recycle(found.value, pages);
        return;
      }
      ListsFindNothing(freeLists, freeQueue, pages);
      LayoutIsProper(live, freeQueue, os.allocMap);
      hide Disjoint, Distinct;
      ptr := os.Alloc(pages);
      var b := Block(ptr, pages);
      LayoutMap(live, freeQueue, old(os.allocMap), b);
      SumAdd(live, b);
      live := live + {b};
    }

    /** Takes the newest block of a size off the pool, and puts back what is not needed of it. */
    method Recycle(size: nat, pages: nat) returns (ptr: nat)
      requires Layout(live, freeQueue, os.allocMap) && Listed(freeLists, freeQueue)
      requires 0 < pages <= size && size in freeLists && forall n: nat :: n in freeLists && n >= pages ==> size <= n
      requires curAlloc == InBytes(Sum(live) + pages, os.pageSize) && curFree == InBytes(Total(freeQueue), os.pageSize)
      requires curAlloc <= maxAlloc
      modifies this`freeLists, this`freeQueue, this`curFree, this`recycles, this`live
      ensures Valid() && live == old(live) + {Block(ptr, pages)} && ptr > 0
      ensures forall b :: b in old(live) ==> b.Apart(Block(ptr, pages))
      ensures exists i: nat ::
        BestFit(old(freeQueue), pages, i) && ptr == old(freeQueue)[i].0 && freeQueue == Taken(old(freeQueue), i, pages)
      ensures recycles == old(recycles) + 1
    {
      hide Layout, Listed, InBytes, BestFit, Disjoint, Distinct, Proper, Sum, Total, Erased;
      ghost var i := RecycledIsBestFit(live, freeLists, freeQueue, os.allocMap, size, pages);
      BytesAdd(Total(freeQueue) - pages, pages, os.pageSize);
      ptr := freeLists[size][0];
      freeLists := freeLists[size := freeLists[size][1..]];
      freeQueue := Erased(freeQueue, ptr);
      curFree := curFree - InBytes(pages, os.pageSize);
      recycles := recycles + 1;
      if size != pages {
        AddEntry(ptr + pages, size - pages);
      }
      if freeLists[size] == [] {
        freeLists := freeLists - {size};
      }
      live := live + {Block(ptr, pages)};
      assert freeQueue == Taken(old(freeQueue), i, pages);
    }

    /**
     * Takes a block, or a part of one, back from the client that holds it. It becomes the newest of the pool, and the
     * oldest are discarded until the pool is within its limit: no more of them than necessary.
     */
    method Free(ptr: nat, pages: nat, ghost owner: Block)
      requires Valid()
      requires ptr != 0 && pages != 0 ==> owner in live && Block(ptr, pages).Within(owner)
      modifies this, os
      ensures Valid() && maxAlloc == old(maxAlloc)
      ensures ptr != 0 && pages != 0 ==> curAlloc == old(curAlloc) - InBytes(pages, os.pageSize)
      ensures ptr == 0 || pages == 0 ==>
                live == old(live) && freeQueue == old(freeQueue) && os.allocMap == old(os.allocMap)
      ensures ptr != 0 && pages != 0 ==>
        var pool := [(ptr, pages)] + old(freeQueue);
        && live == old(live) - {owner} + Rest(owner, Block(ptr, pages))
        && freeQueue <= pool && curFree <= Limit()
        && (freeQueue != pool ==> InBytes(Total(pool[..|freeQueue| + 1]), os.pageSize) > Limit())
        && (maxAlloc < baseline < SIZE_T && InBytes(Total(pool), os.pageSize) <= SIZE_T - baseline ==>
              freeQueue == pool)
    {
      hide Layout, Listed, InBytes, Sum, Total, Rest, Mapped, Span;
      if ptr == 0 || pages == 0 {
        return;
      }
      ghost var b := Block(ptr, pages);
      GivenBack(live, freeLists, freeQueue, os.allocMap, owner, b);
      BytesAdd(Total(freeQueue), pages, os.pageSize);
      BytesAdd(Sum(live) - pages, pages, os.pageSize);
      AddEntry(ptr, pages);
      curFree := curFree + InBytes(pages, os.pageSize);
      curAlloc := curAlloc - InBytes(pages, os.pageSize);
      live := live - {owner} + Rest(owner, b);
      ghost var pool := freeQueue;
      while curFree > Limit()
        invariant curAlloc == old(curAlloc) - InBytes(pages, os.pageSize)
        invariant Valid() && freeQueue <= pool && maxAlloc == old(maxAlloc)
        invariant live == old(live) - {owner} + Rest(owner, b)
        invariant freeQueue != pool ==> InBytes(Total(pool[..|freeQueue| + 1]), os.pageSize) > Limit()
        modifies this, os
        decreases |freeQueue|
      {
        assert pool[..|freeQueue|] == freeQueue;
        EmptyInBytes(os.pageSize);
        PopLastEntry();
      }
      PrefixInBytes(pool, |freeQueue| + 1, os.pageSize);
    }

    /** Between calls the memory that is mapped is what clients hold and what the pool holds, to the byte. */
    lemma MappedBytes()
      requires Valid()
      ensures InBytes(|Mapped(os.allocMap)|, os.pageSize) == curAlloc + curFree
    {
      LayoutSize(live, freeQueue, os.allocMap);
      BytesAdd(Sum(live), Total(freeQueue), os.pageSize);
    }

    /**
     * When the allocator goes, so does the pool; if clients hold nothing any more, all memory is back with the system.
     */
    method Close()
      requires Valid()
      modifies os
      ensures Separated(live, os.allocMap)
      ensures live == {} ==> os.allocMap == map[]
    {
      hide Layout, Listed, InBytes, TakenOut;
      var lists: map<nat, seq<nat>> := freeLists;
      ghost var queue := freeQueue;
      while lists != map[]
        invariant Layout(live, queue, os.allocMap) && Listed(lists, queue)
        modifies os
        decreases |queue|
      {
        var size: nat :| size in lists;
        ghost var i := ListedHead(lists, queue, size);
        LayoutIsProper(live, queue, os.allocMap);
        PooledInside(live, queue, os.allocMap, i);
        DropListed(lists, queue, i);
        ghost var was := os.allocMap;
        var ptr := lists[size][0];
        os.Free(ptr, size);
        LayoutDiscard(live, queue, was, os.allocMap, i);
        lists := DropList(lists, ptr, size);
        queue := Cut(queue, i);
      }
      NothingListed(queue);
      LayoutWithoutPool(live, os.allocMap);
    }
  }
  /** What the wrapped limit means: far below the baseline the pool should be empty, and it keeps what it is given. */
  method KeptBelowBaseline() returns (allocator: CachingAllocator, ptr: nat)
    ensures allocator.maxAlloc < allocator.baseline < SIZE_T && allocator.freeQueue == [(ptr, 1)]
    ensures allocator.curFree == 4096
  {
    hide Layout, Listed, Unmapped, Mapped, Rest;
    allocator := new CachingAllocator(4096, 65536);
    ptr := allocator.Alloc(1);
    assert allocator.live == {Block(ptr, 1)};
    assert Total([(ptr, 1)]) == 1;
    allocator.Free(ptr, 1, Block(ptr, 1));
  }
}
