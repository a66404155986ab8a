/**
 * The allocator that asks the system for memory, with its checked map of what is mapped. Addresses are counted in
 * memory pages. Models MemoryAllocator.
 */
module MemoryAllocators {
  import opened Bytes

  /** A run of memory pages. */
  datatype Block = Block(ptr: nat, pages: nat) {
    function End(): nat { ptr + pages }

    predicate Has(page: nat) { ptr <= page < ptr + pages }

    predicate Within(b: Block) { b.ptr <= ptr && ptr + pages <= b.ptr + b.pages }

    predicate Apart(b: Block) { ptr + pages <= b.ptr || b.ptr + b.pages <= ptr }
  }

  function Span(b: Block): set<nat> { set a: nat | b.ptr <= a < b.ptr + b.pages && b.Has(a) }

  /** The map of what is mapped: where each run starts, and how many pages it has. Address 0 is the null pointer. */
  type AllocMap = map<nat, nat>

  function Entry(m: AllocMap, start: nat): Block
    requires start in m
  {
    Block(start, m[start])
  }

  ghost predicate Proper(m: AllocMap) {
    && (forall s: nat :: s in m ==> s > 0 && m[s] > 0)
    && (forall s: nat, t: nat :: s in m && t in m && s < t ==> s + m[s] <= t)
  }

  /** A block lies in one run. */
  ghost predicate Inside(m: AllocMap, b: Block) { exists s: nat :: s in m && b.Within(Entry(m, s)) }

  function Mapped(m: AllocMap): set<nat> { set s: nat, a: nat | s in m && s <= a < s + m[s] && Entry(m, s).Has(a) :: a }

  lemma MappedIsInside(m: AllocMap, a: nat)
    ensures a in Mapped(m) <==> Inside(m, Block(a, 1))
  {
    if a in Mapped(m) {
      var s: nat :| s in m && Entry(m, s).Has(a);
      var run := Entry(m, s);
      assert run.Has(a);
      assert Block(a, 1).Within(run);
    }
    if Inside(m, Block(a, 1)) {
      var s: nat :| s in m && Block(a, 1).Within(Entry(m, s));
      assert Entry(m, s).Has(a);
    }
  }

  /** The runs that are left when a block is taken out of the run that starts at s. */
  function Freed(m: AllocMap, s: nat, b: Block): AllocMap
    requires s in m && b.Within(Entry(m, s))
  {
    var rest := m - {s};
    var before := if s < b.ptr then rest[s := b.ptr - s] else rest;
    if b.End() < s + m[s] then before[b.End() := s + m[s] - b.End()] else before
  }

  lemma FreedIsProper(m: AllocMap, s: nat, b: Block)
    requires Proper(m) && s in m && b.Within(Entry(m, s))
    ensures Proper(Freed(m, s, b))
  {
    var m' := Freed(m, s, b);
    forall t: nat | t in m' ensures t > 0 && m'[t] > 0 && FromRun(m, s, b, t) && t + m'[t] <= EndOf(m, s, b, t) {}
    forall t: nat, u: nat | t in m' && u in m' && t < u ensures t + m'[t] <= u {
      assert FromRun(m, s, b, t) && FromRun(m, s, b, u);
    }
  }

  /** A run of the new map starts where a run did, or behind the freed block. */
  predicate FromRun(m: AllocMap, s: nat, b: Block, t: nat) { t == b.End() || t in m }

  function EndOf(m: AllocMap, s: nat, b: Block, t: nat): nat
    requires s in m && FromRun(m, s, b, t)
  {
    if t == b.End() && t < s + m[s] then s + m[s] else if t == s then b.ptr else if t in m then t + m[t] else t
  }

  /** What is in one run afterwards is exactly what was in one run before and does not touch the freed block. */
  lemma FreedInside(m: AllocMap, s: nat, b: Block, c: Block)
    requires Proper(m) && s in m && b.Within(Entry(m, s)) && c.pages > 0
    ensures Inside(Freed(m, s, b), c) <==> Inside(m, c) && c.Apart(b)
  {
    if Inside(Freed(m, s, b), c) {
      WasInside(m, s, b, c);
    }
    if Inside(m, c) && c.Apart(b) {
      StaysInside(m, s, b, c);
    }
  }

  lemma WasInside(m: AllocMap, s: nat, b: Block, c: Block)
    requires Proper(m) && s in m && b.Within(Entry(m, s)) && c.pages > 0 && Inside(Freed(m, s, b), c)
    ensures Inside(m, c) && c.Apart(b)
  {
    var m' := Freed(m, s, b);
    var t: nat :| t in m' && c.Within(Entry(m', t));
    if t == b.End() && b.End() < s + m[s] {
      assert c.Within(Entry(m, s));
    } else if t == s && s < b.ptr {
      assert c.Within(Entry(m, s));
    } else {
      assert t in m && t != s && c.Within(Entry(m, t));
    }
  }

  lemma StaysInside(m: AllocMap, s: nat, b: Block, c: Block)
    requires Proper(m) && s in m && b.Within(Entry(m, s)) && c.pages > 0 && Inside(m, c) && c.Apart(b)
    ensures Inside(Freed(m, s, b), c)
  {
    var m' := Freed(m, s, b);
    var t: nat :| t in m && c.Within(Entry(m, t));
    if t != s {
      assert t in m' && c.Within(Entry(m', t));
    } else if c.ptr + c.pages <= b.ptr {
      assert s in m' && c.Within(Entry(m', s));
    } else {
      assert b.End() in m' && c.Within(Entry(m', b.End()));
    }
  }

  ghost predicate TakenOut(m: AllocMap, m': AllocMap, b: Block) {
    forall c: Block :: c.pages > 0 ==> (Inside(m', c) <==> Inside(m, c) && c.Apart(b))
  }

  lemma FreedKeeps(m: AllocMap, s: nat, b: Block)
    requires Proper(m) && s in m && b.Within(Entry(m, s))
    ensures Proper(Freed(m, s, b)) && TakenOut(m, Freed(m, s, b), b)
  {
    FreedIsProper(m, s, b);
    forall c: Block | c.pages > 0 ensures Inside(Freed(m, s, b), c) <==> Inside(m, c) && c.Apart(b) {
      FreedInside(m, s, b, c);
    }
  }

  predicate IsLast(m: AllocMap, ptr: nat, s: nat) { s <= ptr && forall t: nat | t in m :: t <= ptr ==> t <= s }

  /** The last run that starts at or before a block is one that the block lies in. */
  lemma RunOf(m: AllocMap, b: Block) returns (s: nat)
    requires Proper(m) && Inside(m, b)
    ensures s in m && b.Within(Entry(m, s)) && IsLast(m, b.ptr, s)
  {
    s :| s in m && b.Within(Entry(m, s));
    if b.ptr in m {
      s := b.ptr;
    }
  }

  /** Exactly the pages of the block are unmapped. */
  lemma FreedMapped(m: AllocMap, s: nat, b: Block)
    requires Proper(m) && s in m && b.Within(Entry(m, s))
    ensures Mapped(Freed(m, s, b)) == Mapped(m) - Span(b)
    ensures Span(b) <= Mapped(m)
  {
    forall a: nat ensures a in Mapped(Freed(m, s, b)) <==> a in Mapped(m) && !b.Has(a) {
      MappedIsInside(m, a);
      MappedIsInside(Freed(m, s, b), a);
      FreedInside(m, s, b, Block(a, 1));
    }
    forall a | b.Has(a) ensures a in Mapped(m) {
      assert Entry(m, s).Has(a);
    }
  }

  lemma {:induction false} SpanSize(b: Block)
    ensures |Span(b)| == b.pages
    decreases b.pages
  {
    if b.pages > 0 {
      var rest := Block(b.ptr + 1, b.pages - 1);
      forall a ensures a in Span(b) <==> a == b.ptr || a in Span(rest) {
        assert b.Has(a) <==> a == b.ptr || rest.Has(a);
      }
      assert Span(b) == {b.ptr} + Span(rest);
      SpanSize(rest);
    } else {
      assert Span(b) == {};
    }
  }

  /** A block that touches nothing mapped. */
  predicate Unmapped(m: AllocMap, b: Block) { forall s: nat | s in m :: Entry(m, s).Apart(b) }

  /** The map with a new run. */
  lemma AllocatedMap(m: AllocMap, b: Block)
    requires Proper(m) && Unmapped(m, b) && b.ptr > 0 && b.pages > 0
    ensures b.ptr !in m && Proper(m[b.ptr := b.pages])
    ensures Mapped(m[b.ptr := b.pages]) == Mapped(m) + Span(b) && Mapped(m) !! Span(b)
    ensures forall c :: Inside(m, c) ==> Inside(m[b.ptr := b.pages], c)
  {
    var m' := m[b.ptr := b.pages];
    assert b.ptr in m ==> Entry(m, b.ptr).Apart(b);
    forall s: nat | s in m ensures s in m' && Entry(m', s) == Entry(m, s) && Entry(m, s).Apart(b) {}
    assert Entry(m', b.ptr) == b;
    forall c | Inside(m, c) ensures Inside(m', c) {
      var s: nat :| s in m && c.Within(Entry(m, s));
      assert c.Within(Entry(m', s));
    }
    forall a: nat ensures a in Mapped(m') <==> a in Mapped(m) || b.Has(a) {
      if a in Mapped(m) {
        var s: nat :| s in m && Entry(m, s).Has(a);
        assert Entry(m', s).Has(a);
      }
      if b.Has(a) {
        assert Entry(m', b.ptr).Has(a);
      }
    }
  }

  /** The system always has room somewhere: beyond all that is mapped. */
  lemma {:induction false} RoomBeyond(m: AllocMap, pages: nat) returns (p: nat)
    ensures p > 0 && forall q :: q >= p ==> Unmapped(m, Block(q, pages))
    decreases |m|
  {
    if m == map[] {
      p := 1;
    } else {
      var s: nat :| s in m;
      var rest := m - {s};
      var q := RoomBeyond(rest, pages);
      p := Max(q, s + m[s]);
      forall q' | q' >= p ensures Unmapped(m, Block(q', pages)) {
        assert Unmapped(rest, Block(q', pages));
        forall t: nat | t in m ensures Entry(m, t).Apart(Block(q', pages)) {
          if t != s { assert Entry(rest, t) == Entry(m, t); }
        }
      }
    }
  }

  class MemoryAllocator {
    const pageSize: nat
    var allocMap: AllocMap

    ghost predicate Valid()
      reads this
    {
      Proper(allocMap)
    }

    constructor (pageSize: nat)
      ensures Valid() && this.pageSize == pageSize && allocMap == map[]
    {
      this.pageSize, allocMap := pageSize, map[];
    }

    /** The system chooses where: anywhere that is not mapped yet. */
    method Alloc(pages: nat) returns (ptr: nat)
      requires Valid()
      modifies this
      ensures Valid()
      ensures pages == 0 ==> ptr == 0 && allocMap == old(allocMap)
      ensures pages > 0 ==>
                ptr > 0 && Unmapped(old(allocMap), Block(ptr, pages)) && allocMap == old(allocMap)[ptr := pages]
    {
      if pages == 0 {
        return 0;
      }
      ghost var room := RoomBeyond(allocMap, pages);
      assert Unmapped(allocMap, Block(room, pages));
      var p: nat :| p > 0 && Unmapped(allocMap, Block(p, pages));
      ptr := p;
      AllocatedMap(allocMap, Block(ptr, pages));
      allocMap := allocMap[ptr := pages];
    }

    /**
     * Gives part of a run back. The requires is what the program asserts: the range lies in one run. Without any pages
     * nothing is unmapped, but the entry of the run is split in two at the address.
     */
    method Free(ptr: nat, pages: nat)
      requires Valid()
      requires ptr != 0 ==> Inside(allocMap, Block(ptr, pages))
      modifies this
      ensures Valid()
      ensures ptr == 0 ==> allocMap == old(allocMap)
      ensures ptr != 0 ==> Mapped(allocMap) == Mapped(old(allocMap)) - Span(Block(ptr, pages))
      ensures ptr != 0 ==> TakenOut(old(allocMap), allocMap, Block(ptr, pages))
    {
      if ptr == 0 {
        return;
      }
      ghost var b := Block(ptr, pages);
      ghost var s := RunOf(allocMap, b);
      var start := LastAtOrBefore(allocMap, ptr);
      assert start == s;
      FreedMapped(allocMap, s, b);
      FreedKeeps(allocMap, s, b);
      allocMap := WithoutRange(allocMap, start, ptr, pages);
    }

    /** The last run that starts at or before the address. */
    static method LastAtOrBefore(m: AllocMap, ptr: nat) returns (start: nat)
      requires exists s: nat :: s in m && IsLast(m, ptr, s)
      ensures start in m && IsLast(m, ptr, start)
    {
      start :| start in m && IsLast(m, ptr, start);
    }

    /** Replaces a run by what is left of it on either side. */
    static method WithoutRange(m: AllocMap, start: nat, ptr: nat, pages: nat) returns (m': AllocMap)
      requires start in m && Block(ptr, pages).Within(Entry(m, start))
      ensures m' == Freed(m, start, Block(ptr, pages))
    {
      hide Entry;
      var entryPages := m[start];
      ghost var rest := m - {start};
      m' := m - {start};
      if start < ptr {
        m' := m'[start := ptr - start];
      }
      ghost var before := if start < ptr then rest[start := ptr - start] else rest;
      assert m' == before;
      var afterStart, afterEnd := ptr + pages, start + entryPages;
      if afterEnd > afterStart {
        m' := m'[afterStart := afterEnd - afterStart];
      }
      assert m' == if afterEnd > afterStart then before[afterStart := afterEnd - afterStart] else before;
    }
  }
}
