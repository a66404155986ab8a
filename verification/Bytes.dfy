/** Byte strings with the zero-filling conventions shared by the client cache and the server. */
module Bytes {

  type Byte = bv8

  datatype Option<+T> = None | Some(value: T)

  function Min(a: int, b: int): int { if a < b then a else b }

  function Max(a: int, b: int): int { if a < b then b else a }

  /** The byte at position i of a string that continues with zeros for ever. */
  function ByteOr0(s: seq<Byte>, i: nat): Byte { if i < |s| then s[i] else 0 }

  function Zeros(n: nat): (z: seq<Byte>)
    ensures |z| == n && forall i :: 0 <= i < n ==> z[i] == 0
  {
    seq(n, _ => 0)
  }

  /** Cut or zero-extended to exactly n bytes. */
  function Resized(s: seq<Byte>, n: nat): (r: seq<Byte>)
    ensures |r| == n && forall i :: 0 <= i < n ==> r[i] == ByteOr0(s, i)
  {
    seq(n, (i: nat) => ByteOr0(s, i))
  }

  lemma SliceOfSlice<T>(s: seq<T>, a: nat, b: nat, i: nat, j: nat)
    requires a <= b <= |s| && i <= j <= b - a
    ensures s[a..b][i..j] == s[a + i..a + j]
  {
    var l, r := s[a..b][i..j], s[a + i..a + j];
    assert |l| == |r| && forall k :: 0 <= k < |l| ==> l[k] == r[k];
  }

  /** A write of d at offset off; a write past the end fills the gap with zeros, an empty one does nothing. */
  function Overlay(s: seq<Byte>, off: nat, d: seq<Byte>): (r: seq<Byte>)
    ensures d == [] ==> r == s
    ensures d != [] ==> |r| == Max(|s|, off + |d|)
    ensures forall i :: 0 <= i < |r| ==> r[i] == if off <= i < off + |d| then d[i - off] else ByteOr0(s, i)
  {
    if d == [] then s
    else seq(Max(|s|, off + |d|), (i: nat) => if off <= i < off + |d| then d[i - off] else ByteOr0(s, i))
  }

  lemma OverlayAt(s: seq<Byte>, off: nat, d: seq<Byte>, i: nat)
    ensures ByteOr0(Overlay(s, off, d), i) == if off <= i < off + |d| then d[i - off] else ByteOr0(s, i)
  {
  }

  /** A write at the end keeps all that is there. */
  lemma OverlayAtEnd(s: seq<Byte>, d: seq<Byte>)
    ensures s <= Overlay(s, |s|, d) && Overlay(s, |s|, d) == s + d
  {
  }

  /** A buffer after a piece was copied into it. */
  function Copied(page: seq<Byte>, at: nat, piece: seq<Byte>): (page': seq<Byte>)
    requires at + |piece| <= |page|
    ensures |page'| == |page|
  {
    page[..at] + piece + page[at + |piece|..]
  }

  /** Two adjoining writes are one write of the joined data. */
  lemma OverlayTwice(s: seq<Byte>, off: nat, d: seq<Byte>, e: seq<Byte>)
    ensures Overlay(Overlay(s, off, d), off + |d|, e) == Overlay(s, off, d + e)
  {
    if d == [] {
      assert d + e == e;
    } else if e == [] {
      assert d + e == d;
    } else {
      var one := Overlay(s, off, d + e);
      var two := Overlay(Overlay(s, off, d), off + |d|, e);
      assert |one| == |two|;
      forall i | 0 <= i < |one| ensures one[i] == two[i] {}
    }
  }

  /** The offset of page p: p * ps, kept as a sum so that proofs about pages need no products. */
  function Start(p: nat, ps: nat): nat { if p == 0 then 0 else Start(p - 1, ps) + ps }

  lemma {:induction false} StartIsProduct(p: nat, ps: nat)
    ensures Start(p, ps) == p * ps
  {
    if p > 0 {
      StartIsProduct(p - 1, ps);
      assert p * ps == (p - 1) * ps + ps;
    }
  }

  /** A later page starts at least one page size further on. */
  lemma {:induction false} StartStep(p: nat, q: nat, ps: nat)
    requires p < q
    ensures Start(p, ps) + ps <= Start(q, ps)
  {
    if p < q - 1 { StartStep(p, q - 1, ps); }
  }

  /** Pages before the offset's page start no later, pages after it start later. */
  lemma StartOrder(p: nat, q: nat, ps: nat)
    requires ps > 0
    ensures p < q <==> Start(p, ps) < Start(q, ps)
    ensures p < q ==> Start(p, ps) + ps <= Start(q, ps)
    ensures p == q || Start(p, ps) != Start(q, ps)
  {
    if p < q { StartStep(p, q, ps); }
    if q < p { StartStep(q, p, ps); }
  }

  lemma {:induction false} StartSum(a: nat, m: nat, ps: nat)
    ensures Start(a + m, ps) == Start(a, ps) + Start(m, ps)
  {
    if m > 0 { StartSum(a, m - 1, ps); }
  }

  /** The quotient and remainder of a flat offset, as the page loops compute them. */
  lemma SplitOffset(i: nat, ps: nat)
    requires ps > 0
    ensures i / ps >= 0 && 0 <= i % ps < ps && i == Start(i / ps, ps) + i % ps
  {
    StartIsProduct(i / ps, ps);
  }

  lemma SplitUnique(i: nat, ps: nat, p: nat, k: nat)
    requires ps > 0 && k < ps && i == Start(p, ps) + k
    ensures i / ps == p && i % ps == k
  {
    SplitOffset(i, ps);
    StartOrder(p, i / ps, ps);
    StartOrder(i / ps, p, ps);
  }
}
