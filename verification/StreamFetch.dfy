/**
 * Download: the server's reply to a read of count pages arrives in chunks of any size, and a failed transfer may start
 * over at offset 0 several times. The reader cuts it into pages and hands each one out when it is complete.
 * Models the callback of PageBackend::FetchPages.
 */
module StreamFetch {
  import opened Bytes

  /** A piece of the reply, with its offset in the reply. */
  datatype Chunk = Chunk(offset: nat, data: seq<Byte>) {
    function End(): nat { offset + |data| }
  }

  /** Every chunk carries the reply's own bytes, and continues where the one before ended or starts over. */
  predicate Delivery(body: seq<Byte>, chunks: seq<Chunk>) {
    forall i :: 0 <= i < |chunks| ==>
      && chunks[i].End() <= |body| && chunks[i].data == body[chunks[i].offset..chunks[i].End()]
      && (chunks[i].offset == 0 || (i > 0 && chunks[i].offset == chunks[i - 1].End()))
  }

  /** Some chunk among the first n reached the end of the reply. */
  predicate Finished(body: seq<Byte>, chunks: seq<Chunk>, n: nat)
    requires n <= |chunks|
  {
    exists i :: 0 <= i < n && chunks[i].End() == |body|
  }

  /** Data still came after the reply had been read to its end. */
  predicate Late(body: seq<Byte>, chunks: seq<Chunk>, n: nat)
    requires n <= |chunks|
  {
    exists j :: 0 <= j < n && chunks[j].data != [] && Finished(body, chunks, j)
  }

  /** What the server sends for count pages from page index on. */
  function Reply(remote: seq<Byte>, ps: nat, index: nat, count: nat): (body: seq<Byte>)
    requires Start(index, ps) <= |remote|
  {
    remote[Start(index, ps)..][..Min(|remote| - Start(index, ps), Start(count, ps))]
  }

  /** The part of the reply that belongs to its page d. */
  function PageOf(body: seq<Byte>, ps: nat, d: nat): seq<Byte> {
    if Start(d, ps) <= |body| then body[Start(d, ps)..Min(Start(d, ps) + ps, |body|)] else []
  }

  /** The reply fills count pages, the last perhaps in part. */
  ghost predicate Fills(body: seq<Byte>, ps: nat, count: nat) {
    ps > 0 && count > 0 && Start(count - 1, ps) < |body| <= Start(count, ps)
  }

  /**
   * The length given to page index + d of a server file of size bytes; past the file's end the subtraction wraps round.
   */
  function NewPageLength(size: nat, ps: nat, page: nat): nat {
    if Start(page, ps) <= size then Min(size - Start(page, ps), ps) else ps
  }

  /**
   * Where the reader stands: the pages handed out so far, the page being filled, how much of it is known to be right,
   * and the offset up to which the reply has been read in the current attempt.
   */
  ghost predicate Progress(body: seq<Byte>, ps: nat, index: nat, count: nat,
                           log: seq<(nat, seq<Byte>)>, cur: Option<seq<Byte>>, filled: nat, pos: nat)
  {
    && HandedOut(body, ps, index, log) && |log| <= count
    && (|log| < count ==>
          && pos <= Start(|log|, ps) + filled
          && if cur.None? then filled == 0 else BegunWith(cur.value, PageOf(body, ps, |log|), filled))
  }

  ghost predicate HandedOut(body: seq<Byte>, ps: nat, index: nat, log: seq<(nat, seq<Byte>)>) {
    forall d :: 0 <= d < |log| ==> log[d] == (index + d, PageOf(body, ps, d))
  }

  /** The page has the target's length, and agrees with it on the first filled bytes, though not yet on all. */
  ghost predicate BegunWith(page: seq<Byte>, target: seq<Byte>, filled: nat) {
    |page| == |target| && filled < |page| && page[..filled] == target[..filled]
  }

  lemma InnerPage(body: seq<Byte>, ps: nat, count: nat, d: nat)
    requires Fills(body, ps, count) && d < count
    ensures Start(d, ps) < |body|
    ensures |PageOf(body, ps, d)| == Min(ps, |body| - Start(d, ps)) > 0
    ensures d + 1 < count ==> |PageOf(body, ps, d)| == ps && Start(d + 1, ps) < |body|
    ensures d + 1 == count ==> Start(d, ps) + |PageOf(body, ps, d)| == |body|
  {
    StartOrder(d, count - 1, ps);
    if d + 1 < count { StartOrder(d + 1, count - 1, ps); }
  }

  /** Copying the next bytes of a page over its beginning leaves a longer right beginning. */
  lemma CopyExtends(page: seq<Byte>, target: seq<Byte>, filled: nat, at: nat, piece: seq<Byte>)
    requires BegunWith(page, target, filled)
    requires at <= filled && at + |piece| <= |target| && piece == target[at..at + |piece|]
    ensures Copied(page, at, piece)[..Max(filled, at + |piece|)] == target[..Max(filled, at + |piece|)]
  {
    var page', top := Copied(page, at, piece), Max(filled, at + |piece|);
    forall i | 0 <= i < top ensures page'[i] == target[i] {
      if i < at || at + |piece| <= i {
        assert page[i] == page[..filled][i] == target[..filled][i];
      } else {
        assert piece[i - at] == target[i];
      }
    }
  }

  /** The reply is the read's share of a server file of size bytes. */
  ghost predicate ReadsFrom(body: seq<Byte>, ps: nat, index: nat, count: nat, size: nat) {
    Fills(body, ps, count) && Start(index, ps) + |body| == Min(size, Start(index + count, ps))
  }

  lemma NewPageFits(body: seq<Byte>, ps: nat, index: nat, count: nat, size: nat, d: nat)
    requires ReadsFrom(body, ps, index, count, size) && d < count
    ensures NewPageLength(size, ps, index + d) == |PageOf(body, ps, d)|
  {
    InnerPage(body, ps, count, d);
    StartSum(index, d, ps);
    StartSum(index, count, ps);
    if d + 1 < count { StartSum(index, d + 1, ps); }
  }

  /** The page in which an offset of the reply lies is one already handed out, or the one being filled. */
  lemma PageOfOffset(ps: nat, d: nat, filled: nat, pos: nat)
    requires ps > 0 && pos <= Start(d, ps) + filled && filled < ps
    ensures pos / ps <= d && pos - Start(pos / ps, ps) == pos % ps
    ensures pos / ps == d ==> pos % ps <= filled
    ensures pos / ps < d ==> Start(pos / ps, ps) + ps <= Start(d, ps)
  {
    SplitOffset(pos, ps);
    StartOrder(pos / ps, d, ps);
    StartOrder(d, pos / ps, ps);
  }

  /** The piece of a chunk that lies in the page being filled is that page's own bytes. */
  lemma PieceOfPage(body: seq<Byte>, ps: nat, count: nat, chunk: Chunk, rbyte: nat, d: nat, at: nat, length: nat)
    requires Fills(body, ps, count) && d < count && Start(d, ps) + at == rbyte && at < ps
    requires chunk.End() <= |body| && chunk.data == body[chunk.offset..chunk.End()]
    requires chunk.offset <= rbyte < chunk.End()
    requires length == Min(chunk.End() - rbyte, ps - at)
    ensures at + length <= |PageOf(body, ps, d)|
    ensures chunk.data[rbyte - chunk.offset..rbyte - chunk.offset + length] == PageOf(body, ps, d)[at..at + length]
  {
    hide Fills, Start;
    InnerPage(body, ps, count, d);
    SlicedFrom(body, Start(d, ps), PageOf(body, ps, d), rbyte, length);
    SlicedFrom(body, chunk.offset, chunk.data, rbyte, length);
  }

  lemma SlicedFrom(whole: seq<Byte>, first: nat, part: seq<Byte>, from: nat, length: nat)
    requires first + |part| <= |whole| && part == whole[first..first + |part|] && first <= from
    requires from + length <= first + |part|
    ensures part[from - first..from - first + length] == whole[from..from + length]
  {
    SliceOfSlice(whole, first, first + |part|, from - first, from - first + length);
  }

  lemma HandedOutNext(body: seq<Byte>, ps: nat, index: nat, log: seq<(nat, seq<Byte>)>)
    requires HandedOut(body, ps, index, log)
    ensures HandedOut(body, ps, index, log + [(index + |log|, PageOf(body, ps, |log|))])
  {
  }

  lemma PageCompleted(body: seq<Byte>, ps: nat, index: nat, count: nat, log: seq<(nat, seq<Byte>)>)
    requires Fills(body, ps, count) && |log| < count && HandedOut(body, ps, index, log)
    ensures var page := PageOf(body, ps, |log|);
            && Progress(body, ps, index, count, log + [(index + |log|, page)], None, 0, Start(|log|, ps) + |page|)
            && (|log| + 1 == count ==> Start(|log|, ps) + |page| == |body|)
  {
    HandedOutNext(body, ps, index, log);
    InnerPage(body, ps, count, |log|);
  }

  /** Where a fresh page may be taken as one of which nothing is right yet. */
  lemma PageCopied(page: seq<Byte>, target: seq<Byte>, filled: nat, at: nat, piece: seq<Byte>)
    requires BegunWith(page, target, filled)
    requires at <= filled && at + |piece| <= |page| && piece == target[at..at + |piece|]
    ensures at + |piece| == |page| ==> Copied(page, at, piece) == target
    ensures at + |piece| < |page| ==> BegunWith(Copied(page, at, piece), target, Max(filled, at + |piece|))
  {
    var page' := Copied(page, at, piece);
    CopyExtends(page, target, filled, at, piece);
    if at + |piece| == |page| {
      assert page' == page'[..|page|] == target[..|page|] == target;
    }
  }

  /** Data never lies past the page being filled, and data of an earlier page may be skipped. */
  lemma Aim(body: seq<Byte>, ps: nat, index: nat, count: nat, size: nat, log: seq<(nat, seq<Byte>)>,
            cur: Option<seq<Byte>>,
            filled: nat, page: seq<Byte>, rbyte: nat, length: nat)
    requires ReadsFrom(body, ps, index, count, size) && rbyte < |body| && length <= ps - rbyte % ps
    requires Progress(body, ps, index, count, log, cur, filled, rbyte)
    requires if cur.Some? then page == cur.value else |page| == NewPageLength(size, ps, index + |log|)
    ensures rbyte / ps <= |log| && (|log| == count ==> rbyte / ps < |log|)
    ensures rbyte / ps == |log| ==> BegunWith(page, PageOf(body, ps, |log|), filled) && rbyte % ps <= filled
    ensures rbyte / ps < |log| ==> Progress(body, ps, index, count, log, Some(page), filled, rbyte + length)
  {
    if |log| == count {
      LastPageOfReply(body, ps, count, rbyte);
    } else {
      NewPageFits(body, ps, index, count, size, |log|);
      InnerPage(body, ps, count, |log|);
      PageOfOffset(ps, |log|, filled, rbyte);
      SplitOffset(rbyte, ps);
    }
  }

  /** Deals with the part of a chunk that falls into one page: the body of the callback's loop. */
  method TakePiece(ps: nat, index: nat, count: nat, size: nat, ghost body: seq<Byte>, chunk: Chunk, rbyte: nat,
                   log: seq<(nat, seq<Byte>)>, cur: Option<seq<Byte>>, ghost filled: nat)
    returns (length: nat, log': seq<(nat, seq<Byte>)>, cur': Option<seq<Byte>>, ghost filled': nat)
    requires ReadsFrom(body, ps, index, count, size)
    requires chunk.End() <= |body| && chunk.data == body[chunk.offset..chunk.End()]
    requires chunk.offset <= rbyte < chunk.End()
    requires Progress(body, ps, index, count, log, cur, filled, rbyte)
    ensures 0 < length <= chunk.End() - rbyte
    ensures Progress(body, ps, index, count, log', cur', filled', rbyte + length)
    ensures |log| < count && |log'| == count ==> cur'.None? && rbyte + length == |body|
    ensures |log| == count ==> log' == log && cur'.Some?
  {
    hide HandedOut, PageOf;
    assert |Zeros(NewPageLength(size, ps, index + |log|))| == NewPageLength(size, ps, index + |log|);
    var page: seq<Byte> :| if cur.Some? then page == cur.value else |page| == NewPageLength(size, ps, index + |log|);
    SplitOffset(rbyte, ps);
    var rindex := rbyte / ps;
    StartIsProduct(rindex, ps);
    var at := rbyte - rindex * ps;
    length := Min(chunk.End() - rbyte, ps - at);
    log', cur', filled' := log, Some(page), filled;
    Aim(body, ps, index, count, size, log, cur, filled, page, rbyte, length);
    if rindex == |log| {
      var piece := chunk.data[rbyte - chunk.offset..rbyte - chunk.offset + length];
      PieceOfPage(body, ps, count, chunk, rbyte, |log|, at, length);
      PageCopied(page, PageOf(body, ps, |log|), filled, at, piece);
      page := Copied(page, at, piece);
      if at + length == |page| {
        PageCompleted(body, ps, index, count, log);
        log' := log + [(index + |log|, page)];
        cur', filled' := None, 0;
      } else {
        cur', filled' := Some(page), Max(filled, at + length);
      }
    }
  }

  lemma LastPageOfReply(body: seq<Byte>, ps: nat, count: nat, pos: nat)
    requires Fills(body, ps, count) && pos < |body|
    ensures pos / ps < count
  {
    SplitOffset(pos, ps);
    StartOrder(count, pos / ps, ps);
  }

  /** A page is missing as long as the reply has not been read to its end in one attempt. */
  lemma NotYetFinished(body: seq<Byte>, ps: nat, index: nat, count: nat, log: seq<(nat, seq<Byte>)>,
                       cur: Option<seq<Byte>>, filled: nat, pos: nat)
    requires Fills(body, ps, count) && Progress(body, ps, index, count, log, cur, filled, pos) && |log| < count
    ensures pos < |body|
  {
    InnerPage(body, ps, count, |log|);
  }

  lemma LateStep(body: seq<Byte>, chunks: seq<Chunk>, n: nat)
    requires n < |chunks|
    ensures Late(body, chunks, n + 1) <==> Late(body, chunks, n) || (chunks[n].data != [] && Finished(body, chunks, n))
    ensures Finished(body, chunks, n + 1) <==> Finished(body, chunks, n) || chunks[n].End() == |body|
  {
  }

  /**
   * Reads a whole reply. Each page is handed out exactly once, in ascending order and with the server's bytes, however
   * the reply was cut up and however often it was restarted; no unfinished page is left, unless data still came late.
   */
  method Reassemble(ps: nat, index: nat, count: nat, size: nat, chunks: seq<Chunk>, ghost body: seq<Byte>)
    returns (log: seq<(nat, seq<Byte>)>, unfinished: bool)
    requires ReadsFrom(body, ps, index, count, size) && Delivery(body, chunks)
    ensures HandedOut(body, ps, index, log) && |log| <= count
    ensures |log| == count <==> Finished(body, chunks, |chunks|)
    ensures Finished(body, chunks, |chunks|) ==> (unfinished <==> Late(body, chunks, |chunks|))
  {
    log := [];
    var cur: Option<seq<Byte>> := None;
    ghost var filled, pos := 0, 0;
    for n := 0 to |chunks|
      invariant Progress(body, ps, index, count, log, cur, filled, pos)
      invariant pos == if n == 0 then 0 else chunks[n - 1].End()
      invariant |log| == count <==> Finished(body, chunks, n)
      invariant |log| == count ==> (cur.Some? <==> Late(body, chunks, n))
    {
      var chunk, rbyte := chunks[n], chunks[n].offset;
      ghost var before := |log|;
      ghost var open := cur;
      while rbyte < chunk.End()
        invariant chunk.offset <= rbyte <= chunk.End()
        invariant Progress(body, ps, index, count, log, cur, filled, rbyte)
        invariant before == count ==> |log| == count && if rbyte == chunk.offset then cur == open else cur.Some?
        invariant before < count && |log| == count ==> cur.None? && rbyte == |body|
        decreases chunk.End() - rbyte
      {
        var length;
        length, log, cur, filled := TakePiece(ps, index, count, size, body, chunk, rbyte, log, cur, filled);
        rbyte := rbyte + length;
      }
      pos := chunk.End();
      LateStep(body, chunks, n);
      if |log| < count { NotYetFinished(body, ps, index, count, log, cur, filled, pos); }
      if before < count { NothingLate(body, chunks, n); }
    }
    unfinished := cur.Some?;
  }

  lemma StaysFinished(body: seq<Byte>, chunks: seq<Chunk>, j: nat, n: nat)
    requires j <= n <= |chunks|
    ensures Finished(body, chunks, j) ==> Finished(body, chunks, n)
  {
  }

  lemma NothingLate(body: seq<Byte>, chunks: seq<Chunk>, n: nat)
    requires n <= |chunks| && !Finished(body, chunks, n)
    ensures !Late(body, chunks, n)
  {
    forall j | 0 <= j < n ensures !Finished(body, chunks, j) { StaysFinished(body, chunks, j, n); }
  }

  /** Data can come late: a reply of one byte, for a page of one byte, sent twice from the beginning. */
  lemma LateDataHappens(b: Byte)
    ensures var body, chunks := [b], [Chunk(0, [b]), Chunk(0, [b])];
      ReadsFrom(body, 1, 0, 1, 1) && Delivery(body, chunks) && Finished(body, chunks, 2) && Late(body, chunks, 2)
  {
    var body, chunks := [b], [Chunk(0, [b]), Chunk(0, [b])];
    assert Start(0, 1) == 0 && Start(1, 1) == 1;
    assert chunks[0].End() == |body|;
    assert Finished(body, chunks, 1) && chunks[1].data != [];
  }

  lemma ReplyIsRead(remote: seq<Byte>, ps: nat, index: nat, count: nat)
    requires ps > 0 && count > 0 && Start(index + count - 1, ps) < |remote| && Start(index, ps) <= |remote|
    ensures ReadsFrom(Reply(remote, ps, index, count), ps, index, count, |remote|)
  {
    StartSum(index, count, ps);
    StartSum(index, count - 1, ps);
  }

  /** Page d of the reply is page index + d of the server's file. */
  lemma ReplyPage(remote: seq<Byte>, ps: nat, index: nat, count: nat, d: nat)
    requires ps > 0 && d < count && Start(index + count - 1, ps) < |remote| && Start(index, ps) <= |remote|
    ensures Start(index + d, ps) < |remote|
    ensures PageOf(Reply(remote, ps, index, count), ps, d) == PageOf(remote, ps, index + d)
  {
    hide PageOf;
    var body, first, start := Reply(remote, ps, index, count), Start(index, ps), Start(d, ps);
    ReplyIsRead(remote, ps, index, count);
    InnerPage(body, ps, count, d);
    StartSum(index, d, ps);
    StartStep(d, count, ps);
    SlicedPage(remote, first, body, ps, d, index + d);
  }

  /** A page of a stretch of bytes, which reaches as far as that page does, is that page of the whole. */
  lemma SlicedPage(whole: seq<Byte>, first: nat, part: seq<Byte>, ps: nat, d: nat, p: nat)
    requires first + |part| <= |whole| && part == whole[first..first + |part|]
    requires Start(d, ps) < |part| && Start(p, ps) == first + Start(d, ps)
    requires first + |part| == |whole| || Start(d, ps) + ps <= |part|
    ensures PageOf(part, ps, d) == PageOf(whole, ps, p)
  {
    hide Start;
    SliceOfSlice(whole, first, first + |part|, Start(d, ps), Min(Start(d, ps) + ps, |part|));
  }
}
