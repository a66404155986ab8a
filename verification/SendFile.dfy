/**
 * Streaming upload: a file is sent as one or more request bodies, each cut at the current size limit, and the limit
 * backs off when the server refuses a body as too large. Models BackendImpl::SendFile and the stream producers.
 */
module SendFile {
  import opened Bytes

  /** A body this limit was too large for and that is still refused means that the server is broken. */
  const UPLOAD_MINSIZE: nat := 4096

  /** The largest body that can be built under a limit that counts as broken when refused. */
  const SMALLEST_REFUSABLE: nat := 2 * (UPLOAD_MINSIZE - 1) - 1

  /** Where the bytes come from: a string, or a run of file pages. */
  datatype Source = Text(data: seq<Byte>) | PageRun(ps: nat, pages: seq<seq<Byte>>)

  function Joined(pages: seq<seq<Byte>>): seq<Byte> {
    if pages == [] then [] else Joined(pages[..|pages| - 1]) + pages[|pages| - 1]
  }

  function StreamOf(src: Source): seq<Byte> {
    match src
    case Text(data) => data
    case PageRun(_, pages) => Joined(pages)
  }

  /** The page-run producer finds pages by division, so all pages but the last must be full. */
  ghost predicate WellFormed(src: Source) {
    src.PageRun? ==> src.ps > 0 && forall i :: 0 <= i < |src.pages| ==>
      0 < |src.pages[i]| <= src.ps && (i < |src.pages| - 1 ==> |src.pages[i]| == src.ps)
  }

  /** One call of the producer: the bytes put into a buffer of buflen at stream offset, and whether to call again. */
  function Produce(src: Source, offset: nat, buflen: nat): (seq<Byte>, bool)
    requires WellFormed(src)
  {
    match src
    case Text(data) =>
      if offset >= |data| then ([], false)
      else (data[offset..offset + Min(|data| - offset, buflen)], true)
    case PageRun(ps, pages) =>
      var index := offset / ps;
      if index >= |pages| then ([], false)
      else
        var pageOffset := offset - index * ps;
        if pageOffset >= |pages[index]| then ([], false)
        else (pages[index][pageOffset..pageOffset + Min(|pages[index]| - pageOffset, buflen)], true)
  }

  // ---------------------------------------------------------------------------------------------
  // A producer walks its stream

  lemma {:induction false} JoinedLength(ps: nat, pages: seq<seq<Byte>>)
    requires WellFormed(PageRun(ps, pages)) && pages != []
    ensures |Joined(pages)| == Start(|pages| - 1, ps) + |pages[|pages| - 1]|
  {
    if |pages| > 1 {
      var front := pages[..|pages| - 1];
      assert WellFormed(PageRun(ps, front));
      JoinedLength(ps, front);
    }
  }

  lemma {:induction false} JoinedSlice(ps: nat, pages: seq<seq<Byte>>, p: nat, i: nat, j: nat)
    requires WellFormed(PageRun(ps, pages)) && p < |pages| && i <= j <= |pages[p]|
    ensures Start(p, ps) + j <= |Joined(pages)|
    ensures Joined(pages)[Start(p, ps) + i..Start(p, ps) + j] == pages[p][i..j]
  {
    var front := pages[..|pages| - 1];
    assert WellFormed(PageRun(ps, front));
    if p < |front| {
      JoinedSlice(ps, front, p, i, j);
      FrontSlice(Joined(front), pages[|front|], Start(p, ps) + i, Start(p, ps) + j);
    } else {
      FrontLength(ps, pages);
      BackSlice(Joined(front), pages[p], i, j);
    }
  }

  lemma FrontLength(ps: nat, pages: seq<seq<Byte>>)
    requires WellFormed(PageRun(ps, pages)) && pages != []
    ensures |Joined(pages[..|pages| - 1])| == Start(|pages| - 1, ps)
  {
    JoinedLength(ps, pages);
  }

  lemma FrontSlice(a: seq<Byte>, b: seq<Byte>, i: nat, j: nat)
    requires i <= j <= |a|
    ensures (a + b)[i..j] == a[i..j]
  {
  }

  lemma BackSlice(a: seq<Byte>, b: seq<Byte>, i: nat, j: nat)
    requires i <= j <= |b|
    ensures (a + b)[|a| + i..|a| + j] == b[i..j]
  {
  }

  lemma JoinedAt(ps: nat, pages: seq<seq<Byte>>, p: nat, k: nat)
    requires WellFormed(PageRun(ps, pages)) && p < |pages| && k < |pages[p]|
    ensures Start(p, ps) + k < |Joined(pages)| && Joined(pages)[Start(p, ps) + k] == pages[p][k]
  {
    var i, all := Start(p, ps) + k, Joined(pages);
    JoinedSlice(ps, pages, p, k, k + 1);
    assert all[i] == all[i..i + 1][0];
  }

  /** Whatever the buffer size, a call yields the next bytes of the stream, and says stop only at its end. */
  lemma ProducerWalksStream(src: Source, offset: nat, buflen: nat)
    requires WellFormed(src) && buflen > 0
    ensures var (d, more) := Produce(src, offset, buflen);
            && (more <==> offset < |StreamOf(src)|)
            && (more ==> 0 < |d| <= buflen && offset + |d| <= |StreamOf(src)|)
            && (more ==> d == StreamOf(src)[offset..offset + |d|])
            && (!more ==> d == [])
  {
    if src.PageRun? {
      PagesWalkStream(src.ps, src.pages, offset, buflen);
    }
  }

  lemma PagesWalkStream(ps: nat, pages: seq<seq<Byte>>, offset: nat, buflen: nat)
    requires WellFormed(PageRun(ps, pages)) && buflen > 0
    ensures var (d, more) := Produce(PageRun(ps, pages), offset, buflen);
            && (more <==> offset < |Joined(pages)|)
            && (more ==> 0 < |d| <= buflen && offset + |d| <= |Joined(pages)|)
            && (more ==> d == Joined(pages)[offset..offset + |d|])
            && (!more ==> d == [])
  {
    hide Joined;
    var p, k := offset / ps, offset % ps;
    SplitOffset(offset, ps);
    StartIsProduct(p, ps);
    assert pages == [] ==> |Joined(pages)| == 0 by { EmptyJoined(pages); }
    if pages != [] { JoinedLength(ps, pages); }
    if p < |pages| && k < |pages[p]| {
      JoinedSlice(ps, pages, p, k, k + Min(|pages[p]| - k, buflen));
    } else if pages != [] {
      StartOrder(|pages| - 1, p, ps);
    }
  }

  lemma EmptyJoined(pages: seq<seq<Byte>>)
    ensures pages == [] ==> Joined(pages) == []
  {
  }

  lemma ProducerExtends(src: Source, byte: nat, body: seq<Byte>, buflen: nat)
    requires WellFormed(src) && buflen > 0
    requires byte + |body| <= |StreamOf(src)| && body == StreamOf(src)[byte..byte + |body|]
    ensures var (d, more) := Produce(src, byte + |body|, buflen);
            && |d| <= buflen && byte + |body + d| <= |StreamOf(src)|
            && body + d == StreamOf(src)[byte..byte + |body + d|]
            && (if more then d != [] else d == [] && byte + |body| == |StreamOf(src)|)
  {
    ProducerWalksStream(src, byte + |body|, buflen);
    var (d, more) := Produce(src, byte + |body|, buflen);
    if !more { assert body + d == body; }
  }

  /** Counts the bytes of a stream by reading it through a buffer. */
  method StreamSize(src: Source, buflen: nat) returns (size: nat)
    requires WellFormed(src) && buflen > 0
    ensures size == |StreamOf(src)|
  {
    size := 0;
    var more := true;
    while more
      invariant size <= |StreamOf(src)| && (!more ==> size == |StreamOf(src)|)
      decreases |StreamOf(src)| - size, more
    {
      ProducerWalksStream(src, size, buflen);
      var (d, again) := Produce(src, size, buflen);
      more, size := again, size + |d|;
    }
  }

  // ---------------------------------------------------------------------------------------------
  // One request

  /**
   * Streams one request body from position byte, through buffers of any size. The body stops at the producer's end
   * or at the limit; a oneshot upload must not stop at the limit and fails there instead.
   */
  method StreamBody(src: Source, byte: nat, limit: nat, oneshot: bool)
    returns (body: seq<Byte>, more: bool, tooBig: bool)
    requires WellFormed(src) && byte <= |StreamOf(src)|
    ensures byte + |body| <= |StreamOf(src)| && body == StreamOf(src)[byte..byte + |body|]
    ensures limit > 0 ==> |body| <= 2 * limit - 1
    ensures !more ==> byte + |body| == |StreamOf(src)|
    ensures more ==> limit > 0 && |body| >= limit
    ensures tooBig <==> oneshot && limit > 0 && |StreamOf(src)| - byte >= limit
    ensures oneshot && more ==> tooBig
  {
    ghost var stream := StreamOf(src);
    body, more, tooBig := [], true, false;
    while more
      invariant byte + |body| <= |stream| && body == stream[byte..byte + |body|]
      invariant limit > 0 ==> |body| <= 2 * limit - 1
      invariant !more ==> byte + |body| == |stream| && (limit > 0 ==> |body| < limit)
      invariant !tooBig
      decreases |stream| - byte - |body|, more
    {
      if limit > 0 && |body| >= limit {
        tooBig := oneshot;
        return;
      }
      var buflen: int :| buflen > 0;
      var size := if limit > 0 then Min(buflen, limit) else buflen;
      ProducerExtends(src, byte, body, size);
      var (d, again) := Produce(src, byte + |body|, size);
      more, body := again, body + d;
    }
  }

  // ---------------------------------------------------------------------------------------------
  // The whole transfer

  datatype Outcome = Sent | Refused | TooBig

  /** The limit after a refused body of the given size. */
  function Backoff(size: nat): nat { size / 2 }

  /** A refusal strictly lowers a limit, and never to 0 (which means no limit), exactly when the body had two bytes. */
  lemma BackoffLowers(limit: nat, size: nat)
    requires limit > 0 ==> size <= 2 * limit - 1
    ensures limit > 0 ==> Backoff(size) < limit
    ensures 2 * Backoff(size) <= size < 2 * Backoff(size) + 2
    ensures Backoff(size) > 0 <==> size >= 2
  {
  }

  /** What a refused body makes of the limit; None where the sender gives up. */
  function AfterRefusal(limit: nat, size: nat): Option<nat> {
    if 0 < limit < UPLOAD_MINSIZE then None else Some(Backoff(size))
  }

  /**
   * The sender is back exactly where it was, and would repeat the same request for ever, if it has no limit and the
   * refused body had one byte at most; otherwise a refusal takes it on.
   */
  lemma BackoffStuckIff(limit: nat, size: nat)
    requires limit > 0 ==> size <= 2 * limit - 1
    ensures AfterRefusal(limit, size) == Some(limit) <==> limit == 0 && size <= 1
  {
    BackoffLowers(limit, size);
  }

  /** The check that a write to a file not yet uploaded has to pass. */
  predicate PassesUploadCheck(length: nat, limit: nat) { limit == 0 || length <= limit }

  /** Whether a oneshot upload of that length is sent, given that the server takes it. */
  predicate OneshotFits(length: nat, limit: nat) { limit == 0 || length < limit }

  /** A write passes the check and cannot be uploaded afterwards exactly if the file is as long as the limit. */
  lemma ExactLimitIsRefusedIff(length: nat, limit: nat)
    ensures PassesUploadCheck(length, limit) && !OneshotFits(length, limit) <==> limit > 0 && length == limit
    ensures PassesUploadCheck(4096, 4096) && !OneshotFits(4096, 4096)
  {
  }

  /** The server's bytes once a prefix of the stream has been written. */
  function Placed(remote: seq<Byte>, offset: nat, stream: seq<Byte>, byte: nat): seq<Byte>
    requires byte <= |stream|
  {
    Overlay(remote, offset, stream[..byte])
  }

  /** A chunk written behind an already written prefix of the stream makes a longer prefix. */
  lemma ChunkExtends(remote: seq<Byte>, offset: nat, upload: bool, stream: seq<Byte>, byte: nat, body: seq<Byte>)
    requires byte + |body| <= |stream| && body == stream[byte..byte + |body|]
    requires upload ==> offset == 0 && remote == []
    ensures var before := Placed(remote, offset, stream, byte);
      (if byte == 0 && upload then body else Overlay(before, offset + byte, body))
      == Placed(remote, offset, stream, byte + |body|)
  {
    OverlayTwice(remote, offset, stream[..byte], body);
    assert stream[..byte] + body == stream[..byte + |body|];
    if byte == 0 {
      assert stream[..|body|] == body;
    }
  }

  lemma NothingPlaced(remote: seq<Byte>, offset: nat, stream: seq<Byte>)
    ensures Placed(remote, offset, stream, 0) == remote
  {
  }

  /**
   * Sends a stream to position offset of the file, or as a new file when upload is set. The server takes every body of
   * at most serverMax bytes and decides freely about longer ones; limit is the sender's knowledge of that.
   */
  method Send(src: Source, remote0: seq<Byte>, offset: nat, upload: bool, oneshot: bool, limit0: nat, serverMax: nat)
    returns (outcome: Outcome, remote: seq<Byte>, limit: nat, byte: nat)
    requires WellFormed(src) && serverMax >= 1
    requires upload ==> remote0 == [] && offset == 0
    requires oneshot ==> upload
    ensures byte <= |StreamOf(src)| && remote == Placed(remote0, offset, StreamOf(src), byte)
    ensures outcome.Sent? ==> byte == |StreamOf(src)|
    ensures oneshot && !outcome.Sent? ==> byte == 0
    ensures !oneshot && serverMax >= SMALLEST_REFUSABLE ==> outcome.Sent?
    ensures !oneshot ==> !outcome.TooBig?
    ensures outcome.Refused? ==> 0 < limit < UPLOAD_MINSIZE && serverMax < SMALLEST_REFUSABLE
    ensures oneshot && outcome.Sent? ==> OneshotFits(|StreamOf(src)|, limit0)
    ensures oneshot && |StreamOf(src)| <= serverMax ==> (outcome.Sent? <==> OneshotFits(|StreamOf(src)|, limit0))
    ensures limit != limit0 ==> 0 < limit && serverMax <= 2 * limit && (limit0 > 0 ==> limit < limit0)
  {
    hide StreamOf, WellFormed, Overlay, Backoff, Placed;
    ghost var stream := StreamOf(src);
    NothingPlaced(remote0, offset, stream);
    outcome, remote, limit, byte := Sent, remote0, limit0, 0;
    var more := true;
    while more
      invariant byte <= |stream| && remote == Placed(remote0, offset, stream, byte)
      invariant !more ==> byte == |stream|
      invariant oneshot && more ==> byte == 0 && limit == limit0
      invariant oneshot && !more ==> limit0 == 0 || |stream| < limit0
      invariant limit != limit0 ==> 0 < limit && serverMax <= 2 * limit && (limit0 > 0 ==> limit < limit0)
      decreases |stream| - byte, if limit == 0 then |stream| + 1 else limit, more
    {
      var body, again, tooBig := StreamBody(src, byte, limit, oneshot);
      if tooBig { return TooBig, remote, limit, byte; }
      var accepted: bool := *;
      if |body| <= serverMax || accepted {
        ChunkExtends(remote0, offset, upload, stream, byte, body);
        remote := if byte == 0 && upload then body else Overlay(remote, offset + byte, body);
        byte := byte + |body|;
        more := again;
      } else {
        if AfterRefusal(limit, |body|).None? { return Refused, remote, limit, byte; }
        BackoffLowers(limit, |body|);
        limit := Backoff(|body|);
        if oneshot { return TooBig, remote, limit, byte; }
        more := true;
      }
    }
  }
}
