/** Byte access to a cached file, in terms of one flat byte array. Models the data methods of File. */
module Files {
  import opened Bytes
  import opened SendFile
  import opened PageStore
  import opened PageBackends
  import opened PageManagers

  datatype Error = ReadBounds | WriteType

  datatype Result<+T> = Success(value: T) | Failure(error: Error)

  // ---------------------------------------------------------------------------------------------
  // The flat file

  /**
   * A write where the server file only grows at its end: bytes between the old end and the offset are filled in even
   * if nothing is written behind them.
   */
  function SequentialWrite(c: seq<Byte>, off: nat, d: seq<Byte>): (r: seq<Byte>)
    ensures |r| == Max(|c|, off + |d|)
    ensures forall i :: 0 <= i < |r| ==> r[i] == if off <= i < off + |d| then d[i - off] else ByteOr0(c, i)
  {
    Overlay(Resized(c, Max(|c|, off)), off, d)
  }

  /** The two kinds of write differ only in an empty write past the end, which extends a sequential file. */
  lemma SequentialWriteIsOverlayIff(c: seq<Byte>, off: nat, d: seq<Byte>)
    ensures SequentialWrite(c, off, d) == Overlay(c, off, d) <==> d != [] || off <= |c|
  {
    var s, o := SequentialWrite(c, off, d), Overlay(c, off, d);
    if d != [] || off <= |c| {
      assert |s| == |o|;
      forall i | 0 <= i < |s| ensures s[i] == o[i] {}
    }
  }

  /** One patched page is one patched stretch of the flat file. */
  lemma PatchedContents(s: Store, t: Store, index: nat, off: nat, buf: seq<Byte>)
    requires Shaped(s, s.fileSize, -1) && s.ps == t.ps && buf != [] && off + |buf| <= s.ps
    requires t.fileSize == Max(s.fileSize, Start(index, s.ps) + off + |buf|)
    requires forall p: nat, k: nat :: k < s.ps ==> Cell(t, p, k) == PatchedCell(s, index, off, buf, p, k)
    ensures Contents(t) == Overlay(Contents(s), Start(index, s.ps) + off, buf)
  {
    hide Contents, Overlay, Shaped, Cell, PatchedCell;
    var c, o := Contents(t), Overlay(Contents(s), Start(index, s.ps) + off, buf);
    forall i | 0 <= i < |c| ensures c[i] == o[i] {
      PatchedByte(s, t, index, off, buf, i);
    }
  }

  lemma PatchedByte(s: Store, t: Store, index: nat, off: nat, buf: seq<Byte>, i: nat)
    requires Shaped(s, s.fileSize, -1) && s.ps == t.ps && buf != [] && off + |buf| <= s.ps && i < t.fileSize
    requires forall p: nat, k: nat :: k < s.ps ==> Cell(t, p, k) == PatchedCell(s, index, off, buf, p, k)
    ensures Contents(t)[i] == ByteOr0(Overlay(Contents(s), Start(index, s.ps) + off, buf), i)
  {
    hide Contents, Overlay;
    SplitOffset(i, s.ps);
    var p, k := i / s.ps, i % s.ps;
    assert Cell(t, p, k) == PatchedCell(s, index, off, buf, p, k);
    ContentsAt(t, p, k);
    OldByte(s, p, k);
    InPatch(s.ps, index, off, |buf|, p, k);
    OverlayAt(Contents(s), Start(index, s.ps) + off, buf, i);
  }

  /** A byte of the flat file, and the zeros behind it. */
  lemma OldByte(s: Store, p: nat, k: nat)
    requires Shaped(s, s.fileSize, -1) && k < s.ps
    ensures ByteOr0(Contents(s), Start(p, s.ps) + k) == Cell(s, p, k)
  {
    if Start(p, s.ps) + k < s.fileSize {
      ContentsAt(s, p, k);
    } else {
      ZeroPastEnd(s, s.fileSize, p, k);
    }
  }

  /** A stretch within one page, in offsets of the file. */
  lemma InPatch(ps: nat, index: nat, off: nat, len: nat, p: nat, k: nat)
    requires off + len <= ps && k < ps
    ensures p == index && off <= k < off + len <==>
              Start(index, ps) + off <= Start(p, ps) + k < Start(index, ps) + off + len
  {
    StartOrder(p, index, ps);
    StartOrder(index, p, ps);
  }

  lemma TruncatedContents(s: Store, t: Store, n: nat)
    requires Shaped(s, s.fileSize, -1) && s.ps == t.ps && t.fileSize == n
    requires forall p: nat, k: nat :: k < s.ps ==>
              Cell(t, p, k) == (if Start(p, s.ps) + k < n then Cell(s, p, k) else 0)
    ensures Contents(t) == Resized(Contents(s), n)
  {
    forall i | 0 <= i < n ensures Contents(t)[i] == ByteOr0(Contents(s), i) {
      SplitOffset(i, s.ps);
      var p, k := i / s.ps, i % s.ps;
      ContentsAt(t, p, k);
      OldByte(s, p, k);
    }
  }

  // ---------------------------------------------------------------------------------------------
  // Runs of operations

  /** What users, memory pressure and flush threads may do to a file. */
  datatype Op =
    | Read(off: nat, len: nat)
    | Write(off: nat, data: seq<Byte>)
    | Cut(size: nat)
    | Flush
    | FlushOne(page: nat)
    | Evict(page: nat)

  /** What the operation does to a flat byte array. */
  function FlatStep(c: seq<Byte>, op: Op): seq<Byte> {
    match op
    case Write(off, data) => Overlay(c, off, data)
    case Cut(size) => Resized(c, size)
    case _ => c
  }

  function FlatRun(c: seq<Byte>, ops: seq<Op>): seq<Byte> {
    if ops == [] then c else FlatStep(FlatRun(c, ops[..|ops| - 1]), ops[|ops| - 1])
  }

  /** What reading a flat byte array returns. */
  function FlatRead(c: seq<Byte>, off: nat, len: nat): (r: Result<seq<Byte>>)
    ensures r.Success? ==> off + len <= |c| && |r.value| == len && forall i :: 0 <= i < len ==> r.value[i] == c[off + i]
    ensures r.Failure? ==> off + len > |c| && r.error == ReadBounds
  {
    if off + len > |c| then Failure(ReadBounds) else Success(c[off..off + len])
  }

  /** The results of all reads of a run, in order. */
  function FlatReads(c: seq<Byte>, ops: seq<Op>): seq<Result<seq<Byte>>> {
    if ops == [] then []
    else
      var before, op := ops[..|ops| - 1], ops[|ops| - 1];
      FlatReads(c, before) + if op.Read? then [FlatRead(FlatRun(c, before), op.off, op.len)] else []
  }

  /** How many bytes a server's last page lacks. */
  function PageRest(ps: nat, size: nat): nat
    requires ps > 0
  {
    if size % ps == 0 then 0 else ps - size % ps
  }

  /** The server's size once its last page is completed by a write that ends at the given offset. */
  function Completed(ps: nat, size: nat, end: nat): nat
    requires ps > 0
  {
    Min(end, size + PageRest(ps, size))
  }

  /** What a user sees of a file that only grows at its end on the server: the bytes, and how many of them are there. */
  datatype Growing = Growing(c: seq<Byte>, created: bool, server: nat)

  /** Operations that the file refuses: writes before the server's end, and cuts that would leave something. */
  predicate Refuses(f: Growing, op: Op) {
    match op
    case Write(off, _) => f.created && off < f.server
    case Cut(size) => size != 0
    case _ => false
  }

  /** Writes go to the server only as far as they complete its last page; a flush brings it up to date. */
  function GrowingStep(ps: nat, f: Growing, op: Op): Growing
    requires ps > 0
  {
    if Refuses(f, op) then f
    else
      match op
      case Write(off, data) =>
        Growing(SequentialWrite(f.c, off, data), f.created,
                if f.created then Completed(ps, f.server, off + |data|) else f.server)
      case Cut(_) => Growing([], f.created, 0)
      case Flush => Growing(f.c, true, |f.c|)
      case _ => f
  }

  function GrowingRun(ps: nat, f: Growing, ops: seq<Op>): Growing
    requires ps > 0
  {
    if ops == [] then f else GrowingStep(ps, GrowingRun(ps, f, ops[..|ops| - 1]), ops[|ops| - 1])
  }

  function GrowingResult(f: Growing, op: Op): Result<seq<Byte>> {
    if op.Read? then FlatRead(f.c, op.off, op.len) else if Refuses(f, op) then Failure(WriteType) else Success([])
  }

  /** Each operation has returned what it returns after the ones before it. */
  ghost predicate AllRight(ps: nat, f: Growing, ops: seq<Op>, results: seq<Result<seq<Byte>>>)
    requires ps > 0 && |ops| == |results|
  {
    forall i :: 0 <= i < |ops| ==> results[i] == GrowingResult(GrowingRun(ps, f, ops[..i]), ops[i])
  }

  lemma NothingRun(ps: nat, f: Growing)
    requires ps > 0
    ensures GrowingRun(ps, f, []) == f && AllRight(ps, f, [], [])
  {
  }

  lemma AllRightNext(ps: nat, f: Growing, ops: seq<Op>, results: seq<Result<seq<Byte>>>, op: Op, r: Result<seq<Byte>>)
    requires ps > 0 && |ops| == |results| && AllRight(ps, f, ops, results)
    requires r == GrowingResult(GrowingRun(ps, f, ops), op)
    ensures AllRight(ps, f, ops + [op], results + [r])
    ensures GrowingRun(ps, f, ops + [op]) == GrowingStep(ps, GrowingRun(ps, f, ops), op)
  {
    hide GrowingResult, GrowingStep;
    var ops' := ops + [op];
    forall i | 0 <= i < |ops'| ensures ops'[..i] == ops[..i] {}
    assert ops[..|ops|] == ops && ops'[..|ops|] == ops;
  }

  class File {
    const manager: PageManager
    const backend: PageBackend

    ghost predicate Valid()
      reads this, manager, backend
    {
      manager.backend == backend && manager.Valid()
    }

    /** The flat byte array a user of the file sees. */
    ghost function Data(): (c: seq<Byte>)
      requires Valid()
      reads this, manager, backend
      ensures |c| == manager.fileSize
    {
      Contents(manager.View())
    }

    constructor (pageBackend: PageBackend, readAhead: nat)
      requires pageBackend.Valid()
      ensures Valid() && Data() == pageBackend.remote && backend == pageBackend && fresh(manager)
    {
      backend := pageBackend;
      manager := new PageManager(pageBackend, readAhead);
    }

    method ReadBytes(offset: nat, length: nat) returns (r: Result<seq<Byte>>)
      requires Valid()
      modifies manager`pages, manager`fetchSize
      ensures Valid() && Data() == old(Data())
      ensures r == Failure(ReadBounds) <==> offset + length > |Data()|
      ensures offset + length <= |Data()| ==> r == Success(Data()[offset..offset + length])
      ensures r == FlatRead(Data(), offset, length)
    {
      hide Contents, Shaped, Covered, Sequential, SameCells;
      if offset + length > manager.fileSize { return Failure(ReadBounds); }
      var pageSize := manager.pageSize;
      ghost var c := Data();
      var buffer: seq<Byte> := [];
      var byte := offset;
      while byte < offset + length
        invariant offset <= byte <= offset + length && Valid() && Data() == c
        invariant buffer == c[offset..byte]
      {
        SplitOffset(byte, pageSize);
        StartIsProduct(byte / pageSize, pageSize);
        var index := byte / pageSize;
        var pOffset := byte - index * pageSize;
        var pLength := Min(length + offset - byte, pageSize - pOffset);
        ghost var s := manager.View();
        var piece := manager.ReadPage(index, pOffset, pLength);
        SameContents(s, manager.View());
        PageSlice(manager.View(), index, pOffset, piece);
        assert c[offset..byte] + c[byte..byte + pLength] == c[offset..byte + pLength];
        buffer, byte := buffer + piece, byte + pLength;
      }
      r := Success(buffer);
    }

    method ReadBytesMax(offset: nat, maxLength: nat) returns (buffer: seq<Byte>)
      requires Valid()
      modifies manager`pages, manager`fetchSize
      ensures Valid() && Data() == old(Data())
      ensures buffer == if offset >= |Data()| then [] else Data()[offset..Min(offset + maxLength, |Data()|)]
    {
      if offset >= manager.fileSize { return []; }
      var r := ReadBytes(offset, Min(manager.fileSize - offset, maxLength));
      buffer := r.value;
    }

    /** Writes as much of the buffer as lies in the page of one byte: the body of the loop below. */
    method WritePiece(buffer: seq<Byte>, offset: nat, byte: nat) returns (pLength: nat)
      requires Valid() && offset <= byte < offset + |buffer|
      requires backend.mode.Append? ==> |backend.remote| <= byte <= |Data()| && Aligned(manager.View())
      modifies manager`pages, manager`deferred, manager`fileSize, backend
      ensures Valid() && 0 < pLength && byte + pLength <= offset + |buffer|
      ensures Data() == Overlay(old(Data()), byte, buffer[byte - offset..byte - offset + pLength])
      ensures backend.mode.Append? ==> backend.remote == old(backend.remote) && backend.created == old(backend.created)
    {
      hide Contents, Shaped, Covered, Sequential, Overlay, Cell, PatchedCell;
      var pageSize := manager.pageSize;
      SplitOffset(byte, pageSize);
      StartIsProduct(byte / pageSize, pageSize);
      var index := byte / pageSize;
      var pOffset := byte - index * pageSize;
      pLength := Min(|buffer| + offset - byte, pageSize - pOffset);
      ghost var s := manager.View();
      var piece := buffer[byte - offset..byte - offset + pLength];
      if backend.mode.Append? { PageBehindEnd(s, index, byte); }
      manager.WritePage(index, pOffset, piece);
      PatchedContents(s, manager.View(), index, pOffset, piece);
    }

    /** The loop over the pages of a write. */
    method WritePages(buffer: seq<Byte>, offset: nat)
      requires Valid()
      requires backend.mode.Append? && buffer != [] ==>
                |backend.remote| <= offset <= |Data()| && Aligned(manager.View())
      modifies manager`pages, manager`deferred, manager`fileSize, backend
      ensures Valid() && Data() == Overlay(old(Data()), offset, buffer)
      ensures backend.mode.Append? ==> backend.remote == old(backend.remote) && backend.created == old(backend.created)
    {
      hide Contents, Shaped, Covered, Sequential, Cell, Laid, Overlay, Aligned;
      ghost var c, remote, created := Data(), backend.remote, backend.created;
      var byte := offset;
      LaidEnds(c, offset, buffer);
      while byte < offset + |buffer|
        invariant offset <= byte <= offset + |buffer| && Valid()
        invariant Data() == Laid(c, offset, buffer, byte - offset)
        invariant backend.mode.Append? ==> backend.remote == remote && backend.created == created
        invariant backend.mode.Append? && buffer != [] ==> Aligned(manager.View())
      {
        LaidLength(c, offset, buffer, byte - offset);
        ghost var s := manager.View();
        var pLength := WritePiece(buffer, offset, byte);
        if backend.mode.Append? { SameAlignment(s, manager.View()); }
        LaidMore(c, offset, buffer, byte - offset, pLength);
        byte := byte + pLength;
      }
    }

    /**
     * Writes data at an offset. Where the server file only grows at its end, data before the server's end is refused,
     * and the server's last page is completed before other pages are written.
     */
    method WriteBytes(buffer: seq<Byte>, offset: nat) returns (r: Result<()>)
      requires Valid()
      modifies manager`pages, manager`deferred, manager`fileSize, backend
      ensures Valid()
      ensures backend.mode.Append? && old(backend.created) && offset < |old(backend.remote)| ==>
        r == Failure(WriteType) && manager.View() == old(manager.View())
      ensures !(backend.mode.Append? && old(backend.created) && offset < |old(backend.remote)|) ==>
        && r == Success(())
        && Data() == if backend.mode.Random? then Overlay(old(Data()), offset, buffer)
                     else SequentialWrite(old(Data()), offset, buffer)
      ensures backend.mode.Append? && old(Aligned(manager.View())) ==>
        backend.remote == old(backend.remote) && backend.created == old(backend.created)
      ensures backend.mode.Append? ==> old(backend.remote) <= backend.remote && backend.created == old(backend.created)
      ensures backend.mode.Append? && r.Success? && backend.created ==>
        |backend.remote| == Completed(manager.pageSize, |old(backend.remote)|, offset + |buffer|)
      ensures backend.mode.Append? && !backend.created ==> backend.remote == old(backend.remote)
      decreases if offset > manager.fileSize then offset - manager.fileSize else 0, 1
    {
      hide Contents, Shaped, Covered, Sequential;
      var rest, start := buffer, offset;
      ghost var c := Data();
      if backend.mode.Append? && backend.created {
        if offset < backend.size { return Failure(WriteType); }
        var fromBuffer;
        ghost var body;
        fromBuffer, body := FixPageAlignment(buffer, offset);
        rest, start := buffer[fromBuffer..], offset + fromBuffer;
        assert buffer == buffer[..fromBuffer] + rest;
        AfterAlignment(c, Data(), buffer, offset, fromBuffer);
      } else if backend.mode.Append? {
        EmptyIsAligned(manager.View());
        AfterAlignment(c, c, buffer, offset, 0);
      }
      if backend.mode.Append? {
        FillWriteHole(start);
      }
      WritePages(rest, start);
      r := Success(());
    }

    /**
     * Completes the server's last page, as the page manager can only append at page boundaries: with zeros up to the
     * offset of the data, and then with the first bytes of the data. body is the data of the request, if one is made.
     */
    method FixPageAlignment(buffer: seq<Byte>, offset: nat) returns (fromBuffer: nat, ghost body: Option<seq<Byte>>)
      requires Valid() && backend.mode.Append? && backend.created && offset >= |backend.remote|
      modifies manager`pages, manager`fileSize, backend
      ensures Valid() && backend.created && fromBuffer <= |buffer|
      ensures offset + fromBuffer >= |backend.remote|
      ensures Aligned(manager.View()) || (fromBuffer == |buffer| && offset + fromBuffer == |Data()|)
      ensures old(Aligned(manager.View())) ==> manager.View() == old(manager.View()) && fromBuffer == 0
      ensures AlignmentOf(old(Data()), Data(), buffer, offset, fromBuffer)
      ensures old(backend.remote) <= backend.remote
      ensures body.None? <==> old(Aligned(manager.View()))
      ensures body.Some? ==> backend.remote == old(backend.remote) + body.value
      ensures |backend.remote| == Completed(manager.pageSize, |old(backend.remote)|, offset + |buffer|)
      ensures body == Some([]) <==> EmptyBodyAtBrokenEnd(old(manager.View()), backend.mode, buffer, offset)
    {
      hide Contents, Shaped, Covered, AlignmentOf, Aligned, Sequential;
      NoAlignment(Data(), buffer, offset);
      AlignedIff(manager.View());
      var pageError := backend.size % manager.pageSize;
      fromBuffer, body := 0, None;
      if pageError != 0 {
        ghost var data;
        fromBuffer, data := CompleteLastPage(buffer, offset, manager.pageSize - pageError);
        body := Some(data);
      }
    }

    /** Its work if the server's last page lacks pageRest bytes. */
    method CompleteLastPage(buffer: seq<Byte>, offset: nat, pageRest: nat)
      returns (fromBuffer: nat, ghost body: seq<Byte>)
      requires Valid() && backend.mode.Append? && backend.created && offset >= |backend.remote|
      requires !Aligned(manager.View()) && pageRest == manager.pageSize - backend.size % manager.pageSize
      modifies manager`pages, manager`fileSize, backend
      ensures Valid() && backend.created && fromBuffer <= |buffer|
      ensures offset + fromBuffer >= |backend.remote|
      ensures Aligned(manager.View()) || (fromBuffer == |buffer| && offset + fromBuffer == |Data()|)
      ensures AlignmentOf(old(Data()), Data(), buffer, offset, fromBuffer)
      ensures backend.remote == old(backend.remote) + body
      ensures |body| == Min(offset + |buffer| - |old(backend.remote)|, pageRest)
      ensures (body == [] <==> buffer == [] && offset == |old(backend.remote)|)
    {
      hide Contents, Shaped, Covered, AlignmentOf, SequentialWrite, Overlay, Aligned;
      RemoteFits(manager.View(), manager.fileSize, -1);
      var backendSize, pageSize := backend.size, manager.pageSize;
      ghost var s, c := manager.View(), Data();
      SplitOffset(backendSize, pageSize);
      var writeSize := Min(offset + |buffer| - backendSize, pageRest);
      var fromZero := Min(offset - backendSize, writeSize);
      fromBuffer := if fromZero < writeSize then writeSize - fromZero else 0;
      var data := Zeros(fromZero) + buffer[..fromBuffer];
      body := data;
      NothingDirtyUnaligned(s);
      CleanIsSynced(s);
      AlignmentWrite(c, buffer, offset, pageRest, writeSize, fromZero, fromBuffer);
      AlignmentIsEmptyIff(backendSize, offset, |buffer|, pageRest);
      OverlayAtEnd(backend.remote, data);
      backend.WriteFile(backendSize, data);
      assert forall p: nat :: DirtyAt(manager.View(), p) == DirtyAt(s, p);
      manager.RemoteChanged(backendSize + writeSize);
      if writeSize == pageRest { AlignedBy(manager.View(), backendSize / pageSize + 1); }
    }

    /** Fills the gap between the end of the file and an offset with zeros, in pieces. */
    method FillWriteHole(offset: nat)
      requires Valid() && backend.mode.Append?
      requires offset > |Data()| ==> Aligned(manager.View())
      modifies manager`pages, manager`deferred, manager`fileSize, backend
      ensures Valid() && Data() == Resized(old(Data()), Max(|old(Data())|, offset))
      ensures old(Aligned(manager.View())) || offset <= |old(Data())| ==>
        backend.remote == old(backend.remote) && backend.created == old(backend.created)
      decreases if offset > manager.fileSize then offset - manager.fileSize else 0, 0
    {
      hide Contents, Shaped, Covered, Sequential, SequentialWrite;
      assert Resized(Data(), |Data()|) == Data();
      if offset > manager.fileSize {
        ghost var c, remote, created := Data(), backend.remote, backend.created;
        ghost var hole := offset - manager.fileSize;
        var holeOffset := manager.fileSize;
        while holeOffset < offset
          invariant Valid() && |c| <= holeOffset && manager.fileSize == Min(holeOffset, offset)
          invariant Data() == Resized(c, Min(holeOffset, offset))
          invariant backend.remote == remote && backend.created == created && Aligned(manager.View())
        {
          var holeSize := Min(offset - holeOffset, manager.pageSize);
          RemoteFits(manager.View(), manager.fileSize, -1);
          FilledMore(c, holeOffset, holeOffset + holeSize);
          var r := WriteBytes(Zeros(holeSize), holeOffset);
          holeOffset := holeOffset + manager.pageSize;
        }
      }
    }

    method Truncate(newSize: nat) returns (r: Result<()>)
      requires Valid()
      modifies manager`pages, manager`deferred, manager`fileSize, backend
      ensures Valid()
      ensures backend.mode.Append? && newSize != 0 ==> r == Failure(WriteType) && manager.View() == old(manager.View())
      ensures !(backend.mode.Append? && newSize != 0) ==> r == Success(()) && Data() == Resized(old(Data()), newSize)
      ensures newSize == 0 ==> backend.remote == [] && backend.created == old(backend.created)
    {
      if backend.mode.Append? && newSize != 0 { return Failure(WriteType); }
      ghost var s := manager.View();
      manager.Truncate(newSize);
      TruncatedContents(s, manager.View(), newSize);
      r := Success(());
    }

    /** The same with what is on the server, where the file only grows at its end. */
    ghost function Grown(): Growing
      requires Valid()
      reads this, manager, backend
    {
      Growing(Data(), backend.created, |backend.remote|)
    }

    /** Afterwards the server has the file, and has exactly its bytes. */
    method FlushCache()
      requires Valid()
      modifies manager`pages, manager`deferred, backend
      ensures Valid() && backend.created && backend.remote == Data() == old(Data())
      ensures forall p: nat :: !DirtyAt(manager.View(), p)
      ensures backend.mode.Append? ==> old(backend.remote) <= backend.remote
    {
      manager.FlushPages();
    }

    /**
     * Any sequence of operations on a file with random access: every read returns what a flat byte array would return,
     * so caching, eviction, write-back, holes and delayed creation cannot be seen.
     */
    method Run(ops: seq<Op>) returns (results: seq<Result<seq<Byte>>>)
      requires Valid() && backend.mode.Random?
      modifies manager, backend
      ensures Valid() && Data() == FlatRun(old(Data()), ops) && results == FlatReads(old(Data()), ops)
    {
      results := [];
      ghost var c := Data();
      for i := 0 to |ops|
        invariant Valid() && Data() == FlatRun(c, ops[..i]) && results == FlatReads(c, ops[..i])
      {
        assert ops[..i + 1][..i] == ops[..i];
        var r := Apply(ops[i]);
        if ops[i].Read? { results := results + [r]; }
      }
      assert ops[..|ops|] == ops;
    }

    /**
     * Any sequence of operations on a file that only grows at its end on the server. What is refused, what the reads
     * return and how much the server has is determined by a flat byte array and a number; all along the server has the
     * beginning of that array.
     */
    method RunSequential(ops: seq<Op>) returns (results: seq<Result<seq<Byte>>>)
      requires Valid() && backend.mode.Append?
      modifies manager, backend
      ensures Valid() && |results| == |ops|
      ensures Grown() == GrowingRun(manager.pageSize, old(Grown()), ops)
      ensures AllRight(manager.pageSize, old(Grown()), ops, results)
      ensures backend.remote == Data()[..|backend.remote|]
    {
      hide Contents, Shaped, Covered, Sequential, GrowingRun, GrowingStep, GrowingResult, AllRight;
      ghost var f, ps := Grown(), manager.pageSize;
      NothingRun(ps, f);
      results := [];
      for i := 0 to |ops|
        invariant Valid() && |results| == i && Grown() == GrowingRun(ps, f, ops[..i])
        invariant AllRight(ps, f, ops[..i], results)
      {
        var r := ApplySequential(ops[i]);
        AllRightNext(ps, f, ops[..i], results, ops[i], r);
        assert ops[..i + 1] == ops[..i] + [ops[i]];
        results := results + [r];
      }
      assert ops[..|ops|] == ops;
      ServerHasPrefix(manager.View());
    }

    /** The server's bytes never change where there are any, until the file is cut to nothing. */
    method ApplySequential(op: Op) returns (r: Result<seq<Byte>>)
      requires Valid() && backend.mode.Append?
      modifies manager, backend
      ensures Valid() && Grown() == GrowingStep(manager.pageSize, old(Grown()), op)
      ensures r == GrowingResult(old(Grown()), op)
      ensures op.Write? ==> (r == Failure(WriteType) <==> old(backend.created) && op.off < |old(backend.remote)|)
      ensures op.Cut? ==> (r == Failure(WriteType) <==> op.size != 0)
      ensures !op.Read? && r.Failure? ==> Data() == old(Data()) && backend.remote == old(backend.remote)
      ensures !op.Cut? ==> old(backend.remote) <= backend.remote
      ensures op.Flush? ==> backend.remote == Data()
      ensures op.Evict? && !old(DirtyAt(manager.View(), op.page)) ==> op.page !in manager.pages
    {
      hide Contents, Shaped, Covered, SequentialWrite, Completed, PageRest;
      r := Success([]);
      ghost var s := manager.View();
      match op
      case Read(off, len) => r := ReadBytes(off, len);
      case Write(off, data) =>
        var w := WriteBytes(data, off);
        if w.Failure? { r := Failure(w.error); }
      case Cut(size) =>
        var w := Truncate(size);
        if w.Failure? { r := Failure(w.error); }
      case Flush => FlushCache();
      case FlushOne(page) =>
        var written := manager.FlushPage(page, manager.fileSize, -1);
      case Evict(page) =>
        manager.EvictPage(page, manager.fileSize, -1);
        SequentialStays(s, manager.View());
        SameContents(s, manager.View());
    }

    method Apply(op: Op) returns (r: Result<seq<Byte>>)
      requires Valid() && backend.mode.Random?
      modifies manager, backend
      ensures Valid() && Data() == FlatStep(old(Data()), op)
      ensures op.Read? ==> r == FlatRead(old(Data()), op.off, op.len)
      ensures op.Flush? ==> backend.created && backend.remote == Data()
      ensures op.FlushOne? ==> !DirtyAt(manager.View(), op.page)
      ensures op.Evict? ==> op.page !in manager.pages
    {
      r := Success([]);
      ghost var s := manager.View();
      match op
      case Read(off, len) => r := ReadBytes(off, len);
      case Write(off, data) => var w := WriteBytes(data, off);
      case Cut(size) => var w := Truncate(size);
      case Flush => FlushCache();
      case FlushOne(page) =>
        var written := manager.FlushPage(page, manager.fileSize, -1);
        SameContents(s, manager.View());
      case Evict(page) =>
        manager.EvictPage(page, manager.fileSize, -1);
        SameContents(s, manager.View());
    }
  }

  lemma PageSlice(s: Store, index: nat, off: nat, piece: seq<Byte>)
    requires s.ps > 0 && off + |piece| <= s.ps && Start(index, s.ps) + off + |piece| <= s.fileSize
    requires forall k :: 0 <= k < |piece| ==> piece[k] == Cell(s, index, off + k)
    ensures piece == Contents(s)[Start(index, s.ps) + off..Start(index, s.ps) + off + |piece|]
  {
    hide Contents;
    forall k | 0 <= k < |piece| ensures piece[k] == Contents(s)[Start(index, s.ps) + off + k] {
      ContentsAt(s, index, off + k);
    }
  }

  /** An empty write exactly at a server end that lies within a page: it makes a request without data. */
  ghost predicate EmptyBodyAtBrokenEnd(s: Store, mode: WriteMode, buffer: seq<Byte>, offset: nat) {
    mode.Append? && s.created && buffer == [] && offset == |s.remote| && !Aligned(s)
  }

  /** It happens: an empty write at the end of a file of one byte, for a page size of four. */
  method EmptyBodyHappens(serverMax: nat, readAhead: nat) returns (file: File, ghost body: Option<seq<Byte>>)
    requires serverMax >= SMALLEST_REFUSABLE
    ensures file.Valid() && file.backend.mode.Append? && file.Data() == [0] && body == Some([])
  {
    hide Contents, Shaped, Covered, Sequential, Aligned;
    var backend := new PageBackend.Existing(4, Append, serverMax, [0]);
    file := new File(backend, readAhead);
    AlignedIff(file.manager.View());
    var fromBuffer;
    fromBuffer, body := file.FixPageAlignment([], 1);
  }

  /** The flat file once the first bytes of a buffer have been written. */
  ghost function Laid(c: seq<Byte>, offset: nat, buffer: seq<Byte>, done: nat): seq<Byte>
    requires done <= |buffer|
  {
    Overlay(c, offset, buffer[..done])
  }

  lemma LaidEnds(c: seq<Byte>, offset: nat, buffer: seq<Byte>)
    ensures Laid(c, offset, buffer, 0) == c && Laid(c, offset, buffer, |buffer|) == Overlay(c, offset, buffer)
  {
    assert buffer[..|buffer|] == buffer;
  }

  lemma LaidLength(c: seq<Byte>, offset: nat, buffer: seq<Byte>, done: nat)
    requires done <= |buffer|
    ensures |Laid(c, offset, buffer, done)| == if done == 0 then |c| else Max(|c|, offset + done)
  {
  }

  /** The next piece of a buffer behind what has been written of it. */
  lemma LaidMore(c: seq<Byte>, offset: nat, buffer: seq<Byte>, done: nat, len: nat)
    requires done + len <= |buffer|
    ensures Overlay(Laid(c, offset, buffer, done), offset + done, buffer[done..done + len])
         == Laid(c, offset, buffer, done + len)
  {
    OverlayTwice(c, offset, buffer[..done], buffer[done..done + len]);
    assert buffer[..done] + buffer[done..done + len] == buffer[..done + len];
  }

  lemma AlignedBy(s: Store, m: nat)
    requires |s.remote| == Start(m, s.ps)
    ensures Aligned(s)
  {
  }

  lemma SameAlignment(s: Store, t: Store)
    requires s.ps == t.ps && s.remote == t.remote && Aligned(s)
    ensures Aligned(t)
  {
  }

  lemma EmptyIsAligned(s: Store)
    requires s.remote == []
    ensures Aligned(s)
  {
    AlignedBy(s, 0);
  }

  lemma AlignedIff(s: Store)
    requires s.ps > 0
    ensures Aligned(s) <==> |s.remote| % s.ps == 0
  {
    SplitOffset(|s.remote|, s.ps);
    if Aligned(s) {
      var m: nat :| |s.remote| == Start(m, s.ps);
      SplitUnique(|s.remote|, s.ps, m, 0);
    } else {
      assert |s.remote| % s.ps != 0 by { if |s.remote| % s.ps == 0 { AlignedBy(s, |s.remote| / s.ps); } }
    }
  }

  lemma NothingDirtyUnaligned(s: Store)
    requires Sequential(s) && !Aligned(s)
    ensures s.fileSize == |s.remote| && forall p: nat :: !DirtyAt(s, p)
  {
  }

  /** A page at or behind an aligned server end starts at or behind it. */
  lemma PageBehindEnd(s: Store, index: nat, byte: nat)
    requires s.ps > 0 && Aligned(s) && |s.remote| <= byte && Start(index, s.ps) <= byte < Start(index, s.ps) + s.ps
    ensures |s.remote| <= Start(index, s.ps)
  {
    var m: nat :| |s.remote| == Start(m, s.ps);
    StartOrder(index, m, s.ps);
  }

  /** What completing the server's last page does to the flat file. */
  ghost predicate AlignmentOf(c: seq<Byte>, c': seq<Byte>, buffer: seq<Byte>, offset: nat, fromBuffer: nat) {
    && fromBuffer <= |buffer|
    && if fromBuffer > 0 then c' == SequentialWrite(c, offset, buffer[..fromBuffer])
       else |c| <= |c'| <= Max(|c|, offset) && c' == Resized(c, |c'|)
  }

  /** The request that completes the server's last page is empty exactly for an empty write at the server's end. */
  lemma AlignmentIsEmptyIff(backendSize: nat, offset: nat, length: nat, pageRest: nat)
    requires backendSize <= offset && pageRest > 0
    ensures Min(offset + length - backendSize, pageRest) == 0 <==> length == 0 && offset == backendSize
  {
  }

  lemma NoAlignment(c: seq<Byte>, buffer: seq<Byte>, offset: nat)
    ensures AlignmentOf(c, c, buffer, offset, 0)
  {
    assert c == Resized(c, |c|);
  }

  /** A longer stretch of zeros. */
  lemma FilledMore(c: seq<Byte>, from: nat, to: nat)
    requires |c| <= from <= to
    ensures SequentialWrite(Resized(c, from), from, Zeros(to - from)) == Resized(c, to)
  {
  }

  lemma AlignmentWrite(c: seq<Byte>, buffer: seq<Byte>, offset: nat, pageRest: nat, writeSize: nat, fromZero: nat,
                       fromBuffer: nat)
    requires |c| <= offset && pageRest > 0
    requires writeSize == Min(offset + |buffer| - |c|, pageRest) && fromZero == Min(offset - |c|, writeSize)
    requires fromBuffer == writeSize - fromZero
    ensures fromBuffer <= |buffer| && |c| + writeSize <= offset + fromBuffer
    ensures writeSize < pageRest ==> fromBuffer == |buffer| && |c| + writeSize == offset + |buffer|
    ensures var c' := Overlay(c, |c|, Zeros(fromZero) + buffer[..fromBuffer]);
      |c'| == |c| + writeSize && AlignmentOf(c, c', buffer, offset, fromBuffer)
  {
    var c' := Overlay(c, |c|, Zeros(fromZero) + buffer[..fromBuffer]);
    if fromBuffer > 0 {
      assert c' == SequentialWrite(c, offset, buffer[..fromBuffer]);
    } else {
      assert c' == Resized(c, |c'|);
    }
  }

  /** Filling the gap and writing the rest completes the write. */
  lemma AfterAlignment(c: seq<Byte>, c': seq<Byte>, buffer: seq<Byte>, offset: nat, fromBuffer: nat)
    requires AlignmentOf(c, c', buffer, offset, fromBuffer)
    ensures SequentialWrite(c', offset + fromBuffer, buffer[fromBuffer..]) == SequentialWrite(c, offset, buffer)
  {
    var base := Resized(c, Max(|c|, offset));
    if fromBuffer > 0 {
      OverlayTwice(base, offset, buffer[..fromBuffer], buffer[fromBuffer..]);
      assert buffer[..fromBuffer] + buffer[fromBuffer..] == buffer;
      assert Resized(c', Max(|c'|, offset + fromBuffer)) == c';
    } else {
      assert buffer[fromBuffer..] == buffer;
      assert Resized(c', Max(|c'|, offset)) == base;
    }
  }
}
