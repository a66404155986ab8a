/** The page interface to the server: one remote file, read and written in pages. Models PageBackend. */
module PageBackends {
  import opened Bytes
  import opened StreamFetch
  import opened SendFile

  /** How the file may be changed on the server once it exists there. */
  datatype WriteMode = Append | Random

  class PageBackend {
    const pageSize: nat
    const mode: WriteMode
    /** The server takes every request body of at most this many bytes. */
    const serverMax: nat

    /** The client's idea of the server's file size. */
    var size: nat
    /** Whether the file has been created on the server. */
    var created: bool
    /** The client's limit for one request body, 0 for none. */
    var uploadMax: nat
    /** The bytes the server holds. */
    var remote: seq<Byte>

    ghost predicate Valid()
      reads this
    {
      pageSize > 0 && serverMax >= SMALLEST_REFUSABLE && size == |remote| && (!created ==> remote == [])
    }

    /** A file that the server already has. */
    constructor Existing(pageSize: nat, mode: WriteMode, serverMax: nat, remote: seq<Byte>)
      requires pageSize > 0 && serverMax >= SMALLEST_REFUSABLE
      ensures Valid() && created && this.remote == remote
      ensures this.pageSize == pageSize && this.mode == mode
    {
      this.pageSize, this.mode, this.serverMax := pageSize, mode, serverMax;
      this.remote, this.size, this.created, this.uploadMax := remote, |remote|, true, 0;
    }

    /** A file that is to be created by its first flush. */
    constructor New(pageSize: nat, mode: WriteMode, serverMax: nat)
      requires pageSize > 0 && serverMax >= SMALLEST_REFUSABLE
      ensures Valid() && !created
      ensures this.pageSize == pageSize && this.mode == mode
    {
      this.pageSize, this.mode, this.serverMax := pageSize, mode, serverMax;
      this.remote, this.size, this.created, this.uploadMax := [], 0, false, 0;
    }

    /**
     * Reads count pages. The reply may be cut up and restarted in any way, as long as it is read to its end. If data
     * comes after that, a page is begun that nobody gets to see.
     */
    method FetchPages(index: nat, count: nat) returns (pages: seq<seq<Byte>>)
      requires Valid() && count > 0 && Start(index + count - 1, pageSize) < size
      ensures |pages| == count
      ensures forall d :: 0 <= d < count ==> pages[d] == PageOf(remote, pageSize, index + d)
    {
      if count > 1 { StartOrder(index, index + count - 1, pageSize); }
      ReplyIsRead(remote, pageSize, index, count);
      var body := Reply(remote, pageSize, index, count);
      SingleChunkInTime(body);
      var chunks: seq<Chunk> :| Delivery(body, chunks) && Finished(body, chunks, |chunks|);
      var log, unfinished := Reassemble(pageSize, index, count, size, chunks, body);
      pages := seq(count, d requires 0 <= d < count => log[d].1);
      forall d | 0 <= d < count ensures pages[d] == PageOf(remote, pageSize, index + d) {
        ReplyPage(remote, pageSize, index, count, d);
      }
    }

    /**
     * Writes a run of pages, creating the file if it does not exist yet. A file that only grows at its end is written
     * exactly there.
     */
    method FlushPageList(index: nat, pages: seq<seq<Byte>>) returns (total: nat)
      requires Valid() && pages != [] && WellFormed(PageRun(pageSize, pages))
      requires mode.Append? ==> if created then Start(index, pageSize) == |remote| else index == 0
      modifies this
      ensures Valid() && created && total == |Joined(pages)|
      ensures remote == Overlay(old(remote), Start(index, pageSize), Joined(pages))
    {
      total := 0;
      for i := 0 to |pages|
        invariant total == |Joined(pages[..i])|
      {
        assert pages[..i + 1][..i] == pages[..i];
        total := total + |pages[i]|;
      }
      assert pages[..|pages|] == pages;
      StartIsProduct(index, pageSize);
      var writeStart := index * pageSize;
      if !created && index != 0 {
        FlushCreate();
      }
      var src := PageRun(pageSize, pages);
      var outcome, newRemote, newMax, byte := Send(src, remote, writeStart, !created, false, uploadMax, serverMax);
      assert Joined(pages)[..byte] == Joined(pages);
      remote, uploadMax, created := newRemote, newMax, true;
      JoinedLength(pageSize, pages);
      size := Max(size, writeStart + total);
    }

    /** Creates the file on the server, empty, unless it exists. */
    method FlushCreate()
      requires Valid()
      modifies this
      ensures Valid() && created && remote == old(remote) && unchanged(`uploadMax)
    {
      if !created {
        remote := [];
        created := true;
      }
    }

    /** Sets the server's file size; nothing happens while the file does not exist. */
    method Truncate(newSize: nat)
      requires Valid()
      modifies this
      ensures Valid() && created == old(created)
      ensures remote == if created then Resized(old(remote), newSize) else old(remote)
    {
      if created && size != newSize {
        remote := Resized(remote, newSize);
        size := newSize;
      } else if created {
        assert Resized(remote, newSize) == remote;
      }
    }

    /** Writes data straight to the server; the caller has yet to be told of the new size (see SetBackendSize). */
    method WriteFile(offset: nat, data: seq<Byte>)
      requires Valid() && created
      requires mode.Append? ==> offset == |remote|
      modifies this
      ensures remote == Overlay(old(remote), offset, data)
      ensures unchanged(`size) && unchanged(`created)
    {
      var outcome, newRemote, newMax, byte := Send(Text(data), remote, offset, false, false, uploadMax, serverMax);
      assert data[..byte] == data;
      remote, uploadMax := newRemote, newMax;
    }

    method SetBackendSize(backendSize: nat)
      modifies `size
      ensures size == backendSize
    {
      size := backendSize;
    }
  }

  lemma SingleChunkInTime(body: seq<Byte>)
    ensures var chunks := [Chunk(0, body)];
            Delivery(body, chunks) && Finished(body, chunks, |chunks|) && !Late(body, chunks, |chunks|)
  {
    var chunks := [Chunk(0, body)];
    assert chunks[0].End() == |body|;
  }
}
