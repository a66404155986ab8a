# Andromeda file data: a verified model

Andromeda's client keeps the pages of remote files in a write-back cache. This project models that cache and the parts it
stands on, and proves what they promise. The modules follow the program's own parts:

- `Bytes` - byte strings that continue with zeros, writes as overlays, and the arithmetic of page offsets.
- `PageStore` - the state behind one cached file (page map, file size, the server's bytes), the invariant on the shape of
  its pages, and what each step does to the flat byte array that the file stands for.
- `PageBackends`, `PageManagers`, `Files` - the classes `PageBackend`, `PageManager` and `File` over that state. The main
  results are `Files.File.Run` and `Files.File.RunSequential`: whatever is cached, evicted, flushed, cut or created late, a
  user sees one flat byte array.
- `SendFile` - streaming upload in bodies with a size limit that backs off; `StreamFetch` - cutting a download that may start
  over into pages.
- `FetchProtocol` - readers and background fetch threads of one file, over every interleaving.
- `DirtyTracking` - which dirty pages of a file the cache manager knows, whatever is cleaned in the middle of a write.
- `CacheManagers` - the least-recently-used queues over all files, their totals, and the choice of pages to clean;
  `CacheWaits` - how clients and cleanup threads wait for each other, over every interleaving.
- `MemoryAllocators`, `CachingAllocators` - the checked allocator, and the pool of freed memory in front of it.
- `OrderedMaps` - the list with a table that the queues are made of.
- `SharedMutexes`, `RunnerPools` - the fair reader-writer lock and the pool of runners, over every interleaving.
- `Likes` - escaping text for a LIKE pattern.

Code that changes objects step by step is a class or a method here, proved against functions of the values it works on;
thread protocols are step systems whose steps are what one thread does under a mutex. A page number times the page size is
`Start(page, pageSize)`, which `Bytes.StartIsProduct` equates with the product.

The server is a byte sequence whose writes past the end fill with zeros. Backend calls do not fail, except that an upload
body may be refused as too large. A server takes every body of up to 8189 bytes (`SendFile.SMALLEST_REFUSABLE`): below that
the sender itself gives up (src/lib/andromeda/backend/BackendImpl.cpp:777-782), and `SendFile.Send` covers any smaller limit.
The file mode is fixed while the model runs. Sizes and offsets are unbounded except where the program relies on the
wrap-around of `size_t` (`CachingAllocators.CachingAllocator.Limit`, `StreamFetch.NewPageLength`).

Where the code does not do what its comments or its own checks say, the model follows the code:

- A change of the remote file while the last dirty page is short leaves that page too short
  (`PageStore.RemoteChangeBreaksShape`, and exactly when in `PageStore.RemoteChangeKeepsShapeIff`).
- When a file is going away, choosing pages to evict or flush passes over the next page, or runs off the list
  (`CacheManagers.Select` states exactly when; `CacheManagers.GoingAwayIsOutOfScope`, `CacheManagers.FirstPageIsOutOfScope`).
  Its lock is then taken all the same, although it could not be kept from going away
  (src/lib/andromeda/filesystem/filedata/CacheManager.cpp:444-448 and 514-518; `CacheManagers.CacheManager.DoPageEvictions`
  and `CacheManagers.CacheManager.DoPageFlushes` state exactly when, `CacheManagers.LooksAtFileGoingAway`).
- A writer may find pages pending, against src/lib/andromeda/filesystem/filedata/PageManager.cpp:166-167: a fetch ahead takes
  its lock only some time after it has been started (`FetchProtocol.WriterActsIff`). A page may then arrive that is there
  already, or the range may no longer lie on the server (`FetchProtocol.ArrivesTwiceIff` and `FetchProtocol.RangeIsCutIff`
  state exactly when, `FetchProtocol.WriterComesBetween`). The arriving page does not replace the one that is there, but
  takes it off the dirty queue (`DirtyTracking.RefetchLosesTrackIff`).
- A page that is extended can end up dirty without being in the dirty queue, so that no flush thread finds it: making room
  for it may write it together with the page before, and only then is it marked dirty
  (`DirtyTracking.WrittenIsTrackedIff` states exactly when, `DirtyTracking.AppendLosesTrack`).
- A oneshot upload of exactly the limit's size is refused by the sender, although `File::WriteBytes` lets it pass
  (src/lib/andromeda/filesystem/File.cpp:255; `SendFile.Send`, `SendFile.ExactLimitIsRefusedIff`).
- A refused body of one byte sets the upload limit to 0, which means no limit: without a limit before, the same request is
  repeated for ever (`SendFile.BackoffStuckIff`).
- An empty write at the end of an append-only file whose size is not a multiple of the page size sends an empty body
  (`Files.File.FixPageAlignment` states exactly when, `Files.EmptyBodyHappens`), which `BackendImpl::WriteFile` asserts against
  (src/lib/andromeda/backend/BackendImpl.cpp:682). The model follows a build without assertions, where such a write changes
  nothing.
- An empty write past the end of an append-only file still extends it (`Files.SequentialWriteIsOverlayIff`).
- Data that comes after a download has been read to its end opens a page that is never finished, which is asserted against
  (src/lib/andromeda/filesystem/filedata/PageBackend.cpp:98; `StreamFetch.Reassemble` states exactly when,
  `StreamFetch.LateDataHappens`). Without assertions the pages handed out are right all the same.
- While the peak of memory in use is below the baseline, the allocator's pool limit wraps round and nothing is discarded,
  where the intended limit is nothing (`CachingAllocators.CachingAllocator.Free`, `CachingAllocators.KeptBelowBaseline`).

## Model

| member | source | states |
|---|---|---|
| `Files.File.Run` | src/lib/andromeda/filesystem/File.cpp:197-350 | For every sequence of reads, writes, truncations, flushes, single-page flushes and evictions in random-access mode: the file is what a flat zero-filling byte array would be after the same operations, and every read returns what that array would return |
| `Files.File.RunSequential` | src/lib/andromeda/filesystem/File.cpp:226-350 | For every sequence of operations on a file that only grows at its end on the server: what is refused, what every read returns, and how many bytes the server has after each operation follow from a flat byte array and a number (a write past the end fills the gap even if it is empty, and goes to the server only as far as it completes the last page there); the server always has a prefix of the array |
| `Files.File.ApplySequential` | src/lib/andromeda/filesystem/File.cpp:254-350 | A write is refused exactly if it starts before the server's end, a truncation exactly if it is not to 0, and a refused operation changes nothing; apart from truncation the server's bytes are only ever extended; a flush brings the server up to date, and a clean page that is evicted leaves the cache |
| `Files.File.Apply` | src/lib/andromeda/filesystem/File.cpp:181-350 | In random-access mode one operation does to the file what it does to a flat byte array; after a flush the server has exactly these bytes, and a flushed page is clean and an evicted one gone |
| `Files.File.ReadBytes` | src/lib/andromeda/filesystem/File.cpp:197-224 | A read across pages returns exactly the requested bytes of the flat file, and the bounds error exactly if offset plus length exceeds its size; the file does not change |
| `Files.File.ReadBytesMax` | src/lib/andromeda/filesystem/File.cpp:181-194 | A read that is cut off at the end of the file |
| `Files.File.WriteBytes` | src/lib/andromeda/filesystem/File.cpp:227-292 | In either mode the flat file is overlaid with the data (zeros fill a gap); refused exactly if the server file only grows and the offset lies before its end; the server gains exactly what completes its last page, if the file is there; the recursion with FillWriteHole terminates |
| `Files.File.WritePages` | src/lib/andromeda/filesystem/File.cpp:278-291 | The page-splitting loop of a write is one overlay of the flat file |
| `Files.File.FixPageAlignment` | src/lib/andromeda/filesystem/File.cpp:295-318 | The server's last page is completed by a write exactly at the server's end; afterwards the server's size is a multiple of the page size or the whole buffer is used up, and what remains of the write completes it; the data sent is exactly what the server gains, and is empty exactly for an empty write at a server's end within a page |
| `Files.File.FillWriteHole` | src/lib/andromeda/filesystem/File.cpp:321-334 | The gap before the offset is filled with zeros, so no gap is left between the server's end and the data; the server is not touched once its size is a multiple of the page size |
| `Files.File.Truncate` | src/lib/andromeda/filesystem/File.cpp:337-350 | The flat file is cut or zero-extended; refused exactly for a nonzero size of a file that only grows |
| `Files.File.FlushCache` | src/lib/andromeda/filesystem/File.cpp:171-178 | Afterwards the file exists on the server, no page is dirty, and the server has exactly the client's bytes |
| `Files.SequentialWriteIsOverlayIff` | src/lib/andromeda/filesystem/File.cpp:274-291 | A write to a sequential file is the same overlay as a random write except if it is empty and starts past the end: then it still extends the file |
| `Files.EmptyBodyHappens` | src/lib/andromeda/filesystem/File.cpp:302-314 | It happens: an empty write at the end of a file of one byte sends a request without data |
| `Files.AfterAlignment` | src/lib/andromeda/filesystem/File.cpp:268-276 | Completing the last page and then writing the rest is the one write that was asked for |
| `PageManagers.PageManager.ReadPage` | src/lib/andromeda/filesystem/filedata/PageManager.cpp:58-67 | The bytes copied out are those of the flat file, and caching is invisible |
| `PageManagers.PageManager.WritePage` | src/lib/andromeda/filesystem/filedata/PageManager.cpp:70-88 | Exactly the written bytes of the flat file change and the file grows exactly as far as they reach, whatever pages are evicted or flushed before the dirty mark and the new size are set; the shape invariant holds again |
| `PageManagers.PageManager.GetPageRead` | src/lib/andromeda/filesystem/filedata/PageManager.cpp:91-151 | The page gets cached, by a fetch or as zeros between the server's end and dirty pages, without changing any byte of the file; the pages newly cached are exactly the stretch that begins with it, or if it is there already the first stretch ahead that is missing |
| `PageManagers.PageManager.GetPageWrite` | src/lib/andromeda/filesystem/filedata/PageManager.cpp:154-197 | The page is provided with the length it is to have after the write, with its old bytes unless all of them are to be overwritten; the mid-write shape holds although other pages may be evicted or flushed on the way |
| `PageManagers.PageManager.ExtendOldLast` | src/lib/andromeda/filesystem/filedata/PageManager.cpp:171-177 | A page past the end may be added only after the old last page has been filled up; the invariant holds for the size the file is about to have |
| `PageManagers.PageManager.Tidy` | src/lib/andromeda/filesystem/filedata/PageManager.cpp:82-87 | Any number of evictions and flushes of other pages in the middle of a write keep the mid-write shape and every byte of the file |
| `PageManagers.PageManager.EvictPage` | src/lib/andromeda/filesystem/filedata/PageManager.cpp:501-531 | The page leaves the cache (a dirty one of a file that only grows stays and is noted for later), dirty pages behind it may be written, and no byte of the file changes |
| `PageManagers.PageManager.FlushPage` | src/lib/andromeda/filesystem/filedata/PageManager.cpp:534-556 | The page is clean afterwards in random-access mode, nothing happens otherwise, and no byte of the file changes |
| `PageManagers.PageManager.GetWriteList` | src/lib/andromeda/filesystem/filedata/PageManager.cpp:460-498 | A run of consecutive dirty pages; no dirty page between the start and the new position is left out, and the first page is in it if it is dirty; a run of several pages is within the upload limit, and it ends only at a gap, a clean page, or a page that would exceed the limit |
| `PageManagers.PageManager.WriteLists` | src/lib/andromeda/filesystem/filedata/PageManager.cpp:563-576 | The runs are disjoint, in ascending order, list exactly the dirty pages, and are split no more than the upload limit asks for |
| `PageManagers.PageManager.FlushPages` | src/lib/andromeda/filesystem/filedata/PageManager.cpp:559-590 | No page is dirty, evictions that were put off are made up for, the file exists on the server, and the server's bytes and size equal the flat file, also for a file that was never created and for truncations kept back until its creation; in append mode the server's bytes are only extended |
| `PageManagers.PageManager.FlushPageList` | src/lib/andromeda/filesystem/filedata/PageManager.cpp:593-612 | One run is written and marked clean and nothing else changes; with no run the file is still created |
| `PageManagers.PageManager.FlushCreate` | src/lib/andromeda/filesystem/filedata/PageManager.cpp:615-637 | After creation the server's file is grown exactly if no dirty page is going to do it, which no reader can see |
| `PageManagers.PageManager.GetFetchSize` | src/lib/andromeda/filesystem/filedata/PageManager.cpp:303-343 | The pages to fetch are exactly those from the given one on that lie on the server and within the window, a single one at the start of the file, with no cached page up to them; none only if the page is cached or past the server's end |
| `PageManagers.PageManager.AdvanceRead` | src/lib/andromeda/filesystem/filedata/PageManager.cpp:346-363 | Of the pages ahead of a read the first one that is missing gets cached, with exactly the stretch that a fetch there asks for, and no byte of the file changes |
| `PageManagers.PageManager.FetchPages` | src/lib/andromeda/filesystem/filedata/PageManager.cpp:384-436 | Exactly the pages of the range get cached, zero-extended where the file is already longer than the server's, without changing any byte of the file |
| `PageManagers.PageManager.Truncate` | src/lib/andromeda/filesystem/filedata/PageManager.cpp:671-699 | In either mode the flat file is cut or zero-extended, on the server at once if it exists there, and the shape is kept although growing the old last page may evict or flush others; in append mode the invariant holds again after a cut to nothing, the only one that the file asks for |
| `PageManagers.PageManager.RemoteChanged` | src/lib/andromeda/filesystem/filedata/PageManager.cpp:640-668 | Nothing happens before the file exists; else only dirty pages are kept and the size is the larger of the server's size and the last dirty end; with nothing dirty the client then mirrors the server |
| `PageManagers.FetchedPageKeeps` | src/lib/andromeda/filesystem/filedata/PageManager.cpp:397-410 | A fetched page extended by the length of the batch's first page is never too short, and caching it is invisible |
| `PageStore.FlushKeepsShape` | src/lib/andromeda/filesystem/filedata/PageManager.cpp:593-612 | Writing a dirty run to the server and marking it clean keeps the shape invariant and every byte a reader sees, between operations and in the middle of a write |
| `PageStore.EraseKeepsShape` | src/lib/andromeda/filesystem/filedata/PageManager.cpp:522-526 | Dropping a clean page keeps the shape and every byte a reader sees |
| `PageStore.CacheKeepsShape` | src/lib/andromeda/filesystem/filedata/PageManager.cpp:112-128 | Caching a page of server bytes with any zero padding keeps the shape and every byte a reader sees |
| `PageStore.FinishWrite` | src/lib/andromeda/filesystem/filedata/PageManager.cpp:82-87 | The last step of a write turns the mid-write shape into the invariant between operations |
| `PageStore.TruncateKeepsShape` | src/lib/andromeda/filesystem/filedata/PageManager.cpp:671-699 | A truncation keeps the invariant, and cuts or zero-extends byte by byte |
| `PageStore.FileSizeIsMax` | src/lib/andromeda/filesystem/filedata/PageManager.hpp:255-256 | If the file exists its size is the larger of the server's size and the end of the last dirty page |
| `PageStore.InnerPagesAreFull` | src/lib/andromeda/filesystem/filedata/PageManager.cpp:692-696 | Every cached page before the last is full |
| `PageStore.ZeroPastEnd` | src/lib/andromeda/filesystem/filedata/PageManager.cpp:119-121 | Whatever is cached, only zeros lie past the end of the file |
| `PageStore.CleanIsSynced` | src/lib/andromeda/filesystem/filedata/PageManager.cpp:559-590 | With no dirty page left the server's file is the client's file |
| `PageStore.FlushKeepsSequential` | src/lib/andromeda/filesystem/filedata/PageManager.cpp:582-583 | Writing the run at the server's end leaves the remaining dirty pages in one run at the new end |
| `PageStore.FirstDirtyIsAtEnd` | src/lib/andromeda/filesystem/filedata/PageBackend.cpp:120-121 | In append mode the first dirty page starts exactly at the server's end |
| `PageStore.ServerHasPrefix` | src/lib/andromeda/filesystem/filedata/PageBackend.cpp:114-155 | In append mode the server has exactly the beginning of the client's file |
| `PageStore.SequentialIsCovered` | src/lib/andromeda/filesystem/filedata/PageManager.cpp:631-636 | In append mode the bytes behind the server's end are always owed to a dirty page, so no truncation is ever sent |
| `PageStore.RemoteChangeKeepsShapeIff` | src/lib/andromeda/filesystem/filedata/PageManager.cpp:656-667 | A change from outside keeps the shape exactly if no dirty page is short while the server's file reaches past it |
| `PageStore.RemoteChangeBreaksShape` | src/lib/andromeda/filesystem/filedata/PageManager.cpp:656-667 | A short dirty last page and a longer server file: the shape is lost |
| `PageStore.WrittenRunAt` | src/lib/andromeda/filesystem/filedata/PageBackend.cpp:130-155 | A written run changes the server exactly under its own pages' bytes |
| `PageBackends.PageBackend.FetchPages` | src/lib/andromeda/filesystem/filedata/PageBackend.cpp:44-101 | However the reply is cut up, started over or repeated: each page of the range is handed out, with exactly the server's bytes of that page |
| `PageBackends.PageBackend.FlushPageList` | src/lib/andromeda/filesystem/filedata/PageBackend.cpp:104-158 | The joined pages are laid over the server's file at the first page's offset, creating it if necessary; in append mode exactly at the server's end |
| `PageBackends.PageBackend.FlushCreate` | src/lib/andromeda/filesystem/filedata/PageBackend.cpp:161-171 | Creates an empty file once |
| `PageBackends.PageBackend.Truncate` | src/lib/andromeda/filesystem/filedata/PageBackend.cpp:174-184 | The server's file gets the size, unless it does not exist yet |
| `StreamFetch.Reassemble` | src/lib/andromeda/filesystem/filedata/PageBackend.cpp:56-98 | For any chunking and any restarts from offset 0: each page is handed out once, in ascending order, with the server's bytes; all of them exactly if the reply was read to its end; a page is left unfinished exactly if data still came after that |
| `StreamFetch.LateDataHappens` | src/lib/andromeda/filesystem/filedata/PageBackend.cpp:64-95 | Data can come late: a reply that starts over after it has been read to its end |
| `StreamFetch.TakePiece` | src/lib/andromeda/filesystem/filedata/PageBackend.cpp:64-95 | One step of the callback keeps the page being filled right up to a known point, hands it out when complete, and ignores data of earlier pages |
| `StreamFetch.ReplyPage` | src/lib/andromeda/filesystem/filedata/PageBackend.cpp:53-54 | Page d of the reply is page index + d of the server's file |
| `SendFile.Send` | src/lib/andromeda/backend/BackendImpl.cpp:734-790 | For any buffer sizes and any pattern of rejections by a server that takes all bodies up to some size: it terminates, what was accepted is a prefix of the stream laid at the offset, all of it on success; success is certain if every body of at most 8189 bytes is taken; the limit only ever falls, never to 0 and never below half of what the server takes. A oneshot upload within the server's limit succeeds exactly if it is shorter than the client's limit |
| `SendFile.StreamBody` | src/lib/andromeda/backend/BackendImpl.cpp:745-757 | One body is the next stretch of the stream, ends only at the stream's end or past the limit, and is at most twice the limit less one byte |
| `SendFile.ProducerWalksStream` | src/lib/andromeda/filesystem/filedata/PageBackend.cpp:130-145 | Whatever the buffer, a producer's call yields the next bytes of its stream and says stop only at the end; for a page run the stream is the concatenation of the pages |
| `SendFile.StreamSize` | src/lib/andromeda/backend/RunnerInput.cpp:10-21 | Counts exactly the bytes of the stream |
| `SendFile.JoinedAt` | src/lib/andromeda/filesystem/filedata/PageBackend.cpp:133-143 | Byte k of page p is byte p * pageSize + k of the stream |
| `SendFile.ChunkExtends` | src/lib/andromeda/backend/BackendImpl.cpp:770-773 | An accepted body behind an accepted prefix makes a longer accepted prefix |
| `SendFile.BackoffLowers` | src/lib/andromeda/backend/BackendImpl.cpp:671-676 | A rejection halves the size of the body, and so strictly lowers a nonzero limit, not to 0 exactly if the body had at least two bytes |
| `SendFile.BackoffStuckIff` | src/lib/andromeda/backend/BackendImpl.cpp:771-787 | After a rejection the sender is back at the same limit, to repeat the same request, exactly if it has no limit and the body had one byte at most |
| `SendFile.ExactLimitIsRefusedIff` | src/lib/andromeda/filesystem/File.cpp:255-256 | A file may be written and then not be uploaded in one request exactly if it is as long as the limit; and there are such lengths |
| `FetchProtocol.FetchIsNew` | src/lib/andromeda/filesystem/filedata/PageManager.cpp:303-343 | A new fetch asks for exactly the longest stretch of pages on the server that are neither cached nor pending, within the window, or a single page at the start of the file |
| `FetchProtocol.StepKeepsInv` | src/lib/andromeda/filesystem/filedata/PageManager.cpp:91-151 | Every action of a reader, a fetch thread or a writer keeps the pending ranges disjoint and each the work of one thread, keeps pages that are awaited absent until they come, and keeps every reader waiting only for what will come |
| `FetchProtocol.PendingOnce` | src/lib/andromeda/filesystem/filedata/PageManager.cpp:264-300 | In every run a page is pending in one range at most; it has not failed then, and is in the cache exactly if the last writer found it pending and left it there |
| `FetchProtocol.WaitsForWhatComes` | src/lib/andromeda/filesystem/filedata/PageManager.cpp:132-144 | In every run a waiting reader's page is cached, pending or failed, and the reader has been signalled unless it is pending |
| `FetchProtocol.WriterActsIff` | src/lib/andromeda/filesystem/filedata/PageManager.cpp:346-396 | In every run a writer gets the lock exactly if no reader is inside and every fetch under way has been started ahead and has not got its own lock yet |
| `FetchProtocol.ArrivesTwiceIff` | src/lib/andromeda/filesystem/filedata/PageManager.cpp:406-416 | In every run a page that arrives is in the cache already exactly if the last writer came between the start of its fetch and the fetch's lock, and put it there |
| `FetchProtocol.RangeIsCutIff` | src/lib/andromeda/filesystem/filedata/PageBackend.cpp:44-51 | In every run the range of a fetch reaches past the server's end, which is asserted against, exactly if the last writer cut the file in that time |
| `FetchProtocol.WriterComesBetween` | src/lib/andromeda/filesystem/filedata/PageManager.cpp:346-396 | Both happen: a page fetched ahead that a writer creates, or cuts off, first |
| `FetchProtocol.AllReadersLeave` | src/lib/andromeda/filesystem/filedata/PageManager.cpp:132-151 | In every run, once no fetch is under way every waiting reader leaves at its next look: with the page exactly if it is cached, else with its failure |
| `FetchProtocol.FetchesEnd` | src/lib/andromeda/filesystem/filedata/PageManager.cpp:384-436 | In every run, while no more pages are asked for, the fetch threads together take no more steps than one each for the lock and one for each page they have left; and each of them can always take its next step or fail |
| `FetchProtocol.ReadGetsIff` | src/lib/andromeda/filesystem/filedata/PageManager.cpp:97-137 | A reader gets its page at once exactly if it is cached, or lies past the server's end and is not pending; else the page is pending afterwards, and the reader waits for it |
| `FetchProtocol.ReadFetches` | src/lib/andromeda/filesystem/filedata/PageManager.cpp:97-137 | A request starts a fetch of exactly the stretch of missing pages that begins with its page, or if that is cached with a page ahead; nothing else becomes pending |
| `FetchProtocol.RetryGetsIff` | src/lib/andromeda/filesystem/filedata/PageManager.cpp:132-151 | A reader that looks again gets its page exactly if it is cached, throws exactly if it is not and has failed, and waits on exactly if it is pending |
| `FetchProtocol.ReaderGetsItsPage` | src/lib/andromeda/filesystem/filedata/PageManager.cpp:132-151 | In every run a reader that has got a page has asked for that page, and the page stays cached until the reader is done |
| `FetchProtocol.ReaderThrowsItsFailure` | src/lib/andromeda/filesystem/filedata/PageManager.cpp:132-144 | In every run a reader throws only for the page it has asked for, only if that page is not cached, and only if a fetch of it has broken off since the reader asked and no other has been started |
| `FetchProtocol.FailedIff` | src/lib/andromeda/filesystem/filedata/PageManager.cpp:273-277 | In every run a page counts as failed exactly if a fetch has broken off before it and no fetch of it has been started since |
| `FetchProtocol.OtherReadersStay` | src/lib/andromeda/filesystem/filedata/PageManager.cpp:280-300 | No step changes another reader's answer; an arriving page and a failure signal every reader that waits |
| `FetchProtocol.RemovedRanges` | src/lib/andromeda/filesystem/filedata/PageManager.cpp:280-300 | Taking an arrived page, or the rest of a broken fetch, off the list changes the list by exactly these pages |
| `CacheManagers.CacheManager.EnqueuePage` | src/lib/andromeda/filesystem/filedata/CacheManager.cpp:93-115 | The page moves to the front with its new size, the others keep their order, and the totals are the sums of the queues |
| `CacheManagers.CacheManager.RemovePage` | src/lib/andromeda/filesystem/filedata/CacheManager.cpp:282-308 | The page leaves both queues and both totals; dirty pages stay a subset of the tracked ones |
| `CacheManagers.CacheManager.RemoveDirty` | src/lib/andromeda/filesystem/filedata/CacheManager.cpp:299-308 | The page leaves the dirty queue and its total |
| `CacheManagers.CacheManager.InformPage` | src/lib/andromeda/filesystem/filedata/CacheManager.cpp:75-90 | The page comes to the front of the queues, the others keep their order; a page that has grown makes room: only pages of its own file go, from the back, never the page itself, never one more than necessary, until one of the stop conditions of the two loops holds; while memory and dirty memory are within their limits nothing leaves, nothing is flushed and no limit changes |
| `CacheManagers.CacheManager.ResizePage` | src/lib/andromeda/filesystem/filedata/CacheManager.cpp:118-150 | The page keeps its place in both queues with the new size, and both totals follow; a page that has grown makes room as in InformPage, with the same bounds, and no page becomes dirty |
| `CacheManagers.CacheManager.HandleMemory` | src/lib/andromeda/filesystem/filedata/CacheManager.cpp:153-174 | The synchronous evictions end, with memory within the limit or with a last page of another file or the page itself; only pages of the own file go, from the back, and never one more than necessary; if none goes, none is flushed |
| `CacheManagers.CacheManager.HandleDirtyMemory` | src/lib/andromeda/filesystem/filedata/CacheManager.cpp:197-218 | The synchronous flushes end likewise; each asks for the last dirty page while the limit then in force is exceeded and that page is one of the own file and not the page itself; within the limit nothing is flushed and the limit is not measured anew |
| `CacheManagers.Select` | src/lib/andromeda/filesystem/filedata/CacheManager.cpp:407-441 | The loop stays on the list and takes every page of the shortest least-recently-used stretch, exactly if all files but perhaps that of the last page reached can be held in scope, and that one too if the page is the first of the list; otherwise it steps off the front, or passes over a page that is neither chosen nor removed. All files that it looked at can be held in scope exactly if those of the whole stretch can |
| `CacheManagers.GoingAwayIsOutOfScope` | src/lib/andromeda/filesystem/filedata/CacheManager.cpp:419-441 | Two pages of a file that is going away, over the limit: not every page can be taken |
| `CacheManagers.FirstPageIsOutOfScope` | src/lib/andromeda/filesystem/filedata/CacheManager.cpp:419-441 | A single page of a file that is going away: the step after its removal leads off the list |
| `CacheManagers.LooksAtFileGoingAway` | src/lib/andromeda/filesystem/filedata/CacheManager.cpp:419-448 | A choice that is right, with a file that is going away among those looked at |
| `CacheManagers.CacheManager.DoPageEvictions` | src/lib/andromeda/filesystem/filedata/CacheManager.cpp:407-475 | In scope, an eviction fails exactly if the server will not take one of the pages whose files are in use. If no eviction fails, exactly that stretch is evicted, and memory is below the limit by the margin, if and only if the choice was in scope; besides, no lock of a file that is going away is taken, if and only if all files of the stretch are in use; if an eviction fails, its page is the newest and all that were not tried yet keep their places |
| `CacheManagers.CacheManager.EvictAll` | src/lib/andromeda/filesystem/filedata/CacheManager.cpp:444-474 | In any order, the lock of every file that was looked at is taken and its chosen pages leave the queue, exactly until one that the server will not take; the rest keeps its order, and the failed page goes to the front |
| `CacheManagers.CacheManager.DoPageFlushes` | src/lib/andromeda/filesystem/filedata/CacheManager.cpp:478-539 | The same choice among dirty pages: in scope, the flushes fail exactly if the server will not take one of the pages whose files are in use, and otherwise what stays dirty lies in front of that stretch and within the limit; only locks of files in use are taken if and only if all files of the stretch are in use; no page becomes dirty in any case |
| `CacheManagers.CacheManager.FlushAll` | src/lib/andromeda/filesystem/filedata/CacheManager.cpp:513-536 | The lock of every file that was looked at is taken and its chosen pages become clean, exactly until a page that the server will not take |
| `CacheManagers.CutoffExists` | src/lib/andromeda/filesystem/filedata/CacheManager.cpp:420-421 | There is always such a stretch, as the margin is a part of the limit |
| `CacheManagers.SumErased` | src/lib/andromeda/filesystem/filedata/CacheManager.cpp:282-308 | Taking a page off a queue takes exactly its size off the sum |
| `DirtyTracking.WrittenIsTrackedIff` | src/lib/andromeda/filesystem/filedata/PageManager.cpp:82-87 | A write can leave its page dirty but unknown to the flush thread, by some making of room, exactly if the page takes more memory than the cache has counted for it, was dirty before, and can be written in one run with the page before it, which is dirty too |
| `DirtyTracking.AppendLosesTrack` | src/lib/andromeda/filesystem/filedata/PageManager.cpp:226-239 | It happens: a consistent file of one and a half dirty pages, all of them queued, to which a byte is appended |
| `DirtyTracking.UntrackedWasLost` | src/lib/andromeda/filesystem/filedata/PageManager.cpp:593-612 | In every run of writes, reads, fetches, truncations and cleanups, a dirty page that is not in the dirty queue was lost by such a write to it, which gave it more memory pages than it had, or by a fetch that found it dirty; it has been neither read nor written otherwise nor cleaned since |
| `DirtyTracking.RunCounts` | src/lib/andromeda/filesystem/filedata/CacheManager.cpp:93-115 | In every run the cache counts every page with the memory that it takes, so that a page makes room exactly if it takes more memory pages than before |
| `DirtyTracking.RunQueues` | src/lib/andromeda/filesystem/filedata/CacheManager.cpp:282-308 | In every run the dirty queue holds dirty pages only |
| `DirtyTracking.RefetchLosesTrackIff` | src/lib/andromeda/filesystem/filedata/PageManager.cpp:409-411 | A fetch that finds its page in the cache already takes it off the dirty queue, exactly if it is dirty |
| `DirtyTracking.WriteKeeps` | src/lib/andromeda/filesystem/filedata/CacheManager.cpp:75-115 | No write loses any page but its own, whatever is cleaned to make room |
| `CacheWaits.StepKeepsInv` | src/lib/andromeda/filesystem/filedata/CacheManager.cpp:153-260 | Every step of clients and cleanup threads keeps: a file is announced exactly while a thread is about to lock it, nobody sleeps on that lock, and no client sleeps while the thread it waits for sleeps |
| `CacheWaits.AwaitSleepsIff` | src/lib/andromeda/filesystem/filedata/CacheManager.cpp:176-185 | A client that needs room falls asleep exactly if the limit is exceeded and neither cleanup thread wants its file, and then the cleanup thread is awake or signalled; else it goes on; earlier failures of that kind of cleaning are forgotten, and nothing else changes |
| `CacheWaits.RetrySleepsIff` | src/lib/andromeda/filesystem/filedata/CacheManager.cpp:241-260 | A client that looks again sleeps on exactly if besides that cleaning has not failed; it goes on with an exception exactly if the limit is exceeded and cleaning has failed |
| `CacheWaits.SleepsForRoom` | src/lib/andromeda/filesystem/filedata/CacheManager.cpp:176-260 | In every run a sleeping client fell asleep at its last look, with the limit exceeded and its file wanted by nobody, and has not been signalled since |
| `CacheWaits.FailedIff` | src/lib/andromeda/filesystem/filedata/CacheManager.cpp:181-182 | In every run cleaning counts as failed exactly if it has failed and no client has asked for that kind of room since |
| `CacheWaits.PlansIff` | src/lib/andromeda/filesystem/filedata/CacheManager.cpp:361-379 | A cleanup thread goes to work exactly if its limit is exceeded and it has not failed, and else to sleep |
| `CacheWaits.PlanIsFollowed` | src/lib/andromeda/filesystem/filedata/CacheManager.cpp:444-474 | In every run a cleanup thread locks exactly the planned files, each once and in order, in four steps of its own for each, and stops before the end only if cleaning fails |
| `CacheWaits.RousedIff` | src/lib/andromeda/filesystem/filedata/CacheManager.cpp:335-404 | Steps of others do no more to a client than to wake it, exactly when a file has been cleaned, or when cleaning stops or fails, of the kind it waits for, or when any file's lock is wanted |
| `CacheWaits.ClientsExclude` | src/lib/andromeda/filesystem/filedata/CacheManager.cpp:176-260 | In every run a client with exclusive access to a file, waiting for room or not, is the only one to have its lock |
| `CacheWaits.OwnFileIsCleaned` | src/lib/andromeda/filesystem/filedata/CacheManager.cpp:335-354 | It happens: a client that waits for room with a file's lock lets the cleanup thread have the lock, and gets it back after that file has been cleaned |
| `CacheWaits.HoldersAreAwake` | src/lib/andromeda/filesystem/filedata/CacheManager.cpp:335-354 | In every run, while a cleanup thread waits for a file's lock every holder of the lock is awake or signalled, on either condition variable |
| `CacheWaits.CleanerIsAwake` | src/lib/andromeda/filesystem/filedata/CacheManager.cpp:357-404 | In every run, while a client sleeps the cleanup thread that it waits for is awake or signalled |
| `CacheWaits.CleanersWorkAlone` | src/lib/andromeda/filesystem/filedata/CacheManager.cpp:444-472 | In every run a cleanup thread at work shares the file with nobody |
| `CacheWaits.NoDeadlock` | src/lib/andromeda/filesystem/filedata/CacheManager.cpp:176-260 | In every run, while a client sleeps the cleanup thread can go on, or waits for a lock whose holder can |
| `CacheWaits.WantedFileIsLeft` | src/lib/andromeda/filesystem/filedata/CacheManager.hpp:143-146 | In every run a signalled client whose file is wanted does not go back to sleep |
| `CacheWaits.SleepIsShort` | src/lib/andromeda/filesystem/filedata/CacheManager.cpp:357-404 | In every run, while a client sleeps the cleanup thread that it waits for takes at most two steps, and two more each time it finds the limit exceeded but no file to clean; one more step of it wakes the client |
| `MemoryAllocators.MemoryAllocator.Alloc` | src/lib/andromeda/filesystem/filedata/MemoryAllocator.cpp:48-73 | New memory overlaps nothing that is mapped |
| `MemoryAllocators.MemoryAllocator.Free` | src/lib/andromeda/filesystem/filedata/MemoryAllocator.cpp:76-135 | Exactly the pages are unmapped, and what lay in one run and does not touch them still lies in one run; with no pages at a nonnull address nothing is unmapped, and the run is split there |
| `MemoryAllocators.FreedInside` | src/lib/andromeda/filesystem/filedata/MemoryAllocator.cpp:101-118 | A block lies in one run afterwards exactly if it did before and does not touch the freed one |
| `MemoryAllocators.FreedIsProper` | src/lib/andromeda/filesystem/filedata/MemoryAllocator.cpp:101-118 | The runs stay nonempty and disjoint |
| `MemoryAllocators.FreedMapped` | src/lib/andromeda/filesystem/filedata/MemoryAllocator.cpp:101-118 | The mapped pages are those before less the freed ones |
| `CachingAllocators.CachingAllocator.Alloc` | src/lib/andromeda/filesystem/filedata/CachingAllocator.cpp:30-92 | The memory is held by no other client; if the pool has a block that is big enough, the front of the smallest such block freed last is taken and its remainder put back as the newest; otherwise new memory is mapped |
| `CachingAllocators.CachingAllocator.Free` | src/lib/andromeda/filesystem/filedata/CachingAllocator.cpp:95-119 | For a block or any part of one: it becomes the newest of the pool, and then the oldest are given back to the system, no more than necessary to be within the limit; it terminates; nothing that is still held is unmapped; but while the peak is below the baseline, a pool of up to 2^64 less the baseline loses nothing |
| `CachingAllocators.CachingAllocator.PopLastEntry` | src/lib/andromeda/filesystem/filedata/CachingAllocator.cpp:132-155 | Exactly the block freed longest ago is unmapped; the range the system's allocator checks lies in one run |
| `CachingAllocators.CachingAllocator.Close` | src/lib/andromeda/filesystem/filedata/CachingAllocator.cpp:17-22 | All pooled memory goes back; if clients hold nothing, nothing stays mapped |
| `CachingAllocators.CachingAllocator.MappedBytes` | src/lib/andromeda/filesystem/filedata/CachingAllocator.cpp:39-119 | Between calls mapped bytes are bytes in use plus bytes pooled |
| `CachingAllocators.CachingAllocator.Limit` | src/lib/andromeda/filesystem/filedata/CachingAllocator.cpp:117 | The limit is the peak less the baseline; below the baseline the unsigned difference wraps round to a huge limit |
| `CachingAllocators.KeptBelowBaseline` | src/lib/andromeda/filesystem/filedata/CachingAllocator.cpp:95-119 | It happens: one memory page allocated and freed, far below the baseline, stays in the pool |
| `CachingAllocators.LayoutTake` | src/lib/andromeda/filesystem/filedata/CachingAllocator.cpp:57-84 | Taking the front of a pooled block keeps held and pooled blocks disjoint, each in one run, and together all that is mapped |
| `CachingAllocators.LayoutGive` | src/lib/andromeda/filesystem/filedata/CachingAllocator.cpp:95-129 | So does giving back any part of a held block |
| `CachingAllocators.LayoutDiscard` | src/lib/andromeda/filesystem/filedata/CachingAllocator.cpp:132-148 | So does giving a pooled block back to the system |
| `CachingAllocators.LayoutMap` | src/lib/andromeda/filesystem/filedata/CachingAllocator.cpp:86 | So does new memory |
| `CachingAllocators.LayoutSize` | src/lib/andromeda/filesystem/filedata/CachingAllocator.cpp:104-112 | The mapped pages number those held plus those pooled |
| `CachingAllocators.RecycleListed` | src/lib/andromeda/filesystem/filedata/CachingAllocator.cpp:57-84 | The size lists keep holding exactly the pooled blocks in queue order, and none stays empty |
| `CachingAllocators.ListsFindBestFit` | src/lib/andromeda/filesystem/filedata/CachingAllocator.cpp:48-58 | The head of the first list that is long enough is the smallest block that fits, and the newest of these |
| `CachingAllocators.JustFreedIsReused` | src/lib/andromeda/filesystem/filedata/CachingAllocator.cpp:48-60 | Memory just freed is what the next request of its size gets, which undoes the free |
| `OrderedMaps.OrderedMap.FromList` | src/lib/andromeda/OrderedMap.hpp:87-94 | The list is kept as given; the map is in order exactly if no key is repeated |
| `OrderedMaps.OrderedMap.EnqueueFront` | src/lib/andromeda/OrderedMap.hpp:228-238 | A fresh key is put in front of the unchanged rest; the table maps exactly the listed keys to their nodes |
| `OrderedMaps.OrderedMap.EnqueueBack` | src/lib/andromeda/OrderedMap.hpp:245-255 | A fresh key is put behind the unchanged rest |
| `OrderedMaps.OrderedMap.Erase` | src/lib/andromeda/OrderedMap.hpp:170-178 | The entry goes and the others keep their order; tells if there was one |
| `OrderedMaps.OrderedMap.Pop` | src/lib/andromeda/OrderedMap.hpp:186-195 | The same, with the value |
| `OrderedMaps.OrderedMap.PopFront` | src/lib/andromeda/OrderedMap.hpp:201-208 | The first entry goes, the rest is unchanged |
| `OrderedMaps.OrderedMap.PopBack` | src/lib/andromeda/OrderedMap.hpp:214-221 | The last entry goes, the rest is unchanged |
| `OrderedMaps.OrderedMap.Find` | src/lib/andromeda/OrderedMap.hpp:118-123 | Finds exactly the listed keys, with their values |
| `OrderedMaps.OrderedMap.Exists` | src/lib/andromeda/OrderedMap.hpp:109-112 | True exactly for listed keys |
| `OrderedMaps.OrderedMap.Equals` | src/lib/andromeda/OrderedMap.hpp:96-106 | True exactly if both list the same entries in the same order |
| `OrderedMaps.ErasedAt` | src/lib/andromeda/OrderedMap.hpp:159-178 | Erasing cuts out one entry and leaves what is before and behind it |
| `OrderedMaps.ErasedKeeps` | src/lib/andromeda/OrderedMap.hpp:159-178 | Erasing keeps keys distinct and takes away one key only |
| `OrderedMaps.EraseUndoesEnqueue` | src/lib/andromeda/OrderedMap.hpp:170-255 | Erasing a key just enqueued at either end restores the map |
| `SharedMutexes.StepKeepsInv` | src/lib/andromeda/SharedMutex.hpp:20-87 | Every step of every thread keeps exclusion, the queue, the wakeups, the order of tickets, and priority readers in front |
| `SharedMutexes.HoldersExclude` | src/lib/andromeda/SharedMutex.hpp:32-87 | In every run a writer excludes every other holder |
| `SharedMutexes.MarkedIffHeld` | src/lib/andromeda/SharedMutex.hpp:32-87 | In every run the lock is marked as held exactly if a thread holds it, and the readers are counted right |
| `SharedMutexes.FirstComeFirstServed` | src/lib/andromeda/SharedMutex.hpp:32-77 | In every run ordinary requests get in strictly in the order of arrival |
| `SharedMutexes.PriorityStandsFirst` | src/lib/andromeda/SharedMutex.hpp:55-68 | In every run a priority reader that waits stands before every other request that waits |
| `SharedMutexes.PriorityGoesFirst` | src/lib/andromeda/SharedMutex.hpp:55-77 | In every run a waiting request without priority gets in only when no priority reader waits |
| `SharedMutexes.PriorityJoinsReaders` | src/lib/andromeda/SharedMutex.hpp:60-61 | A priority reader does not wait while others read, whoever is in the queue |
| `SharedMutexes.LockIff` | src/lib/andromeda/SharedMutex.hpp:32-44 | A writer gets in at once exactly if nobody has the lock and nobody waits, and else waits behind all others |
| `SharedMutexes.LockSharedIff` | src/lib/andromeda/SharedMutex.hpp:56-77 | A reader gets in at once exactly if no writer has the lock and nobody waits, and else waits behind all others; one with priority gets in exactly if no writer has the lock, and else waits in front of all others |
| `SharedMutexes.TryLockIff` | src/lib/andromeda/SharedMutex.hpp:20-30 | Exclusive access is given without waiting exactly if nobody has the lock and nobody waits, and else nothing changes |
| `SharedMutexes.RetryIff` | src/lib/andromeda/SharedMutex.hpp:39-40 | A waiter gets in exactly if nobody waits in front of it and no holder is in its way |
| `SharedMutexes.ReleaseTells` | src/lib/andromeda/SharedMutex.hpp:46-87 | Giving the lock back takes exactly that thread from its holders |
| `SharedMutexes.OthersStay` | src/lib/andromeda/SharedMutex.hpp:20-87 | No step lets another thread in, sends it away or moves it in the queue |
| `SharedMutexes.TryLockNeverBarges` | src/lib/andromeda/SharedMutex.hpp:20-30 | A try_lock that succeeds finds nobody waiting and nobody inside |
| `SharedMutexes.HeadGetsIn` | src/lib/andromeda/SharedMutex.hpp:38-87 | No lost wakeup: in every run the head of the queue, whenever it may enter, is awake or signalled and gets in at its next step; it always may when the lock is free |
| `RunnerPools.StepKeepsInv` | src/lib/andromeda/backend/RunnerPool.cpp:23-69 | Every step of every thread keeps the runners distinct and owned, and the free runners matched |
| `RunnerPools.RunnersAreNotShared` | src/lib/andromeda/backend/RunnerPool.cpp:41-52 | In every run two threads never hold the same runner |
| `RunnerPools.HolderKeepsRunner` | src/lib/andromeda/backend/RunnerPool.cpp:30-52 | In every run a thread has one and the same runner from the step that gives it to the step that gives it back |
| `RunnerPools.RunnersStay` | src/lib/andromeda/backend/RunnerPool.cpp:43-48 | In every run a slot keeps the runner that was made for it |
| `RunnerPools.RunnersAreCounted` | src/lib/andromeda/backend/RunnerPool.cpp:43-48 | In every run as many runners have been made as slots have one, and so never more than slots |
| `RunnerPools.ScanTakesIff` | src/lib/andromeda/backend/RunnerPool.cpp:30-40 | A look at a slot takes it exactly if it is free, and else goes on to the next one, or to sleep after the last |
| `RunnerPools.SleepersAreAttended` | src/lib/andromeda/backend/RunnerPool.cpp:30-69 | In every run, while a thread sleeps the free runners number at most the signals on their way plus the awake scanners |
| `RunnerPools.NoLostWakeup` | src/lib/andromeda/backend/RunnerPool.cpp:30-69 | In every run, when a thread sleeps while a runner is free: in whatever order the waiting and signalling threads go on, they stop after a bounded number of steps, and then a thread that was waiting holds a runner, and nobody sleeps unless all runners are taken |
| `Likes.ReplaceAll` | src/lib/andromeda/StringUtil.cpp:144-150 | The in-place loop replaces exactly the matches found from the left, and never searches what it has put in |
| `Likes.ReplacedJoinsPieces` | src/lib/andromeda/StringUtil.cpp:144-150 | Replacing exchanges the glue between the pieces that the matches leave, and nothing else |
| `Likes.PiecesHaveNoMatch` | src/lib/andromeda/StringUtil.cpp:148 | No match is left inside any piece |
| `Likes.EscapeAll` | src/lib/andromeda/StringUtil.cpp:160-173 | The successive passes escape character by character, and unescaping gives the text back, if no character comes up twice |
| `Likes.PassesEscapeIff` | src/lib/andromeda/StringUtil.cpp:160-173 | The passes escape every text character by character exactly if the delimiters are distinct and none is the escape character |
| `Likes.UnescapeInverts` | src/lib/andromeda/StringUtil.cpp:160-173 | Taking escaped characters for themselves inverts escaping |
| `Likes.PercentSkips` | src/lib/andromeda/database/QueryBuilder.hpp:44-49 | A percent sign, the escaped text and a percent sign match exactly the texts that include the text, under LIKE of section 8.5 of ISO/IEC 9075:1992, for any equality of characters |
| `Likes.UnderscoresCount` | src/lib/andromeda/database/QueryBuilder.hpp:44-49 | A pattern with wildcards of the caller: so many underscores match exactly the texts of that length |
| `Likes.EscapedMatchesItself` | src/lib/andromeda/database/QueryBuilder.cpp:10-13 | An escaped text matches itself at the start of a text, and nothing else |
| `Likes.QueryBuilder.Like` | src/lib/andromeda/database/QueryBuilder.hpp:44-49 | The query names the next parameter, which is the value as given or a pattern that matches exactly the texts that include it; earlier parameters stay |
| `Likes.ParamNamesDiffer` | src/lib/andromeda/database/QueryBuilder.hpp:247-252 | No two parameters of a query have the same name |

## Left out

- Upload-only write mode of `File` and `PageManager`: its writes are random writes until the first flush, which is the oneshot upload of `SendFile`, and are refused afterwards.
- The cache types without pages (none, memory): debug modes that bypass the cache or the server.
- Backend exceptions in the middle of an operation, read-only checks, and page managers deleted while in use. A failed fetch is modelled in `FetchProtocol`, a failed cleaning in `CacheWaits`.
- `FetchProtocol`: a fetch whose range a writer has cut off stops at an assertion (src/lib/andromeda/filesystem/filedata/PageBackend.cpp:49-51), which counts as a failed fetch; what follows without assertions is not modelled.
- `PageManagers`: a fetch is one step there, so that no other thread acts between its start and its end; that is what `FetchProtocol` is about.
- Bandwidth measurement: the read-ahead window and the dirty limit take any value at any time.
- Page objects: a page is its bytes and a dirty flag; that the lists of a flush point at pages in the map is modelled by page numbers, and re-allocation by Page::resize only by its effect on the bytes.
- `size_t` overflow of a run's size (src/lib/andromeda/filesystem/filedata/PageManager.cpp:481), and offsets near 2^64.
- `StreamFetch.Reassemble`: a restarted reply carries the same bytes; a reply shorter or longer than asked for is an exception of the program.
- `PageBackends.PageBackend.FetchPages`: a reply that breaks off for good, which is an exception of the program.
- `SendFile`: the producer over an input stream and replays of one request inside a runner.
- `PageManagers.PageManager.GetPageRead`: a page that is already being fetched, and the loop that waits for a fetch, are in `FetchProtocol`.
- `PageManagers.PageManager.GetFetchSize`: the stop before a page that is already being fetched is in `FetchProtocol.FetchIsNew`.
- `PageManagers.PageManager.RemoteChanged`: the size reported is the server's; with a dirty page the result need not satisfy the invariant, which is what `PageStore.RemoteChangeKeepsShapeIff` is about.
- `CacheManagers.CacheManager.DoPageEvictions`: no other thread acts between the choice of the pages and the end of the work.
- `CacheManagers.CacheManager.DoPageFlushes`: likewise.
- `DirtyTracking`: backend errors in the middle of a write, files that are being deleted, and a change of the upload limit during one write.
- `DirtyTracking.WrittenIsTrackedIff`: which pages are cleaned to make room is left open, as it depends on the pages of all files in the cache.
- `CacheManagers.CacheManager.InformPage`: what `HandleMemory` does is the synchronous part; the waiting is in `CacheWaits`.
- `CacheManagers.CacheManager.ResizePage`: likewise.
- `CacheWaits`: the shutdown of the cleanup threads; a client holds one file's lock at a time.
- `MemoryAllocators`: addresses are whole memory pages, so that a pointer lies at a page boundary is not stated; a failing system call; the debug counters.
- `CachingAllocators.CachingAllocator.Alloc`: calls do not overlap, although the system is asked for memory outside the mutex.
- `OrderedMaps`: iterators are node references; their order of traversal is that of the sequence.
- `SharedMutexes` and `RunnerPools`: that every thread which can take a step takes it some day is the scheduler's; what is proved is that the steps are there to be taken, and for `RunnerPools` that they lead to the end.
- `Likes`: characters are compared one by one; multi-byte encodings and collations beyond a character equality are left to the database.
- Folder and item tree, JSON, authentication, HTTP and command runners, database objects, and the user interfaces.
