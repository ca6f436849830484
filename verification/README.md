# Buffer pool manager (`BufMgr`) in Dafny

This project models the buffer manager of a small relational storage layer,
`BufMgr` in `buf.C`, and proves properties of that model. The buffer manager
caches disk pages in a fixed number of in-memory frames:

- `bufTable` is a table of frame descriptors: owner file, page number, valid
  bit, dirty bit, reference bit and pin count.
- `bufPool` is a parallel table of page slots.
- A clock hand is used for second-chance replacement.
- A hash table maps `(file, pageNo)` to the frame holding that page.

The class `Pool.BufMgr` keeps those four pieces of state as two arrays, a
`nat` and a `map`. Its methods update them in place, one method per operation:

- the constructor;
- `AllocBuf` (`allocBuf`);
- `ReadPage`, `UnPinPage`, `AllocPage`, `DisposePage` and `FlushFile`;
- `Shutdown`, which is the destructor's write-back loop.

Every method keeps the object invariant `Valid()`. At its heart is
`Frames.Consistent`:

- every descriptor is well formed;
- a frame is valid exactly when the index maps its page to it;
- every index entry names a valid frame that holds that page.

The class has four loops, each proved against a pure specification:

- `Sweep`, the clock loop of `allocBuf` as written, which `AllocBuf` runs,
  agrees with `Clock.Scan`.
- `SweepFixed`, the corrected form of that loop (see "## Findings"), agrees
  with `Clock.ScanFixed`. No operation of the class calls it.
- `FlushFrames`, the loop of `flushFile`, agrees with `Flush.FlushOutcome`,
  `Flush.FlushedTable` and `Flush.Writes`.
- `Shutdown`, the destructor's loop, agrees with `Flush.Writes` and
  `Flush.WrittenPages`.

The properties of these specifications are proved as lemmas.

## The file layer

The file layer (`File::readPage`, `writePage`, `allocatePage`, `disposePage`)
is not part of this model. It is represented by `Files.Disk`:

- `pages` is a map from page to content.
- A ghost `log` records every request in order.
- Each request's status is taken from an environment `Env`, passed to every
  operation.

`Env` has three parts:

- `answer` gives any status for any request. This lets a UNIXERR, BADPAGENO
  or BADPAGEPTR answer appear wherever the real layer could produce one. The
  one exception is a read of a page the file does not hold: it can fail with
  any status but cannot succeed, so an OK answer there becomes BADPAGENO
  (`Files.ReadStatus`).
- `newPageNo` is the page number `allocatePage` hands out.
- `insertFails` says whether `BufHashTbl::insert` fails for lack of memory.

`BufHashTbl` is not part of this model beyond its observable behaviour:

- `lookup` finds exactly the pages in the map.
- `remove` deletes the entry.
- `insert` refuses a page already present, and fails when `insertFails` is set.

Two simplifications follow from this:

- A read that fails leaves the frame's slot unchanged.
- When `allocatePage` fails, the `pageNo` argument keeps the caller's value.

`BufDesc::Set` and `BufDesc::Clear` are declared outside `buf.C`; they are
modelled as `Frames.SetDesc` and `Frames.Cleared`, with the field values their
call sites rely on.

## Behaviour as written

The model follows the code wherever it departs from its own doc-comments or
from the behaviour a reader would expect. The method contracts show each
departure:

- **`readPage` returns OK when the read fails with BADPAGEPTR or BADPAGENO.**
  No frame is returned, and the frame it allocated stays cleared and out of
  the index. An unexpected status also returns OK.
- **`allocPage` ignores two statuses.** It ignores the status of
  `allocatePage` and the status of the read into the new frame. The page is
  indexed and the frame `Set` either way.
- **`flushFile` has no pass that checks for pinned frames before writing.**
  It can write and invalidate some frames of the file and then return
  PAGEPINNED at a later one. `Flush.PinnedAfterPartialFlush` is a concrete
  case.
- **`disposePage` clears a resident page's frame even when it is pinned.** It
  does so without writing the page back.
- **`allocBuf` can report BUFFEREXCEEDED while an unpinned frame exists.**
  See "## Findings". `AllocBuf`, and with it `ReadPage` and `AllocPage`, runs
  the loop as written (`Sweep`). The corrected loop `SweepFixed` and its
  specification `Clock.ScanFixed` stand beside it, with the intended property
  proved.
- **`allocBuf` does not leave the pool untouched when every frame is
  pinned.** It still clears reference bits and moves the hand before
  reporting BUFFEREXCEEDED.

## Model

| member | source | states |
|---|---|---|
| Pool.BufMgr.constructor | buf.C:33-52 | every frame is invalid and zero-filled, every slot is empty, the index is empty, and the hand is on the last frame, so frame 0 is examined first; the invariant holds |
| Clock.Next | buf.C:91 | advancing the clock stays in range and wraps from the last frame to frame 0 |
| Clock.Scan | buf.C:93-141 | the clock loop only clears reference bits; a frame it picks is in range and not pinned, and a valid picked frame is unreferenced; it ends because each turn either counts a pinned frame or clears a reference bit |
| Pool.BufMgr.Sweep | buf.C:93-137 | the in-place loop as written ends in the state `Scan` describes: the same frame, or the same exhaustion, and the same table with its reference bits cleared |
| Pool.BufMgr.SweepFixed | buf.C:93-137 | the in-place loop, with the counter reset whenever a reference bit is cleared, ends in the state `ScanFixed` describes |
| Pool.BufMgr.Evict | buf.C:115-129 | an unpinned victim is written to its own page iff it is dirty; a failed write returns UNIXERR and changes nothing else; otherwise the frame is cleared and its page leaves the index |
| Pool.BufMgr.AllocBuf | buf.C:86-142 | the outcome is the as-written scan `Scan`'s. Exhaustion gives BUFFEREXCEEDED, with no I/O and no index change. BUFFEREXCEEDED is certain when every frame is valid and pinned, and happens only if some frame is pinned. Otherwise the picked frame was unpinned and is written back iff dirty; on success it is cleared and unindexed, and a failed write gives UNIXERR. The invariant is kept |
| Clock.ExhaustionBounds | buf.C:99-141 | from the frame after the hand, the as-written scan always gives up when every frame is pinned, and gives up only when some frame is pinned |
| Clock.AllPinnedExhausts | buf.C:77-78 | when every frame is valid and pinned, `allocBuf` reports BUFFEREXCEEDED, from any hand position |
| Clock.ExhaustedSawPinned | buf.C:131-141 | BUFFEREXCEEDED is returned only if at least one frame really is pinned |
| Clock.ExceededWithUnpinnedFrame | buf.C:99-141 | a consistent two-frame pool where the scan gives up although frame 1 is unpinned: frame 0 is counted twice |
| Clock.FixedExhaustedIffAllPinned | buf.C:77-78 | with the counter restarted after every cleared reference bit, the pool is reported exhausted exactly when every frame is valid and pinned |
| Clock.FixedTakesUnpinnedFrame | buf.C:99-141 | on the counterexample, the corrected scan takes the unpinned frame 1 |
| Frames.ReleaseFrame | buf.C:123-127 | dropping a valid frame's page and its index entry keeps descriptors and index consistent (eviction, disposal, flush) |
| Frames.ClaimFrame | buf.C:185-188 | indexing an unindexed page in an invalid frame and `Set`-ting the frame keeps the invariant |
| Frames.RefbitsKeepConsistent | buf.C:110-111 | clearing reference bits never disturbs the invariant |
| Pool.BufMgr.ReadPage | buf.C:156-221 | hit: OK with the page's frame, one more pin and the reference bit set, no I/O; miss: `allocBuf`'s outcome, then one read; on a successful read and insert, OK with a `Set` frame that is indexed; HASHTBLERROR if the insert fails; UNIXERR if the read fails with UNIXERR; any other read failure returns OK with no frame; the invariant is kept |
| Pool.BufMgr.LoadFrame | buf.C:176-199 | one read into the cleared frame's slot, stored only when it succeeds; OK, index entry and a `Set` frame after a successful read and insert; HASHTBLERROR if the insert fails; UNIXERR for UNIXERR; OK with no frame for any other read failure |
| Frames.Pin | buf.C:210-211 | a hit adds exactly one pin and sets the reference bit, changing nothing else |
| Frames.Unpin | buf.C:244-249 | an unpin removes exactly one pin and sets the dirty bit when asked, never clearing it, changing nothing else |
| Frames.UnpinUndoesPin | buf.C:244-249 | `unPinPage` after a `readPage` hit restores the pin count, leaving only the reference bit (and the dirty bit if the caller wrote) set |
| Pool.BufMgr.UnPinPage | buf.C:232-256 | HASHNOTFOUND for an unindexed page and PAGENOTPINNED for a pin count of 0, both with nothing changed; otherwise one pin fewer and the dirty bit set when asked, never cleared |
| Pool.BufMgr.AllocPage | buf.C:271-300 | one `allocatePage` request; the page number is the file's new page on success and unchanged otherwise; `allocBuf`'s status is returned; on success the page is indexed in a `Set` frame and read into its slot; HASHTBLERROR when the insert fails |
| Pool.BufMgr.InstallPage | buf.C:283-296 | HASHTBLERROR with nothing changed when the index refuses the page; otherwise the page is indexed, the frame `Set`, and one read into the slot, whose status is ignored |
| Pool.BufMgr.DisposePage | buf.C:302-317 | a resident page's frame is cleared whatever its pin count, with no write-back; the page leaves the index; the result is the file's answer to the single dispose request |
| Flush.FlushOutcome | buf.C:319-354 | the scan stops at the first frame it cannot pass, with PAGEPINNED, the failed write's status or BADBUFFER as that frame causes; it returns OK only after passing every frame |
| Pool.BufMgr.FlushFile | buf.C:319-354 | the status and stop are `FlushOutcome`'s; frames of the file before the stop are flushed and unindexed; the writes are exactly those of dirty frames before the stop, plus the attempted write at the stop; on OK no frame and no index entry of the file remains |
| Pool.BufMgr.FlushFrames | buf.C:323-351 | the in-place loop reaches the state `FlushOutcome`, `FlushedTable`, `OwnedKeys`, `Writes` and `WrittenPages` describe |
| Pool.BufMgr.FlushFrame | buf.C:324-350 | one iteration: it passes a frame exactly when `Passes` holds, and otherwise returns `StopStatus`; a passed frame of the file is written back iff dirty, made invalid and unindexed |
| Flush.FlushKeepsConsistent | buf.C:339-346 | flushing the frames before the stop, and removing their pages from the index, keeps the invariant |
| Flush.FlushOkLeavesNothingOfFile | buf.C:349-353 | under the invariant, the BADBUFFER branch is unreachable; after OK the file owns no frame and no index entry |
| Flush.NothingToFlush | buf.C:323-353 | flushing a file with no frame returns OK, writes nothing and changes nothing |
| Flush.PinnedAfterPartialFlush | buf.C:323-337 | a dirty frame is written and invalidated before PAGEPINNED is returned at a later pinned frame of the same file |
| Pool.BufMgr.Shutdown | buf.C:55-70 | the destructor issues the writes `Writes` lists, in frame order, and leaves the disk as `WrittenPages` describes, whatever the writes report |
| Flush.WritesFromDirtyFrames | buf.C:58-70 | every write of a pass goes to the page of a valid dirty frame in scope |
| Flush.WrittenOnce | buf.C:58-70 | when no two frames hold the same page, a pass writes each dirty frame in scope exactly once |
| Flush.ShutdownWritesEachDirtyFrameOnce | buf.C:55-70 | under the invariant, the destructor writes every valid dirty frame exactly once and writes nothing else |

## Left out

- `printSelf` (buf.C:357-371) and the debug output. They only print.
- The hash table size computation `htsize` and the `BufHashTbl` internals. `BufHashTbl` is not part of this model; the index is a map.
- `memset`, `new[]` and `delete[]` of the tables. Their only effect is modelled: the constructor's zeroed descriptors and empty slots.
- The `frameNo` field of `BufDesc`. It always equals the descriptor's index.
- The `File` class and the `Page` layout. They are not part of this model. A page is a byte sequence, and a file's behaviour is the `Env` oracle over `Files.Disk`.
- The `page` out-pointer of `readPage` and `allocPage`. It is returned as the frame index; the page is `bufPool[frame]`.
- Pool.BufMgr.constructor: it requires at least one frame. The source accepts zero frames, and then `advanceClock` divides by zero at the first allocation.
- Pool.BufMgr.constructor: the zero-filled page slots are modelled as empty pages, because a page's byte layout is not part of this model.
- C `int` width. Pin counts, page numbers and the frame count are unbounded integers, so `pinCnt++` and the other arithmetic never overflow. No behaviour of the buffer manager depends on the wrap-around.
- Pool.BufMgr.ReadPage: a failed `File::readPage` may have partly overwritten the slot. The model assumes the slot is unchanged.
- Pool.BufMgr.AllocPage: the value `allocatePage` leaves in `pageNo` when it fails is not known. The model keeps the caller's value.

## Findings

| source | as written | input that shows it | evidently intended | confidence | as-written member | corrected member |
|---|---|---|---|---|---|---|
| buf.C:99-141 | `pinnedPagesCount` counts every pinned frame the hand meets and is never reset. After reference bits are cleared, the hand can meet the same pinned frame again, so the count can reach `numBufs` before an unpinned frame is reached. | two valid frames: frame 0 pinned and unreferenced, frame 1 unpinned and referenced; the hand starts on frame 0 | BUFFEREXCEEDED only if all buffer frames are pinned (buf.C:77-78) | not executed | Clock.ExceededWithUnpinnedFrame | Clock.FixedExhaustedIffAllPinned |
