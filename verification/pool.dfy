/**
 * The buffer manager `BufMgr`: a table of frame descriptors, a parallel
 * table of page slots, a clock hand, and the page index mapping
 * `(file, pageNo)` to the frame that holds the page.
 */
module Pool {
  import opened Types
  import opened Files
  import opened Frames
  import opened Clock
  import opened Flush

  class BufMgr {
    const numBufs: nat
    const bufTable: array<BufDesc>
    const bufPool: array<Page>
    var clockHand: nat
    /** The page index (`BufHashTbl`). */
    var hashTable: map<PageId, nat>
    /** The files whose pages the pool caches. */
    const disk: Disk

    /** The object invariant: sizes, the hand in range, and descriptors and index in agreement. */
    ghost predicate Valid()
      reads this, bufTable
    {
      numBufs > 0 && bufTable.Length == numBufs && bufPool.Length == numBufs &&
      clockHand < numBufs && Consistent(bufTable[..], hashTable)
    }

    /** The scan the next call of `AllocBuf` runs. */
    ghost function NextScan(): ScanResult
      reads this, bufTable
      requires Valid()
    {
      Scan(bufTable[..], Next(clockHand, numBufs), 0)
    }

    /** `BufMgr(bufs)`: every frame invalid, the index empty, the hand on the last frame so that frame 0 is examined first. */
    constructor (bufs: nat, disk: Disk)
      requires bufs > 0
      ensures Valid() && fresh(bufTable) && fresh(bufPool)
      ensures numBufs == bufs && this.disk == disk
      ensures forall i :: 0 <= i < numBufs ==> bufTable[i] == Zeroed && bufPool[i] == EmptyPage
      ensures hashTable == map[] && clockHand == bufs - 1 && Next(clockHand, numBufs) == 0
    {
      numBufs := bufs;
      bufTable := new BufDesc[bufs](_ => Zeroed);
      bufPool := new Page[bufs](_ => EmptyPage);
      hashTable := map[];
      clockHand := bufs - 1;
      this.disk := disk;
    }

    /**
     * `allocBuf`: run the clock scan in place. A dirty victim is written to
     * its own page first; if that write fails the call reports UNIXERR and
     * the victim keeps its page and index entry. Otherwise the chosen frame
     * is cleared and its page, if any, leaves the index. BUFFEREXCEEDED is
     * reported whenever every frame is pinned, and only if some frame is,
     * but not only then (`ExceededWithUnpinnedFrame`).
     */
    method AllocBuf(env: Env) returns (st: Status, frame: nat)
      requires Valid()
      modifies this, bufTable, disk
      ensures Valid()
      ensures old(AllPinned(bufTable[..])) ==> st == BufferExceeded
      ensures st == BufferExceeded ==> old(SomePinned(bufTable[..]))
      ensures old(NextScan()).Exhausted? ==>
        st == BufferExceeded && bufTable[..] == old(NextScan()).table && clockHand == old(NextScan()).hand &&
        hashTable == old(hashTable) && unchanged(disk)
      ensures old(NextScan()).Pick? ==>
        var i := old(NextScan()).frame;
        var v := old(NextScan()).table[i];
        clockHand == i && old(bufTable[i]).pinCnt == 0 &&
        disk.log == old(disk.log) + WriteBack(v, AllFiles) &&
        disk.pages == StorePage(old(disk.pages), v, bufPool[i], AllFiles, env) &&
        if WriteBackFails(v, AllFiles, env) then
          st == UnixErr && bufTable[..] == old(NextScan()).table && hashTable == old(hashTable)
        else
          st == Ok && frame == i && bufTable[..] == old(NextScan()).table[i := Cleared] && hashTable == Unindex(old(hashTable), v)
    {
      ExhaustionBounds(bufTable[..], clockHand);
      clockHand := Next(clockHand, numBufs);
      var found := Sweep();
      RefbitsKeepConsistent(old(bufTable[..]), bufTable[..], hashTable);
      if !found {
        return BufferExceeded, 0;
      }
      var d := bufTable[clockHand];
      if !d.valid {
        ReplaceFrame(bufTable[..], hashTable, clockHand, Cleared);
        bufTable[clockHand] := Cleared;
        return Ok, clockHand;
      }
      st := Evict(env);
      frame := clockHand;
    }

    /**
     * The `while` loop of `allocBuf` as written, run in place from the frame
     * under the hand until it reaches a frame it may take (`found`, with the
     * hand on that frame) or the pinned-frame counter reaches the number of
     * frames. A referenced frame loses its reference bit; an unreferenced
     * pinned frame is counted, and the counter is never reset, so it can
     * give up while an unpinned frame exists (`ExceededWithUnpinnedFrame`).
     */
    method Sweep() returns (found: bool)
      requires bufTable.Length == numBufs && clockHand < numBufs
      modifies this`clockHand, bufTable
      ensures clockHand < numBufs
      ensures old(Scan(bufTable[..], clockHand, 0)) ==
              if found then Pick(clockHand, bufTable[..]) else Exhausted(clockHand, bufTable[..])
    {
      var pinnedPagesCount := 0;
      while pinnedPagesCount < numBufs
        invariant pinnedPagesCount <= numBufs && clockHand < numBufs
        invariant Scan(bufTable[..], clockHand, pinnedPagesCount) == old(Scan(bufTable[..], clockHand, 0))
        decreases numBufs - pinnedPagesCount, |RefSet(bufTable[..])|
      {
        var d := bufTable[clockHand];
        if !d.valid {
          return true;
        }
        if d.refbit {
          ClearRefbit(bufTable[..], clockHand);
          ghost var u := bufTable[..][clockHand := d.(refbit := false)];
          bufTable[clockHand] := d.(refbit := false);
          assert bufTable[..] == u;
        } else if d.pinCnt == 0 {
          return true;
        } else {
          pinnedPagesCount := pinnedPagesCount + 1;
        }
        clockHand := Next(clockHand, numBufs);
      }
      return false;
    }

    /**
     * The loop of `allocBuf` with the evidently intended bound: the counter
     * of pinned frames starts again from zero whenever a reference bit is
     * cleared, so the loop gives up only after a whole turn of the clock
     * that met nothing but pinned frames (`FixedExhaustedIffAllPinned`).
     * `AllocBuf` keeps the loop as written; this is its corrected form.
     */
    method SweepFixed() returns (found: bool)
      requires bufTable.Length == numBufs && clockHand < numBufs
      modifies this`clockHand, bufTable
      ensures clockHand < numBufs
      ensures old(ScanFixed(bufTable[..], clockHand, 0)) ==
              if found then Pick(clockHand, bufTable[..]) else Exhausted(clockHand, bufTable[..])
    {
      var pinnedRun := 0;
      while pinnedRun < numBufs
        invariant pinnedRun <= numBufs && clockHand < numBufs
        invariant ScanFixed(bufTable[..], clockHand, pinnedRun) == old(ScanFixed(bufTable[..], clockHand, 0))
        decreases |RefSet(bufTable[..])|, numBufs - pinnedRun
      {
        var d := bufTable[clockHand];
        if !d.valid {
          return true;
        }
        if d.refbit {
          ClearRefbit(bufTable[..], clockHand);
          ghost var u := bufTable[..][clockHand := d.(refbit := false)];
          bufTable[clockHand] := d.(refbit := false);
          assert bufTable[..] == u;
          pinnedRun := 0;
        } else if d.pinCnt == 0 {
          return true;
        } else {
          pinnedRun := pinnedRun + 1;
        }
        clockHand := Next(clockHand, numBufs);
      }
      return false;
    }

    /**
     * The victim branch of `allocBuf` for the valid, unreferenced, unpinned
     * frame under the hand: write it back if it is dirty and give up on a
     * failed write; otherwise drop its page from the index and clear it.
     */
    method Evict(env: Env) returns (st: Status)
      requires numBufs > 0 && bufTable.Length == numBufs && bufPool.Length == numBufs && clockHand < numBufs
      requires Consistent(bufTable[..], hashTable) && bufTable[clockHand].valid && bufTable[clockHand].pinCnt == 0
      modifies this`hashTable, bufTable, disk
      ensures var v := old(bufTable[clockHand]);
        disk.log == old(disk.log) + WriteBack(v, AllFiles) &&
        disk.pages == StorePage(old(disk.pages), v, bufPool[clockHand], AllFiles, env) &&
        if WriteBackFails(v, AllFiles, env) then
          st == UnixErr && bufTable[..] == old(bufTable[..]) && hashTable == old(hashTable)
        else
          st == Ok && bufTable[..] == old(bufTable[..])[clockHand := Cleared] && hashTable == Unindex(old(hashTable), v)
      ensures Valid()
    {
      var d := bufTable[clockHand];
      if d.dirty {
        var writeSt := disk.WritePage(Key(d), bufPool[clockHand], env);
        if writeSt != Ok {
          return UnixErr;
        }
      }
      ReleaseFrame(bufTable[..], hashTable, clockHand, Cleared);
      hashTable := hashTable - {Key(d)};
      bufTable[clockHand] := Cleared;
      assert bufTable[..] == old(bufTable[..])[clockHand := Cleared];
      return Ok;
    }

    /**
     * `readPage`: a page the index holds gains a pin and its reference bit,
     * with no I/O. Otherwise a frame is allocated, the page is read into its
     * slot, indexed, and the frame `Set`. A read that reports BADPAGEPTR,
     * BADPAGENO or any status other than OK and UNIXERR falls through to OK
     * with no frame bound; the frame stays invalid and unindexed.
     */
    method ReadPage(file: FileId, pageNo: int, env: Env) returns (st: Status, frame: Option<nat>)
      requires Valid()
      modifies this, bufTable, bufPool, disk
      ensures Valid()
      ensures var id := PageId(file, pageNo);
        id in old(hashTable) ==>
          var i := old(hashTable)[id];
          st == Ok && frame == Some(i) &&
          bufTable[..] == old(bufTable[..])[i := Pin(old(bufTable[i]))] &&
          hashTable == old(hashTable) && clockHand == old(clockHand) &&
          bufPool[..] == old(bufPool[..]) && unchanged(disk)
      ensures var id := PageId(file, pageNo);
        id !in old(hashTable) && old(NextScan()).Exhausted? ==>
          st == BufferExceeded && frame == None &&
          bufTable[..] == old(NextScan()).table && clockHand == old(NextScan()).hand &&
          hashTable == old(hashTable) && bufPool[..] == old(bufPool[..]) && unchanged(disk)
      ensures var id := PageId(file, pageNo);
        id !in old(hashTable) && old(NextScan()).Pick? ==>
          var i := old(NextScan()).frame;
          var t := old(NextScan()).table;
          var h := Unindex(old(hashTable), t[i]);
          var pages := StorePage(old(disk.pages), t[i], old(bufPool[i]), AllFiles, env);
          var readSt := ReadStatus(pages, id, env);
          clockHand == i && disk.pages == pages &&
          if WriteBackFails(t[i], AllFiles, env) then
            st == UnixErr && frame == None && bufTable[..] == t && hashTable == old(hashTable) &&
            bufPool[..] == old(bufPool[..]) && disk.log == old(disk.log) + WriteBack(t[i], AllFiles)
          else
            disk.log == old(disk.log) + WriteBack(t[i], AllFiles) + [ReadReq(id)] &&
            bufPool[..] == (if readSt == Ok then old(bufPool[..])[i := pages[id]] else old(bufPool[..])) &&
            if readSt == Ok && !env.insertFails then
              st == Ok && frame == Some(i) && bufTable[..] == t[i := SetDesc(id)] && hashTable == h[id := i]
            else
              frame == None && bufTable[..] == t[i := Cleared] && hashTable == h &&
              st == (if readSt == Ok then HashTblError else if readSt == UnixErr then UnixErr else Ok)
    {
      var id := PageId(file, pageNo);
      if id in hashTable {
        var i := hashTable[id];
        var d := bufTable[i];
        ReplaceFrame(bufTable[..], hashTable, i, Pin(d));
        bufTable[i] := Pin(d);
        return Ok, Some(i);
      }
      var allocSt, i := AllocBuf(env);
      if allocSt == UnixErr {
        return UnixErr, None;
      } else if allocSt == BufferExceeded {
        return BufferExceeded, None;
      }
      st, frame := LoadFrame(id, i, env);
    }

    /**
     * The rest of `readPage`'s miss path, once `allocBuf` has cleared frame
     * `i`: read the page into the frame's slot and, if the read succeeds,
     * index the page and `Set` the frame. A read failing with UNIXERR returns
     * UNIXERR; one failing with BADPAGEPTR, BADPAGENO or any other status
     * falls through to OK with no frame.
     */
    method LoadFrame(id: PageId, i: nat, env: Env) returns (st: Status, frame: Option<nat>)
      requires Valid() && i < numBufs && bufTable[i] == Cleared && id !in hashTable
      modifies this`hashTable, bufTable, bufPool, disk
      ensures Valid()
      ensures disk.pages == old(disk.pages) && disk.log == old(disk.log) + [ReadReq(id)]
      ensures var readSt := ReadStatus(old(disk.pages), id, env);
        bufPool[..] == (if readSt == Ok then old(bufPool[..])[i := old(disk.pages)[id]] else old(bufPool[..])) &&
        if readSt == Ok && !env.insertFails then
          st == Ok && frame == Some(i) && bufTable[..] == old(bufTable[..])[i := SetDesc(id)] && hashTable == old(hashTable)[id := i]
        else
          frame == None && bufTable[..] == old(bufTable[..]) && hashTable == old(hashTable) &&
          st == (if readSt == Ok then HashTblError else if readSt == UnixErr then UnixErr else Ok)
    {
      var readSt, content := disk.ReadPage(id, env);
      if readSt == BadPagePtr {
      } else if readSt == BadPageNo {
      } else if readSt == UnixErr {
        return UnixErr, None;
      } else if readSt == Ok {
        bufPool[i] := content;
        // BufHashTbl::insert refuses a page it already holds and fails when it cannot allocate a bucket.
        var insertSt := if id in hashTable || env.insertFails then HashTblError else Ok;
        if insertSt == Ok {
          ClaimFrame(bufTable[..], hashTable, i, id);
          hashTable := hashTable[id := i];
          bufTable[i] := SetDesc(id);
          return Ok, Some(i);
        } else {
          return HashTblError, None;
        }
      }
      return Ok, None;
    }

    /**
     * `unPinPage`: HASHNOTFOUND for a page the index does not hold,
     * PAGENOTPINNED with nothing changed when the pin count is already 0, and
     * otherwise one pin fewer, with the dirty bit set when `dirty` is true and
     * never cleared.
     */
    method UnPinPage(file: FileId, pageNo: int, dirty: bool) returns (st: Status)
      requires Valid()
      modifies bufTable
      ensures Valid()
      ensures var id := PageId(file, pageNo);
        if id !in hashTable then
          st == HashNotFound && bufTable[..] == old(bufTable[..])
        else
          var i := hashTable[id];
          var d := old(bufTable[i]);
          if d.pinCnt == 0 then
            st == PageNotPinned && bufTable[..] == old(bufTable[..])
          else
            st == Ok && bufTable[..] == old(bufTable[..])[i := Unpin(d, dirty)]
    {
      var id := PageId(file, pageNo);
      if id in hashTable {
        var frameNo := hashTable[id];
        var d := bufTable[frameNo];
        if d.pinCnt == 0 {
          return PageNotPinned;
        }
        ReplaceFrame(bufTable[..], hashTable, frameNo, Unpin(d, dirty));
        bufTable[frameNo] := Unpin(d, dirty);
      } else {
        return HashNotFound;
      }
      return Ok;
    }

    /**
     * `allocPage`: ask the file for a new page (ignoring a failure, in which
     * case `pageNo` keeps the caller's value), allocate a frame, index the
     * page, `Set` the frame and read the page into its slot, ignoring the
     * read's status. The result is that of the frame allocation, or
     * HASHTBLERROR when the insert fails.
     */
    method AllocPage(file: FileId, pageNoIn: int, env: Env) returns (st: Status, pageNo: int, frame: Option<nat>)
      requires Valid()
      modifies this, bufTable, bufPool, disk
      ensures Valid()
      ensures pageNo == if env.answer(AllocateReq(file)) == Ok then env.newPageNo(file) else pageNoIn
      ensures var id := PageId(file, pageNo);
        var grown := if env.answer(AllocateReq(file)) == Ok then old(disk.pages)[id := EmptyPage] else old(disk.pages);
        old(NextScan()).Exhausted? ==>
          st == BufferExceeded && frame == None &&
          bufTable[..] == old(NextScan()).table && clockHand == old(NextScan()).hand &&
          hashTable == old(hashTable) && bufPool[..] == old(bufPool[..]) &&
          disk.pages == grown && disk.log == old(disk.log) + [AllocateReq(file)]
      ensures var id := PageId(file, pageNo);
        var grown := if env.answer(AllocateReq(file)) == Ok then old(disk.pages)[id := EmptyPage] else old(disk.pages);
        old(NextScan()).Pick? ==>
          var i := old(NextScan()).frame;
          var t := old(NextScan()).table;
          var h := Unindex(old(hashTable), t[i]);
          var pages := StorePage(grown, t[i], old(bufPool[i]), AllFiles, env);
          var logged := old(disk.log) + [AllocateReq(file)] + WriteBack(t[i], AllFiles);
          clockHand == i && disk.pages == pages &&
          if WriteBackFails(t[i], AllFiles, env) then
            st == UnixErr && frame == None && bufTable[..] == t && hashTable == old(hashTable) &&
            bufPool[..] == old(bufPool[..]) && disk.log == logged
          else if id in h || env.insertFails then
            st == HashTblError && frame == None && bufTable[..] == t[i := Cleared] && hashTable == h &&
            bufPool[..] == old(bufPool[..]) && disk.log == logged
          else
            st == Ok && frame == Some(i) && bufTable[..] == t[i := SetDesc(id)] && hashTable == h[id := i] &&
            disk.log == logged + [ReadReq(id)] &&
            bufPool[..] == if ReadStatus(pages, id, env) == Ok then old(bufPool[..])[i := pages[id]] else old(bufPool[..])
    {
      var allocSt, newPageNo := disk.AllocatePage(file, env);
      pageNo := if allocSt == Ok then newPageNo else pageNoIn;
      assert Valid() && NextScan() == old(NextScan());
      var s, frameNo := AllocBuf(env);
      if s == Ok {
        var insertSt;
        insertSt, frame := InstallPage(PageId(file, pageNo), frameNo, env);
        if insertSt != Ok {
          return HashTblError, pageNo, None;
        }
      } else {
        frame := None;
      }
      st := s;
    }

    /**
     * The rest of `allocPage` once `allocBuf` has cleared frame `i`: index the
     * page (HASHTBLERROR, with nothing changed, when the index refuses it),
     * `Set` the frame and read the page into its slot, whatever the read
     * reports.
     */
    method InstallPage(id: PageId, i: nat, env: Env) returns (st: Status, frame: Option<nat>)
      requires Valid() && i < numBufs && bufTable[i] == Cleared
      modifies this`hashTable, bufTable, bufPool, disk
      ensures Valid()
      ensures id in old(hashTable) || env.insertFails ==>
        st == HashTblError && frame == None && bufTable[..] == old(bufTable[..]) && hashTable == old(hashTable) &&
        bufPool[..] == old(bufPool[..]) && unchanged(disk)
      ensures !(id in old(hashTable) || env.insertFails) ==>
        st == Ok && frame == Some(i) && bufTable[..] == old(bufTable[..])[i := SetDesc(id)] && hashTable == old(hashTable)[id := i] &&
        disk.pages == old(disk.pages) && disk.log == old(disk.log) + [ReadReq(id)] &&
        bufPool[..] == if ReadStatus(old(disk.pages), id, env) == Ok then old(bufPool[..])[i := old(disk.pages)[id]] else old(bufPool[..])
    {
      // BufHashTbl::insert refuses a page it already holds and fails when it cannot allocate a bucket.
      if id in hashTable || env.insertFails {
        return HashTblError, None;
      }
      ClaimFrame(bufTable[..], hashTable, i, id);
      hashTable := hashTable[id := i];
      bufTable[i] := SetDesc(id);
      var readSt, content := disk.ReadPage(id, env);
      if readSt == Ok {
        bufPool[i] := content;
      }
      return Ok, Some(i);
    }

    /**
     * `disposePage`: a resident page's frame is cleared, without writing it
     * back and whether or not it is pinned; the page leaves the index; the
     * result is the file's answer to disposing of the page.
     */
    method DisposePage(file: FileId, pageNo: int, env: Env) returns (st: Status)
      requires Valid()
      modifies this, bufTable, disk
      ensures Valid()
      ensures var id := PageId(file, pageNo);
        id !in hashTable && hashTable == old(hashTable) - {id} &&
        bufTable[..] == (if id in old(hashTable) then old(bufTable[..])[old(hashTable)[id] := Cleared] else old(bufTable[..])) &&
        clockHand == old(clockHand) &&
        st == env.answer(DisposeReq(id)) &&
        disk.log == old(disk.log) + [DisposeReq(id)] &&
        disk.pages == if st == Ok then old(disk.pages) - {id} else old(disk.pages)
    {
      var id := PageId(file, pageNo);
      if id in hashTable {
        var frameNo := hashTable[id];
        ReleaseFrame(bufTable[..], hashTable, frameNo, Cleared);
        bufTable[frameNo] := Cleared;
      }
      hashTable := hashTable - {id};
      st := disk.DisposePage(id, env);
    }

    /**
     * `flushFile(file)`: one pass over the frames in order. Each valid frame
     * of the file is written back if dirty, dropped from the index and made
     * invalid; the pass stops with PAGEPINNED at a pinned frame of the file,
     * with the write's status when a write fails, and with BADBUFFER at an
     * invalid frame that still names the file. Frames before the stop stay
     * flushed.
     */
    method FlushFile(file: FileId, env: Env) returns (st: Status)
      requires Valid()
      modifies this`hashTable, bufTable, disk
      ensures Valid()
      ensures var t := old(bufTable[..]);
        var r := FlushOutcome(t, file, env, 0);
        st == r.status &&
        bufTable[..] == FlushedTable(t, file, r.stop) &&
        hashTable == old(hashTable) - OwnedKeys(t, file, r.stop) &&
        disk.pages == WrittenPages(old(disk.pages), t[..r.stop], bufPool[..r.stop], OneFile(file), env) &&
        disk.log == old(disk.log) + Writes(t[..r.stop], OneFile(file)) +
                    (if r.stop < |t| && t[r.stop].pinCnt == 0 then WriteBack(t[r.stop], OneFile(file)) else [])
      ensures st == Ok ==>
        (forall j :: 0 <= j < numBufs ==> bufTable[j].file != Some(file)) &&
        (forall id :: id in hashTable ==> id.file != file)
    {
      FlushKeepsConsistent(bufTable[..], hashTable, file, env);
      FlushOkLeavesNothingOfFile(bufTable[..], hashTable, file, env);
      st := FlushFrames(file, env);
    }

    /** The loop of `flushFile`, proved against `FlushOutcome`. */
    method FlushFrames(file: FileId, env: Env) returns (st: Status)
      requires bufTable.Length == numBufs && bufPool.Length == numBufs
      modifies this`hashTable, bufTable, disk
      ensures var t := old(bufTable[..]);
        var r := FlushOutcome(t, file, env, 0);
        st == r.status &&
        bufTable[..] == FlushedTable(t, file, r.stop) &&
        hashTable == old(hashTable) - OwnedKeys(t, file, r.stop) &&
        disk.pages == WrittenPages(old(disk.pages), t[..r.stop], bufPool[..r.stop], OneFile(file), env) &&
        disk.log == old(disk.log) + Writes(t[..r.stop], OneFile(file)) +
                    (if r.stop < |t| && t[r.stop].pinCnt == 0 then WriteBack(t[r.stop], OneFile(file)) else [])
    {
      ghost var t, h, pool := bufTable[..], hashTable, bufPool[..];
      ghost var pages, log := disk.pages, disk.log;
      for i := 0 to numBufs
        invariant FlushOutcome(t, file, env, i) == FlushOutcome(t, file, env, 0)
        invariant bufTable[..] == FlushedTable(t, file, i)
        invariant hashTable == h - OwnedKeys(t, file, i)
        invariant disk.pages == WrittenPages(pages, t[..i], pool[..i], OneFile(file), env)
        invariant disk.log == log + Writes(t[..i], OneFile(file))
      {
        FlushOutcomeAt(t, file, env, i);
        PassOneMore(pages, t, pool, OneFile(file), env, i);
        FlushOneMore(t, h, file, i);
        assert bufTable[i] == t[i];
        st := FlushFrame(file, env, i);
        if st != Ok {
          return;
        }
      }
      return Ok;
    }

    /**
     * One iteration of `flushFile`'s loop, at frame `i`: a valid frame of the
     * file is refused if pinned, written back if dirty (stopping on an
     * error), then dropped from the index and made invalid; an invalid frame
     * still naming the file is refused with BADBUFFER; any other frame is
     * left alone.
     */
    method FlushFrame(file: FileId, env: Env, i: nat) returns (st: Status)
      requires bufTable.Length == numBufs && bufPool.Length == numBufs && i < numBufs
      modifies this`hashTable, bufTable, disk
      ensures var d := old(bufTable[i]);
        (st == Ok <==> Passes(d, file, env)) &&
        (!Passes(d, file, env) ==> st == StopStatus(d, file, env)) &&
        disk.log == old(disk.log) + (if d.pinCnt == 0 then WriteBack(d, OneFile(file)) else []) &&
        disk.pages == (if d.pinCnt == 0 then StorePage(old(disk.pages), d, bufPool[i], OneFile(file), env) else old(disk.pages)) &&
        if Passes(d, file, env) && Owned(d, file) then
          bufTable[..] == old(bufTable[..])[i := Flushed(d)] && hashTable == old(hashTable) - {Key(d)}
        else
          bufTable[..] == old(bufTable[..]) && hashTable == old(hashTable)
    {
      var d := bufTable[i];
      if d.valid && d.file == Some(file) {
        if d.pinCnt > 0 {
          return PagePinned;
        }
        if d.dirty {
          st := disk.WritePage(Key(d), bufPool[i], env);
          if st != Ok {
            return;
          }
        }
        hashTable := hashTable - {Key(d)};
        bufTable[i] := Flushed(d);
      } else if !d.valid && d.file == Some(file) {
        return BadBuffer;
      }
      return Ok;
    }

    /**
     * The destructor's flush loop: every valid dirty frame is written to its
     * own page once, in frame order, whatever the writes report; descriptors
     * and index are left as they are.
     */
    method Shutdown(env: Env)
      requires Valid()
      modifies disk
      ensures disk.log == old(disk.log) + Writes(bufTable[..], AllFiles)
      ensures disk.pages == WrittenPages(old(disk.pages), bufTable[..], bufPool[..], AllFiles, env)
    {
      for i := 0 to numBufs
        invariant disk.log == old(disk.log) + Writes(bufTable[..i], AllFiles)
        invariant disk.pages == WrittenPages(old(disk.pages), bufTable[..i], bufPool[..i], AllFiles, env)
      {
        assert bufTable[..i + 1][..i] == bufTable[..i] && bufPool[..i + 1][..i] == bufPool[..i];
        var d := bufTable[i];
        if d.valid && d.dirty {
          var _ := disk.WritePage(Key(d), bufPool[i], env);
        }
      }
      assert bufTable[..] == bufTable[..numBufs] && bufPool[..] == bufPool[..numBufs];
    }
  }
}
