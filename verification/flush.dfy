/**
 * Writing dirty frames back: the passes of `BufMgr::flushFile` and of the
 * destructor, and the scan of `flushFile` as a pure function.
 */
module Flush {
  import opened Types
  import opened Files
  import opened Frames

  /** The frames a write-back pass covers: every valid frame (the destructor) or those of one file (`flushFile`). */
  datatype Scope = AllFiles | OneFile(file: FileId)

  predicate InScope(d: BufDesc, s: Scope)
  {
    d.valid && d.file.Some? && (s.AllFiles? || d.file.value == s.file)
  }

  /** A valid frame holding a page of file `f`. */
  predicate Owned(d: BufDesc, f: FileId)
  {
    InScope(d, OneFile(f))
  }

  /** The write a pass issues for one frame: one, to the frame's own page, when it is in scope and dirty. */
  function WriteBack(d: BufDesc, s: Scope): seq<Request>
  {
    if InScope(d, s) && d.dirty then [WriteReq(Key(d))] else []
  }

  /** Writing the frame back is attempted and the file layer reports an error. */
  predicate WriteBackFails(d: BufDesc, s: Scope, env: Env)
  {
    InScope(d, s) && d.dirty && env.answer(WriteReq(Key(d))) != Ok
  }

  /** The disk after the write a pass issues for one frame: the slot's content is stored only on success. */
  function StorePage(pages: map<PageId, Page>, d: BufDesc, content: Page, s: Scope, env: Env): map<PageId, Page>
  {
    if InScope(d, s) && d.dirty && env.answer(WriteReq(Key(d))) == Ok then pages[Key(d) := content] else pages
  }

  /** The writes of a pass over the frames of `t`, in frame order. */
  function Writes(t: seq<BufDesc>, s: Scope): seq<Request>
  {
    if t == [] then [] else Writes(t[..|t| - 1], s) + WriteBack(t[|t| - 1], s)
  }

  /** The disk after a pass over the frames of `t` whose slots hold `pool`. */
  function WrittenPages(pages: map<PageId, Page>, t: seq<BufDesc>, pool: seq<Page>, s: Scope, env: Env): map<PageId, Page>
    requires |pool| == |t|
  {
    if t == [] then pages
    else StorePage(WrittenPages(pages, t[..|t| - 1], pool[..|t| - 1], s, env), t[|t| - 1], pool[|t| - 1], s, env)
  }

  /** Every write of a pass goes to the page of a dirty frame in scope. */
  lemma {:induction false} WritesFromDirtyFrames(t: seq<BufDesc>, s: Scope, r: Request)
    requires r in Writes(t, s)
    ensures exists j :: 0 <= j < |t| && InScope(t[j], s) && t[j].dirty && r == WriteReq(Key(t[j]))
  {
    var m := |t| - 1;
    if r in Writes(t[..m], s) {
      WritesFromDirtyFrames(t[..m], s, r);
      var j :| 0 <= j < m && InScope(t[..m][j], s) && t[..m][j].dirty && r == WriteReq(Key(t[..m][j]));
      assert t[j] == t[..m][j];
    } else {
      assert r in WriteBack(t[m], s);
    }
  }

  /** When no two frames hold the same page, a pass writes each dirty frame in scope exactly once. */
  lemma {:induction false} WrittenOnce(t: seq<BufDesc>, s: Scope, j: int)
    requires DistinctKeys(t) && 0 <= j < |t| && InScope(t[j], s) && t[j].dirty
    ensures multiset(Writes(t, s))[WriteReq(Key(t[j]))] == 1
  {
    var m := |t| - 1;
    var w := WriteReq(Key(t[j]));
    assert Writes(t, s) == Writes(t[..m], s) + WriteBack(t[m], s);
    if j == m {
      if w in Writes(t[..m], s) {
        WritesFromDirtyFrames(t[..m], s, w);
        assert false;
      }
    } else {
      assert t[..m][j] == t[j];
      WrittenOnce(t[..m], s, j);
      assert w !in WriteBack(t[m], s);
    }
  }

  /** Under the invariant, the destructor's pass writes every valid dirty frame exactly once and nothing else. */
  lemma ShutdownWritesEachDirtyFrameOnce(t: seq<BufDesc>, h: map<PageId, nat>)
    requires Consistent(t, h)
    ensures forall j :: 0 <= j < |t| && t[j].valid && t[j].dirty ==> multiset(Writes(t, AllFiles))[WriteReq(Key(t[j]))] == 1
    ensures forall r :: r in Writes(t, AllFiles) ==> exists j :: 0 <= j < |t| && t[j].valid && t[j].dirty && r == WriteReq(Key(t[j]))
  {
    KeysDistinct(t, h);
    forall j | 0 <= j < |t| && t[j].valid && t[j].dirty
      ensures multiset(Writes(t, AllFiles))[WriteReq(Key(t[j]))] == 1
    {
      WrittenOnce(t, AllFiles, j);
    }
    forall r | r in Writes(t, AllFiles)
      ensures exists j :: 0 <= j < |t| && t[j].valid && t[j].dirty && r == WriteReq(Key(t[j]))
    {
      WritesFromDirtyFrames(t, AllFiles, r);
    }
  }

  /** `flushFile`'s treatment of a frame it flushes: clean, invalid, unowned. */
  function Flushed(d: BufDesc): BufDesc
  {
    d.(file := None, pageNo := -1, valid := false, dirty := false)
  }

  /** The table after `flushFile` has flushed the frames of `f` before frame `k`. */
  function FlushedTable(t: seq<BufDesc>, f: FileId, k: nat): (u: seq<BufDesc>)
    ensures |u| == |t|
  {
    seq(|t|, j requires 0 <= j < |t| => if j < k && Owned(t[j], f) then Flushed(t[j]) else t[j])
  }

  /** The pages of `f` held by the frames before frame `k`. */
  function OwnedKeys(t: seq<BufDesc>, f: FileId, k: nat): set<PageId>
  {
    set j | 0 <= j < k && j < |t| && Owned(t[j], f) :: Key(t[j])
  }

  /** A frame `flushFile` goes past: not pinned if it is `f`'s, written back if it is dirty, and not an invalid frame still naming `f`. */
  predicate Passes(d: BufDesc, f: FileId, env: Env)
  {
    (Owned(d, f) ==> d.pinCnt == 0 && !WriteBackFails(d, OneFile(f), env)) &&
    !(!d.valid && d.file == Some(f))
  }

  /** The status `flushFile` returns at a frame it cannot pass. */
  function StopStatus(d: BufDesc, f: FileId, env: Env): Status
    requires !Passes(d, f, env)
  {
    if !d.valid then BadBuffer
    else if d.pinCnt > 0 then PagePinned
    else env.answer(WriteReq(Key(d)))
  }

  datatype FlushResult = FlushResult(status: Status, stop: nat)

  /**
   * The loop of `flushFile(f)` from frame `i`: it stops at the first frame
   * it cannot pass, with the status that frame causes, and otherwise returns
   * OK after the last frame.
   */
  function FlushOutcome(t: seq<BufDesc>, f: FileId, env: Env, i: nat): (r: FlushResult)
    requires i <= |t|
    ensures i <= r.stop <= |t|
    ensures forall j :: i <= j < r.stop ==> Passes(t[j], f, env)
    ensures r.stop == |t| ==> r.status == Ok
    ensures r.stop < |t| ==> !Passes(t[r.stop], f, env) && r.status == StopStatus(t[r.stop], f, env) && r.status != Ok
    decreases |t| - i
  {
    if i == |t| then FlushResult(Ok, i)
    else
      var d := t[i];
      if d.valid && d.file == Some(f) then
        if d.pinCnt > 0 then FlushResult(PagePinned, i)
        else if d.dirty && env.answer(WriteReq(Key(d))) != Ok then FlushResult(env.answer(WriteReq(Key(d))), i)
        else FlushOutcome(t, f, env, i + 1)
      else if !d.valid && d.file == Some(f) then FlushResult(BadBuffer, i)
      else FlushOutcome(t, f, env, i + 1)
  }

  /** Going past one more frame flushes it if it is `f`'s and drops its page from the index. */
  lemma FlushOneMore(t: seq<BufDesc>, h: map<PageId, nat>, f: FileId, k: nat)
    requires k < |t|
    ensures FlushedTable(t, f, k + 1) == FlushedTable(t, f, k)[k := if Owned(t[k], f) then Flushed(t[k]) else t[k]]
    ensures h - OwnedKeys(t, f, k + 1) == (h - OwnedKeys(t, f, k)) - (if Owned(t[k], f) then {Key(t[k])} else {})
  {
    assert OwnedKeys(t, f, k + 1) == OwnedKeys(t, f, k) + (if Owned(t[k], f) then {Key(t[k])} else {});
  }

  /** The scan from frame `k` goes on to frame `k + 1` when it passes frame `k`, and stops there otherwise. */
  lemma FlushOutcomeAt(t: seq<BufDesc>, f: FileId, env: Env, k: nat)
    requires k < |t|
    ensures Passes(t[k], f, env) ==> FlushOutcome(t, f, env, k) == FlushOutcome(t, f, env, k + 1)
    ensures !Passes(t[k], f, env) ==> FlushOutcome(t, f, env, k).stop == k
  {
  }

  /** A pass over the first `k + 1` frames is the pass over the first `k` followed by frame `k`'s write-back. */
  lemma PassOneMore(pages: map<PageId, Page>, t: seq<BufDesc>, pool: seq<Page>, s: Scope, env: Env, k: nat)
    requires |pool| == |t| && k < |t|
    ensures Writes(t[..k + 1], s) == Writes(t[..k], s) + WriteBack(t[k], s)
    ensures WrittenPages(pages, t[..k + 1], pool[..k + 1], s, env) ==
            StorePage(WrittenPages(pages, t[..k], pool[..k], s, env), t[k], pool[k], s, env)
  {
    assert t[..k + 1][..k] == t[..k] && pool[..k + 1][..k] == pool[..k];
  }

  /** Flushing the frames of `f` that the scan went past, and dropping their index entries, keeps the invariant. */
  lemma FlushKeepsConsistent(t: seq<BufDesc>, h: map<PageId, nat>, f: FileId, env: Env)
    requires Consistent(t, h)
    ensures var k := FlushOutcome(t, f, env, 0).stop;
            Consistent(FlushedTable(t, f, k), h - OwnedKeys(t, f, k))
  {
    var k := FlushOutcome(t, f, env, 0).stop;
    var u := FlushedTable(t, f, k);
    var h' := h - OwnedKeys(t, f, k);
    forall i | 0 <= i < |u|
      ensures WellFormed(u[i])
    {
      if i < k && Owned(t[i], f) {
        assert Passes(t[i], f, env);
      }
    }
  }

  /**
   * Under the invariant, `flushFile` stops only at a valid frame of `f` (so
   * its BADBUFFER branch is never taken), and when it
   * returns OK no frame belongs to `f` any more and the index holds no page
   * of `f`.
   */
  lemma FlushOkLeavesNothingOfFile(t: seq<BufDesc>, h: map<PageId, nat>, f: FileId, env: Env)
    requires Consistent(t, h)
    ensures FlushOutcome(t, f, env, 0).stop < |t| ==> Owned(t[FlushOutcome(t, f, env, 0).stop], f)
    ensures FlushOutcome(t, f, env, 0).status == Ok ==>
              (forall j :: 0 <= j < |t| ==> FlushedTable(t, f, |t|)[j].file != Some(f)) &&
              (forall id :: id in h - OwnedKeys(t, f, |t|) ==> id.file != f)
  {
    var r := FlushOutcome(t, f, env, 0);
    if r.stop < |t| {
      assert WellFormed(t[r.stop]);
    }
    if r.status == Ok {
      forall id | id in h && id.file == f
        ensures id in OwnedKeys(t, f, |t|)
      {
        var j := h[id];
        assert Owned(t[j], f) && Key(t[j]) == id;
      }
    }
  }

  /** `flushFile` on a file with no frame returns OK, writes nothing and changes nothing. */
  lemma NothingToFlush(t: seq<BufDesc>, f: FileId, env: Env)
    requires forall j :: 0 <= j < |t| ==> t[j].file != Some(f)
    ensures FlushOutcome(t, f, env, 0) == FlushResult(Ok, |t|)
    ensures FlushedTable(t, f, |t|) == t && OwnedKeys(t, f, |t|) == {}
    ensures Writes(t, OneFile(f)) == []
  {
    NoWritesOutsideScope(t, f);
  }

  lemma {:induction false} NoWritesOutsideScope(t: seq<BufDesc>, f: FileId)
    requires forall j :: 0 <= j < |t| ==> t[j].file != Some(f)
    ensures Writes(t, OneFile(f)) == []
  {
    if t != [] {
      NoWritesOutsideScope(t[..|t| - 1], f);
    }
  }

  /**
   * The scan has no separate pass that looks for pinned frames first: with
   * frame 0 dirty and frame 1 pinned, both of file 3, `flushFile` writes and
   * invalidates frame 0 and only then returns PAGEPINNED at frame 1.
   */
  lemma PinnedAfterPartialFlush()
    ensures var t := [BufDesc(Some(3), 0, true, true, false, 0), BufDesc(Some(3), 1, true, false, true, 1)];
            var env := Env(_ => Ok, _ => 0, false);
            var r := FlushOutcome(t, 3, env, 0);
            r == FlushResult(PagePinned, 1) &&
            !FlushedTable(t, 3, r.stop)[0].valid && FlushedTable(t, 3, r.stop)[1] == t[1] &&
            Writes(t[..r.stop], OneFile(3)) == [WriteReq(PageId(3, 0))]
  {
    var t := [BufDesc(Some(3), 0, true, true, false, 0), BufDesc(Some(3), 1, true, false, true, 1)];
    assert t[..1][..0] == [];
  }
}
