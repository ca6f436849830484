/**
 * Frame descriptors (`BufDesc`) and the invariant that ties the descriptor
 * table to the page index `(file, pageNo) -> frame`.
 */
module Frames {
  import opened Types

  /**
   * One frame descriptor. The source also stores the frame number, which is
   * always the descriptor's index in the table, so it is not kept here.
   */
  datatype BufDesc = BufDesc(
    file: Option<FileId>,
    pageNo: int,
    valid: bool,
    dirty: bool,
    refbit: bool,
    pinCnt: nat)

  /** The descriptor the constructor's zero fill leaves in every frame. */
  const Zeroed: BufDesc := BufDesc(None, 0, false, false, false, 0)

  /** `BufDesc::Clear`: invalid, unowned, clean, unreferenced, unpinned. */
  const Cleared: BufDesc := BufDesc(None, -1, false, false, false, 0)

  /** `BufDesc::Set(file, pageNo)`: valid, owned, referenced, clean, pinned once. */
  function SetDesc(id: PageId): BufDesc
  {
    BufDesc(Some(id.file), id.pageNo, true, false, true, 1)
  }

  /** A hit in `readPage`: the frame is referenced and pinned once more. */
  function Pin(d: BufDesc): (r: BufDesc)
    ensures r.pinCnt == d.pinCnt + 1 && r.refbit
    ensures r.(pinCnt := d.pinCnt, refbit := d.refbit) == d
  {
    d.(refbit := true, pinCnt := d.pinCnt + 1)
  }

  /** `unPinPage` on a pinned frame: one pin fewer, and the dirty bit set when the caller wrote the page. */
  function Unpin(d: BufDesc, dirty: bool): (r: BufDesc)
    requires d.pinCnt > 0
    ensures r.pinCnt == d.pinCnt - 1 && (r.dirty <==> d.dirty || dirty)
    ensures r.(pinCnt := d.pinCnt, dirty := d.dirty) == d
  {
    d.(pinCnt := d.pinCnt - 1, dirty := d.dirty || dirty)
  }

  /** Unpinning a page just read undoes the pin: only the reference bit, and the dirty bit if the caller wrote, remain set. */
  lemma UnpinUndoesPin(d: BufDesc, dirty: bool)
    ensures Unpin(Pin(d), dirty) == d.(refbit := true, dirty := d.dirty || dirty)
  {
  }

  /** The page a descriptor holds. */
  function Key(d: BufDesc): PageId
    requires d.file.Some?
  {
    PageId(d.file.value, d.pageNo)
  }

  /** A valid frame has an owner; an invalid one is unowned, clean and unpinned. */
  predicate WellFormed(d: BufDesc)
  {
    if d.valid then d.file.Some? else d.pinCnt == 0 && !d.dirty && d.file.None?
  }

  /**
   * The pool invariant: every descriptor is well formed, a frame is valid
   * exactly when the index maps its page to it, and every index entry names a
   * valid frame holding that page.
   */
  predicate Consistent(t: seq<BufDesc>, h: map<PageId, nat>)
  {
    (forall i :: 0 <= i < |t| ==> WellFormed(t[i])) &&
    (forall i :: 0 <= i < |t| && t[i].valid ==> Key(t[i]) in h && h[Key(t[i])] == i) &&
    (forall id :: id in h ==> h[id] < |t| && t[h[id]].valid && Key(t[h[id]]) == id)
  }

  /** `u` is `t` with some reference bits cleared and nothing else changed. */
  predicate OnlyRefbitsCleared(t: seq<BufDesc>, u: seq<BufDesc>)
  {
    |u| == |t| &&
    forall i :: 0 <= i < |t| ==> u[i] == t[i].(refbit := u[i].refbit) && (u[i].refbit ==> t[i].refbit)
  }

  /** The index without the entry of the page a valid frame holds (`hashTable->remove`). */
  function Unindex(h: map<PageId, nat>, d: BufDesc): map<PageId, nat>
  {
    if d.valid && d.file.Some? then h - {Key(d)} else h
  }

  /** No two valid, owned frames hold the same page. */
  predicate DistinctKeys(t: seq<BufDesc>)
  {
    forall i, j :: 0 <= i < j < |t| && t[i].valid && t[j].valid && t[i].file.Some? && t[j].file.Some? ==>
      Key(t[i]) != Key(t[j])
  }

  /** Under the invariant, two valid frames never hold the same page. */
  lemma KeysDistinct(t: seq<BufDesc>, h: map<PageId, nat>)
    requires Consistent(t, h)
    ensures DistinctKeys(t)
  {
  }

  /** Dropping a valid frame's page (eviction, disposal, flush) together with its index entry keeps the invariant. */
  lemma ReleaseFrame(t: seq<BufDesc>, h: map<PageId, nat>, i: int, d: BufDesc)
    requires Consistent(t, h) && 0 <= i < |t| && t[i].valid
    requires !d.valid && WellFormed(d)
    ensures Consistent(t[i := d], h - {Key(t[i])})
  {
  }

  /** Binding an invalid frame to a page the index does not hold, and indexing it, keeps the invariant. */
  lemma ClaimFrame(t: seq<BufDesc>, h: map<PageId, nat>, i: int, id: PageId)
    requires Consistent(t, h) && 0 <= i < |t| && !t[i].valid && id !in h
    ensures Consistent(t[i := SetDesc(id)], h[id := i])
  {
  }

  /** Replacing a descriptor by a well-formed one that holds the same page (or none, as before) keeps the invariant. */
  lemma ReplaceFrame(t: seq<BufDesc>, h: map<PageId, nat>, i: int, d: BufDesc)
    requires Consistent(t, h) && 0 <= i < |t| && WellFormed(d)
    requires d.valid == t[i].valid && (d.valid ==> Key(d) == Key(t[i]))
    ensures Consistent(t[i := d], h)
  {
  }

  /** Clearing reference bits never disturbs the invariant. */
  lemma RefbitsKeepConsistent(t: seq<BufDesc>, u: seq<BufDesc>, h: map<PageId, nat>)
    requires Consistent(t, h) && OnlyRefbitsCleared(t, u)
    ensures Consistent(u, h)
  {
  }
}
