/**
 * The file layer the pool reads from and writes to (`File::readPage`,
 * `writePage`, `allocatePage`, `disposePage`). Its internals are not part of
 * this model: every file is a map from page number to content, and the status
 * of each call is whatever the environment answers.
 */
module Files {
  import opened Types

  /** A call into the file layer. */
  datatype Request =
    | ReadReq(id: PageId)
    | WriteReq(id: PageId)
    | AllocateReq(file: FileId)
    | DisposeReq(id: PageId)

  /**
   * What the environment answers during one pool operation: the status of
   * each file-layer call, the page number `allocatePage` hands out, and
   * whether the page index fails to allocate a bucket on insert.
   */
  datatype Env = Env(answer: Request -> Status, newPageNo: FileId -> int, insertFails: bool)

  /** Content of a freshly allocated page. */
  const EmptyPage: Page := []

  /**
   * The status of a read: the environment decides, except that a read of a
   * page the file does not hold cannot succeed and reports BadPageNo where
   * the environment would have said OK.
   */
  function ReadStatus(pages: map<PageId, Page>, id: PageId, env: Env): (r: Status)
    ensures r == Ok ==> id in pages
    ensures id in pages || env.answer(ReadReq(id)) != Ok ==> r == env.answer(ReadReq(id))
    ensures id !in pages && env.answer(ReadReq(id)) == Ok ==> r == BadPageNo
  {
    if id in pages || env.answer(ReadReq(id)) != Ok then env.answer(ReadReq(id)) else BadPageNo
  }

  /** All open files together; `log` records every call made to them. */
  class Disk {
    var pages: map<PageId, Page>
    ghost var log: seq<Request>

    constructor (pages: map<PageId, Page>)
      ensures this.pages == pages && log == []
    {
      this.pages := pages;
      log := [];
    }

    method ReadPage(id: PageId, env: Env) returns (st: Status, content: Page)
      modifies this
      ensures st == ReadStatus(old(pages), id, env)
      ensures st == Ok ==> id in pages && content == pages[id]
      ensures pages == old(pages) && log == old(log) + [ReadReq(id)]
    {
      st := ReadStatus(pages, id, env);
      content := if st == Ok then pages[id] else EmptyPage;
      log := log + [ReadReq(id)];
    }

    method WritePage(id: PageId, content: Page, env: Env) returns (st: Status)
      modifies this
      ensures st == env.answer(WriteReq(id))
      ensures pages == if st == Ok then old(pages)[id := content] else old(pages)
      ensures log == old(log) + [WriteReq(id)]
    {
      st := env.answer(WriteReq(id));
      if st == Ok {
        pages := pages[id := content];
      }
      log := log + [WriteReq(id)];
    }

    method AllocatePage(file: FileId, env: Env) returns (st: Status, pageNo: int)
      modifies this
      ensures st == env.answer(AllocateReq(file)) && pageNo == env.newPageNo(file)
      ensures pages == if st == Ok then old(pages)[PageId(file, pageNo) := EmptyPage] else old(pages)
      ensures log == old(log) + [AllocateReq(file)]
    {
      st := env.answer(AllocateReq(file));
      pageNo := env.newPageNo(file);
      if st == Ok {
        pages := pages[PageId(file, pageNo) := EmptyPage];
      }
      log := log + [AllocateReq(file)];
    }

    method DisposePage(id: PageId, env: Env) returns (st: Status)
      modifies this
      ensures st == env.answer(DisposeReq(id))
      ensures pages == if st == Ok then old(pages) - {id} else old(pages)
      ensures log == old(log) + [DisposeReq(id)]
    {
      st := env.answer(DisposeReq(id));
      if st == Ok {
        pages := pages - {id};
      }
      log := log + [DisposeReq(id)];
    }
  }
}
