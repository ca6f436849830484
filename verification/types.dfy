/** Values shared by the buffer manager and its collaborators. */
module Types {

  /** The status codes the buffer manager and the file layer return. */
  datatype Status =
    | Ok
    | UnixErr
    | BadPageNo
    | BadPagePtr
    | BufferExceeded
    | HashTblError
    | HashNotFound
    | PageNotPinned
    | PagePinned
    | BadBuffer

  datatype Option<T> = None | Some(value: T)

  /** A `File*` is modelled by its identity; a descriptor with no owner holds `None`. */
  type FileId = nat

  /** The key of the page index: a page of a file. */
  datatype PageId = PageId(file: FileId, pageNo: int)

  /** The content of a page slot; the pool only copies it and never looks inside. */
  type Page = seq<bv8>
}
