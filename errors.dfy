/** The error enumerations of the program, the untyped `throws` that carries them,
    and the result type every failing operation of the model returns. */
module Errors {
  import opened Ints

  /** `MmapFileError` (Sources/Mmap/MmapFile.swift). */
  datatype MmapFileError =
    | MmapOutOfBounds
    | MmapFailed
    | MsyncFailed
    | NoFileSize
    | MmapInvalidOffset
    | MmapInvalidSize

  /** `FileDescriptorError` (Sources/ParchmentFile/FileDescriptor+Extension.swift). */
  datatype FileDescriptorError = DescriptorOutOfBounds | DataConversionFailed

  /** `ParchmentError`, declared identically by both backends. */
  datatype ParchmentError =
    | FileCouldNotBeCreated(path: string)
    | NoMmapFile
    | CannotAppend
    | FileDoesNotExist
    | FileSizeNotAligned(bytes: int)
    | InvalidSize(size: int)
    | InvalidOffset(offset: u64)
    | FileExists
    | MaxUInt64ValueNotAllowed

  /** `PageError` (Sources/Parchment/Page.swift). */
  datatype PageError = PageWasDeleted | InvalidPage

  /** `ManuscriptError` (Sources/ParchmentMmap/Manuscript.swift). */
  datatype ManuscriptError =
    | CouldNotCreateDirectory
    | PageConflict
    | BadPageNumber
    | PageDeleted
    | EmptyManuscript

  /** What a Swift `throws` can carry here. `NoSuchFile` is the `Errno` that
      `FileDescriptor.open` throws for a missing path opened without `.create`.
      `Trap` stands for a Swift runtime trap (an arithmetic overflow) on a value that
      came from a file rather than from the caller. */
  datatype Error =
    | MmapErr(mmap: MmapFileError)
    | DescriptorErr(descriptor: FileDescriptorError)
    | ParchmentErr(parchment: ParchmentError)
    | PageErr(page: PageError)
    | ManuscriptErr(manuscript: ManuscriptError)
    | NoSuchFile
    | Trap

  datatype Option<T> = None | Some(value: T)

  datatype Result<T> = Ok(value: T) | Err(error: Error) {
    predicate IsFailure() { Err? }

    function PropagateFailure<U>(): Result<U>
      requires Err?
    {
      Err(error)
    }

    function Extract(): T
      requires Ok?
    {
      value
    }
  }
}
