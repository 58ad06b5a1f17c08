/** The error messages the `upload` rule can record, by kind. */
module UploadMessages {

  /** What `_uploadError` can hold. `NoMessage` is the empty string. */
  datatype UploadMessage =
    | NoMessage
    | ExceedsIniSize
    | ExceedsFormSize
    | PartiallyUploaded
    | NoFileUploaded
    | NoTmpDir
    | CantWrite
    | StoppedByExtension
    | UnknownError

  /** The untranslated message text for each kind; the size in the first one
      is filled in at run time. */
  function Text(m: UploadMessage): string {
    match m
    case NoMessage => ""
    case ExceedsIniSize => "The uploaded file exceeds limit of %s."
    case ExceedsFormSize => "The uploaded file is to big, please choose a smaller file or try to compress it."
    case PartiallyUploaded => "The uploaded file was only partially uploaded."
    case NoFileUploaded => "No file was uploaded."
    case NoTmpDir => "The remote server has no temporary folder for file uploads. Please contact the site admin."
    case CantWrite => "Failed to write file to disk. Please contact the site admin."
    case StoppedByExtension => "File upload stopped by extension. Please contact the site admin."
    case UnknownError => "Unknown File Error. Please contact the site admin."
  }

  lemma TextEmptyOnlyForNoMessage(m: UploadMessage)
    ensures Text(m) == "" <==> m == NoMessage
  {
  }
}
