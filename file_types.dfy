/**
 * The records exchanged with the file dialog (src/types/file.ts).
 * Optional fields become `Option`; a `number` size becomes a `nat`.
 */
module FileTypes {
  import opened Wrappers

  /** A picked file: its display name, a native path or URL, and its size in bytes if known. */
  datatype FileInfo = FileInfo(name: string, path: string, size: Option<nat>)

  /** One entry of a dialog's file-type filter list. */
  datatype FileFilter = FileFilter(name: string, extensions: seq<string>)

  /** What a caller may pass to the dialog; every field is optional. */
  datatype FileDialogOptions = FileDialogOptions(
    title: Option<string>,
    filters: Option<seq<FileFilter>>,
    defaultName: Option<string>)

  /** The answer of one pick: `data` when it succeeded, `error` when it failed with a message. */
  datatype FileDialogResult = FileDialogResult(
    success: bool,
    data: Option<FileInfo>,
    error: Option<string>)
}
