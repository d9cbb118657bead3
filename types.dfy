/** Records shared by the traversal and the summariser (src/types.ts). */
module Types {

  /** A value that may be absent: a file that could not be read, an optional argument. */
  datatype Option<+T> = None | Some(value: T)

  /** One octet of a file's raw contents, as Node's `Buffer` indexes it. */
  newtype Byte = x: int | 0 <= x < 256

  /** `FileEntry` of src/types.ts: a file found by the traversal. `content` is the
      optional `content?: string` member. */
  datatype FileEntry = FileEntry(path: string, hasContent: bool, content: Option<string>)

  /** What `summarize` and `generateStructureOnly` hand back (`Summary` of src/types.ts). */
  datatype Summary = Summary(projectName: string, files: seq<FileEntry>, markdown: string)
}
