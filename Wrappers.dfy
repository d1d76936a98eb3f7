/** The nullable values of the editor's state (`string | null`, `string[][] | null`). */
module Wrappers {
  datatype Option<+T> = None | Some(value: T)
}
