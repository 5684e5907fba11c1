/** The one wrapper every server model uses: the C code's NULL and -1 results. */
module Options {
  datatype Option<+T> = None | Some(value: T)

  /** A byte of a page or of a disk block. */
  newtype byte = x: int | 0 <= x < 256

  type Bytes = seq<byte>
}
