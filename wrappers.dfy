/** Option and Result values, and the failures the index engine raises. */
module Wrappers {

  datatype Option<+T> = None | Some(value: T)

  /** The exceptions of `sqlite_index.py`, one constructor per failure. */
  datatype Error =
    | InvalidPosition   // `DocSet.encode`: a position of 255 or more (ValueError)
    | NoSeparator       // `DocSet.decode`: `bytes.index` finds no 0xFF (ValueError)
    | InvalidTitle      // `to_filename`: an empty title (ValueError)
    | ByteOverflow      // `Compressed.persist`: a word count above 255 in `array('B')` (OverflowError)
    | OutOfRange        // `Index.get_doc`: an offset past the end of the last page (IndexError)
    | EmptyIndex        // `Index.__len__`: the docs table has no row (TypeError on `None[1]`)

  datatype Result<+T> = Success(value: T) | Failure(error: Error)
}
