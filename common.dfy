/** Values shared by every part of the model: optional values, results, and
    the Python exception kinds that the ingestion code tells apart. */
module Common {

  datatype Option<+T> = None | Some(value: T)

  datatype Result<+T, +E> = Ok(value: T) | Err(error: E)

  /** The exception classes that matter to `get_data`: `IndexError` is caught
      and turned into a normal return, every other kind is re-raised.
      `KeyError` is what a missing field of a raw commit raises, `ValueError`
      what `strptime`, `min` on an empty list and the window check raise;
      `OtherError` stands for any failure of the HTTP transport or the JSON
      decoding (named by its class). */
  datatype Error = IndexError | KeyError | ValueError | OtherError(kind: string)
}
