/** Values shared by both controllers: optional values, the failures a handler
    hands to `next`, request body fields and uploaded files. */
module Common {

  datatype Option<T> = None | Some(value: T)

  /** How a handler fails.
      - Rejected: `next(new HttpError(message, status))`; `status` is None where the
        handler builds the error without a code (the error model's default applies).
      - IoFailure: an error object from a file move or unlink callback, passed on as is.
      - Internal: an exception raised inside the handler (a property read on a missing
        record or attachment) and caught by its catch-all block. */
  datatype Failure =
    | Rejected(message: string, status: Option<int>)
    | IoFailure
    | Internal

  datatype Result<T> = Ok(value: T) | Err(failure: Failure)

  /** A request body field: absent (undefined) or a string. */
  type Field = Option<string>

  /** JavaScript truthiness of a body field: present and not the empty string. */
  predicate Given(f: Field) {
    f.Some? && f.value != ""
  }

  /** An uploaded file as the upload middleware describes it: its original name and its size in bytes. */
  datatype Upload = Upload(name: string, size: nat)

  /** `req.files`: absent when the request carries no file, otherwise the uploads by form field name. */
  type Files = Option<map<string, Upload>>
}
