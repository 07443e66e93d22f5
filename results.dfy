/** Option and Result values standing in for JavaScript's `undefined` and
    for the error-first callbacks of the build script. */
module Results {

  datatype Option<+T> = None | Some(value: T)

  /** An error reported by one of the collaborators (file read, LESS,
      PostCSS). Its text is only ever logged, so it stays opaque. */
  datatype Error = Error(detail: string)

  datatype Result<+T> = Ok(value: T) | Err(error: Error)
}
