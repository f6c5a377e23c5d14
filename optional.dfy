/** The optional values of the TypeScript source (`mood?`, `weather?`, `notes?`,
    a possibly `undefined` array element). */
module Optional {
  datatype Option<T> = None | Some(value: T)
}
