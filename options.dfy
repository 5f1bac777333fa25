/** The optional value returned by the external trie builder and by the
    parsing helpers. */
module Options {
  datatype Option<T> = None | Some(value: T)
}
