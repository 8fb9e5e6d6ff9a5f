/** The usual optional-value wrapper, used for the parsers that invert the renderers. */
module Optional {
  datatype Option<T> = None | Some(value: T)
}
