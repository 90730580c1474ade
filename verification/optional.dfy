/** Java's Optional<T> and nullable references, as one explicit datatype:
    the absent case is a constructor, never a null. */
module Optional {

  datatype Option<+T> = None | Some(value: T)

}
