/** The optional value that `Path::to_str` returns: `None` when the path has no
    UTF-8 text form. */
module Wrappers {

  datatype Option<+T> = None | Some(value: T) {

    /** Applies `f` to the wrapped value, keeping `None` as it is (`Option::map`). */
    function Map<U>(f: T -> U): Option<U>
    {
      match this
      case None => None
      case Some(v) => Some(f(v))
    }
  }
}
