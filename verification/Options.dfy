/** The usual optional value; `None` stands for Java's `null`. */
module Options {
  datatype Option<+T> = None | Some(value: T) {

    /** The value, or `other` if there is none. */
    function OrElse(other: Option<T>): (r: Option<T>)
    {
      if Some? then this else other
    }
  }
}
