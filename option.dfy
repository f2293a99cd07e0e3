/** An optional value: the model's stand-in for JavaScript's `null`/`undefined`
    and for a collaborator call that can fail. */
module Optional {

  datatype Option<+T> = None | Some(value: T) {

    /** The wrapped value, or `default` when there is none. */
    function GetOr(default: T): T {
      match this
      case Some(v) => v
      case None => default
    }
  }
}
