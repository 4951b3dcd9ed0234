/** The optional value used for parse results and for a call that may not be made. */
module Maybe {

  datatype Option<T> = None | Some(value: T)

}
