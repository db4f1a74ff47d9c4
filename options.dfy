/** An optional value: a fetch that failed, a lookup that found nothing. */
module Options {

  datatype Option<+T> = None | Some(value: T)
}
