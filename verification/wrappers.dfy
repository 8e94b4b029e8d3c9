/** The optional value the CLI expresses with `null` (a search that found nothing). */
module Wrappers {

  datatype Option<+T> = None | Some(value: T)

}
