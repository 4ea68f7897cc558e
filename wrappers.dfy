/** The optional value used for the widgets' nullable state fields (`null` in the components). */
module Wrappers {

  datatype Option<+T> = None | Some(value: T)
}
