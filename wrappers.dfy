/** std::optional, as the source uses it for absent payloads and absent results. */
module Wrappers {

  datatype Option<+T> = None | Some(value: T)
}
