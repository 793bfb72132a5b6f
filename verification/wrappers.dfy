/** The "may be absent" result used wherever the C++ code returns a null
    handle or an empty `std::optional`. */
module Wrappers {

  datatype Option<T> = None | Some(value: T)

}
