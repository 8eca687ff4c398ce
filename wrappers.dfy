/** An optional value: None stands for a lookup that fails, such as `uniforms.at` throwing `std::out_of_range`. */
module Wrappers {

  datatype Option<+T> = None | Some(value: T)
}
