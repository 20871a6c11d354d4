/** Option, used wherever the C++ code reports "no position" as std::string::npos. */
module Wrappers {
  datatype Option<+T> = None | Some(value: T)
}
