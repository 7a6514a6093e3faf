/** Optional values, used where the library either throws (`std::deque::at`
    out of range) or has nothing to return. */
module Wrappers {

  datatype Option<+T> = None | Some(value: T)

}
