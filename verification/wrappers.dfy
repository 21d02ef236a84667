/** Optional values: a request-body field that may be absent, an environment
    variable that may be unset, a mail that may not have been handed to the
    transport, a field that may have no error text. */
module Wrappers {

  datatype Option<+T> = None | Some(value: T)
}
