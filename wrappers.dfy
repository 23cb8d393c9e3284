/** The "absent" results of the table: the C code returns NULL where this model returns None. */
module Wrappers {

  datatype Option<+T> = None | Some(value: T)

}
