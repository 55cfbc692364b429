/** Ruby's `nil` results (`Array#first`, `Array#index`, a regexp that does not match). */
module Optional {

  datatype Option<+T> = None | Some(value: T)
}
