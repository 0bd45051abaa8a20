/** The optional value used where app.js gets `undefined` back (Array.prototype.find,
    an empty file list). */
module Wrappers {

  datatype Option<+T> = None | Some(value: T)
}
