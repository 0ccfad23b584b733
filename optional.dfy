/** The optional value used for TypeScript's `field?: T` and for JavaScript's NaN results. */
module Optional {

  datatype Option<+T> = None | Some(value: T)
}
