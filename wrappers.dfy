/** The absent-or-present value that the service returns where the Java code
    returns `Optional` and that stands for a nullable field of a filter template. */
module Wrappers {

  datatype Option<+T> = None | Some(value: T)
}
