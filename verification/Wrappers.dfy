/** The optional value used throughout the models: `None` where the program
    returns a null pointer or stops on a failed assertion. */
module Wrappers {

  datatype Option<+T> = None | Some(value: T)
}
