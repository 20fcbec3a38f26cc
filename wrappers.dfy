/** Missing values. A cell of the table either holds a value or is missing (NaN in the data library). */
module Wrappers {

  datatype Option<+T> = None | Some(value: T)

}
