/** A possibly-missing value. `None` plays the role of pandas' NaN: a value
    that exists in the series but carries no number. */
module Options {

  datatype Option<+T> = None | Some(value: T)
}
