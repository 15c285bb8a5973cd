/** The optional value the model uses for Java's nullable results and for
    operations that may throw NumberFormatException. */
module Options {

  datatype Option<+T> = None | Some(value: T)
}
