/** The optional value used throughout the model: PHP's `false` return
    ("no reading", "no match") is `None`. */
module Options {

  datatype Option<+T> = None | Some(value: T)
}
