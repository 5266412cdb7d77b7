/** The optional value the game passes around: `None` stands for Python's `None`. */
module Optional {

  datatype Option<+T> = None | Some(value: T)
}
