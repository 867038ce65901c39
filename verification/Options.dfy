/** The result types shared by the models. */
module Options {
  datatype Option<+T> = None | Some(value: T)

  /** Panic stands for the source's panic() and fatal(), which end the run. */
  datatype Result<+T> = Ok(value: T) | Panic
}
