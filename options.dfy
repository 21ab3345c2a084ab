/** The usual optional-value wrapper: `None` stands for the source's "nothing here"
    (a missing file, a token that is not a number, a label line that is skipped). */
module Options {

  datatype Option<+T> = None | Some(value: T)
}
