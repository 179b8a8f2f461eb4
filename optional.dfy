/** The optional value used for a result that may be absent: a failed decode,
    or a run of the converter that stops without output. */
module Optional {

  datatype Option<+T> = None | Some(value: T)
}
