/** A value that may be absent: used for decoders that can fail and for
    steps that may or may not emit a frame. */
module Optional {

  datatype Option<+T> = None | Some(value: T)

}
