/** Outcome of an event handler: the next view, or the fault that stops the
    program (a Swift array index out of range traps). */
module Results {

  datatype Result<+T, +E> = Ok(value: T) | Err(error: E)

}
