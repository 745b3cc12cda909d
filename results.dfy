/** Outcomes shared by the model: an optional value, and the result of a parse
    that either succeeds or meets text it cannot read. */
module Results {

  datatype Option<+T> = None | Some(value: T)

  /** `Malformed` stands for the exception the parsers raise on text that does
      not follow their grammar (`AttributeError` on a short line that does not
      match, `KeyError: 'uuid'` on a long block, `TypeError` on a host-info line). */
  datatype Result<+T> = Ok(value: T) | Malformed
}
