/** Values shared by every route: optional values and the HTTP answer of a handler. */
module Common {

  datatype Option<+T> = None | Some(value: T) {
    function GetOr(default: T): T {
      match this
      case Some(v) => v
      case None => default
    }
  }

  /**
   * The JSON body of an answer: a fixed message, the validator's list of issues, a validator's
   * error under its first message, or table rows.
   */
  datatype Body = Message(text: string) | Issues | Invalid(reason: string) | Rows

  /** What a handler answers: an HTTP status and its body. */
  datatype Response = Response(status: nat, body: Body)

  const InternalError := Response(500, Message("Internal Server Error"))
  const ValidationFailed := Response(422, Issues)
}
