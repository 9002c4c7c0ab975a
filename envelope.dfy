/** The result envelope every extractor resolves with, and the transport
    outcome each one starts from. An HTTP exchange either delivers a body
    (already reduced to the selector results or JSON fields the extractor
    reads) or throws. */
module Envelope {

  /** `global.creator`, exactly as the source file spells it (an en dash
      that went through a Windows-1252 round trip) */
  const Creator: string := "@abotscraper \U{00E2}\U{20AC}\U{201C} ahmuq"

  /** A value thrown inside an extractor: an `Error` with its message, or
      anything else */
  datatype Thrown = ErrorObject(message: string) | OtherValue

  /** `error instanceof Error ? error.message : 'Unknown error'` */
  function Message(e: Thrown): (m: string)
    ensures e.ErrorObject? ==> m == e.message
    ensures e.OtherValue? ==> m == "Unknown error"
  {
    match e
    case ErrorObject(msg) => msg
    case OtherValue => "Unknown error"
  }

  /** What an awaited request produced */
  datatype Fetched<T> = Received(body: T) | Threw(error: Thrown)

  /** `{ creator, status: 200, result }` or `{ creator, status: false, msg }` */
  datatype Response<T> = Ok(creator: string, result: T) | Fail(creator: string, msg: string)

  /** The catch block shared by the `async` extractors */
  function Caught<T>(e: Thrown): (r: Response<T>)
    ensures r.Fail? && r.creator == Creator && r.msg == Message(e)
  {
    Fail(Creator, Message(e))
  }
}
