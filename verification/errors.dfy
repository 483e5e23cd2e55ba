/** The exceptions the analyzer can raise to its caller. */
module Errors {

  datatype Error =
      /** A response with a status other than 200 or 429: `API Error: <status>, <body>`. */
    | ApiError(status: int, body: string)
      /** A 200 response whose body has no `choices[0].message.content` to return. */
    | MalformedSuccess
      /** Neither the whole reply nor its brace span parsed; the message ends with the reply. */
    | Unparseable(message: string)
}
