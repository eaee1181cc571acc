/** The HTTP responses the core produces: a status code and a JSON body. */
module Http {
  /** The three JSON body shapes sent by the handlers: `{ token }`, `{ error }`, `{ message }`. */
  datatype Body = TokenBody(token: string) | ErrorBody(error: string) | MessageBody(message: string)

  datatype Response = Response(status: nat, body: Body)

  /** `res.json({ token })`: status 200 with the issued token. */
  function TokenResponse(token: string): (res: Response)
  {
    Response(200, TokenBody(token))
  }
}
