/** What the handlers read from a request and write to a response. */
module Http {

  import opened Wrappers
  import opened Accounts
  import opened Crypto

  /** A body field or header: absent (`undefined`) or a string. */
  type Field = Option<string>

  /** JavaScript truthiness of a string field: absent and `""` are falsy. */
  predicate Present(f: Field)
  {
    f.Some? && f.value != ""
  }

  /** The data in a JSON response beside `success` and `message`. */
  datatype Payload =
    | NoPayload
    | Session(token: Token, user: User)
    | CurrentUser(profile: PublicUser)
    | UserList(users: seq<User>)

  /** `res.status(status).json({ success, message, ... })`. */
  datatype Response = Response(status: nat, success: bool, message: string, payload: Payload)

  /** A failure response: `success: false` and a message, nothing else. */
  function Failure(status: nat, message: string): Response
  {
    Response(status, false, message, NoPayload)
  }

  /** `req.user`: never assigned, assigned `null`, or assigned a record. */
  datatype ReqUser = Unset | Null | Attached(user: PublicUser)
}
