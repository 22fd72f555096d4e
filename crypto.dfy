/** The password hasher (bcrypt) and the token service (jsonwebtoken) seen
    from the code that calls them. Their algorithms are not modelled: each
    handler receives them as uninterpreted functions. */
module Crypto {

  import opened Wrappers
  import opened Accounts

  /** A signed JSON Web Token, as the opaque string the client carries. */
  type Token = string

  /** The `expiresIn` option passed to every `jwt.sign` call. */
  const Expiry: string := "7d"

  /** `hash(p)` stands for `bcrypt.hash(p, 10)`, `compare(p, h)` for
      `bcrypt.compare(p, h)`, `sign(id, e)` for `jwt.sign({ _id: id }, secret,
      { expiresIn: e })`, and `verify(t)` for `jwt.verify(t, secret)`: `None`
      when the token is expired, malformed or badly signed, otherwise the
      `_id` claim it carries. */
  datatype Primitives = Primitives(
    hash: string -> string,
    compare: (string, string) -> bool,
    sign: (Id, string) -> Token,
    verify: Token -> Option<Id>)
}
