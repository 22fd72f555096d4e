/** The `/me` route: the token gate followed by the `profile` handler, and
    how a registration's token leads through it. */
module Routes {

  import opened Wrappers
  import opened Accounts
  import opened Crypto
  import opened Http
  import opened UserController
  import opened AuthMiddleware

  /** `GET /me`: the gate's refusal, or `profile` applied to the `req.user`
      the gate assigned. */
  function Me(header: Field, users: seq<User>, c: Primitives, storeFault: bool): (r: Response)
    ensures r.status == 200 || r.status == 401
    ensures r.status == 200 <==>
      && Present(header)
      && c.verify(header.value).Some?
      && !storeFault
      && FindById(users, c.verify(header.value).value).Some?
    ensures r.status == 200 ==>
      r.payload == CurrentUser(WithoutPassword(FindById(users, c.verify(header.value).value).value))
  {
    match Gate(header, users, c, storeFault)
    case Reject(resp) => resp
    case Proceed(u) => Profile(u)
  }

  /** A verified token for an id no longer stored gets through the gate
      with `req.user` set to `null`, and `profile` then answers 401. */
  lemma MeUnknownUser(token: string, users: seq<User>, c: Primitives, id: Id)
    requires token != "" && c.verify(token) == Some(id)
    requires forall u :: u in users ==> u.id != id
    ensures Gate(Some(token), users, c, false) == Proceed(Null)
    ensures Me(Some(token), users, c, false) == Failure(401, "User not found")
  {
  }

  /** The token a successful registration returns opens `/me` for the new
      record, shown without its password, provided the verifier accepts what
      the signer produced. */
  lemma RegisterThenMe(s: Store, body: RegisterBody, file: Option<UploadedFile>, c: Primitives)
    requires StoreInvariant(s)
    requires RegisterStep(s, body, file, c).0.status == 201
    requires c.sign(s.nextId, Expiry) != ""
    requires c.verify(c.sign(s.nextId, Expiry)) == Some(s.nextId)
    ensures var (resp, s') := RegisterStep(s, body, file, c);
      Me(Some(resp.payload.token), s'.users, c, false)
        == Response(200, true, "Profile fetched successfully", CurrentUser(WithoutPassword(resp.payload.user)))
  {
  }

  /** Serving `/me` on one request: the gate runs, and `profile` runs only
      when the gate called `next`. Exactly one response is written, the one
      `Me` gives. */
  method ServeMe(x: Exchange, users: seq<User>, c: Primitives, storeFault: bool)
    requires x.sent == [] && x.nextCalls == 0
    modifies x
    ensures x.sent == [Me(x.authorization, users, c, storeFault)]
  {
    x.Authenticate(users, c, storeFault);
    if x.nextCalls == 1 {
      x.sent := x.sent + [Profile(x.user)];
    }
  }
}
