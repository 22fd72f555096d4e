/** The token gate in front of protected routes: read the raw
    `Authorization` header, verify it as a token, resolve the user it names
    and hand over to the next handler, or answer 401. */
module AuthMiddleware {

  import opened Wrappers
  import opened Accounts
  import opened Crypto
  import opened Http

  const NoTokenMessage: string := "Access denied. No token provided"
  const InvalidTokenMessage: string := "Invalid or expired token"

  /** What the gate decides: answer with a response, or assign `req.user`
      and call `next`. */
  datatype GateResult = Reject(response: Response) | Proceed(user: ReqUser)

  /** The gate's decision for a header value. `storeFault` stands for
      `User.findById` throwing, which the catch block cannot tell apart from
      a failed verification. */
  function Gate(header: Field, users: seq<User>, c: Primitives, storeFault: bool): (g: GateResult)
    ensures g.Reject? ==> g.response.status == 401 && !g.response.success && g.response.payload == NoPayload
    ensures g.Proceed? ==> g.user != Unset
  {
    if !Present(header) then
      Reject(Failure(401, NoTokenMessage))
    else match c.verify(header.value)
      case None => Reject(Failure(401, InvalidTokenMessage))
      case Some(id) =>
        if storeFault then Reject(Failure(401, InvalidTokenMessage))
        else match FindById(users, id)
          case None => Proceed(Null)
          case Some(u) => Proceed(Attached(WithoutPassword(u)))
  }

  /** A missing or empty header is refused before any verification. */
  lemma GateRequiresHeader(header: Field, users: seq<User>, c: Primitives, storeFault: bool)
    requires !Present(header)
    ensures Gate(header, users, c, storeFault) == Reject(Failure(401, NoTokenMessage))
  {
  }

  /** Once a header is present, every failure, whether of verification or of
      the lookup, yields the one generic 401; and the gate proceeds exactly
      when the token verifies and the lookup does not fail. */
  lemma GateFailsGenerically(token: string, users: seq<User>, c: Primitives, storeFault: bool)
    requires token != ""
    ensures var g := Gate(Some(token), users, c, storeFault);
      && (g.Proceed? <==> c.verify(token).Some? && !storeFault)
      && (g.Reject? ==> g.response == Failure(401, InvalidTokenMessage))
  {
  }

  /** The header is verified exactly as sent: two verifiers that agree on
      the raw header value make the same decision. */
  lemma GateVerifiesRawHeader(token: string, users: seq<User>, c1: Primitives, c2: Primitives, storeFault: bool)
    requires c1.verify(token) == c2.verify(token)
    ensures Gate(Some(token), users, c1, storeFault) == Gate(Some(token), users, c2, storeFault)
  {
  }

  /** No `Bearer ` scheme is stripped: a header `Bearer <t>` fails when the
      verifier refuses that whole string, even if it would accept `t`. */
  lemma GateKeepsBearerPrefix(t: Token, users: seq<User>, c: Primitives, storeFault: bool)
    requires c.verify("Bearer " + t) == None
    ensures Gate(Some("Bearer " + t), users, c, storeFault) == Reject(Failure(401, InvalidTokenMessage))
  {
  }

  /** A verified token whose id names a stored record (ids being unique)
      attaches that record without its password; one whose id names no record
      attaches `null` and still proceeds. */
  lemma GateResolvesIdentity(token: string, users: seq<User>, c: Primitives, id: Id)
    requires token != "" && c.verify(token) == Some(id) && IdsUnique(users)
    ensures forall u :: u in users && u.id == id ==>
      Gate(Some(token), users, c, false) == Proceed(Attached(WithoutPassword(u)))
    ensures (forall u :: u in users ==> u.id != id) ==>
      Gate(Some(token), users, c, false) == Proceed(Null)
  {
  }

  /** One request passing through the gate: the raw header, the request's
      `user` slot, the responses written so far and the number of times
      `next` has been called. */
  class Exchange {
    const authorization: Field
    var user: ReqUser
    var sent: seq<Response>
    var nextCalls: nat

    constructor (authorization: Field)
      ensures this.authorization == authorization
      ensures user == Unset && sent == [] && nextCalls == 0
    {
      this.authorization := authorization;
      user := Unset;
      sent := [];
      nextCalls := 0;
    }

    /** `authMiddleware`: on a refusal it writes exactly one response and
        leaves `req.user` alone; otherwise it assigns `req.user` and calls
        `next` exactly once, writing nothing. */
    method Authenticate(users: seq<User>, c: Primitives, storeFault: bool)
      modifies this
      ensures match Gate(authorization, users, c, storeFault)
        case Reject(resp) =>
          sent == old(sent) + [resp] && nextCalls == old(nextCalls) && user == old(user)
        case Proceed(u) =>
          sent == old(sent) && nextCalls == old(nextCalls) + 1 && user == u
      ensures (|sent| == |old(sent)| + 1 && nextCalls == old(nextCalls))
           != (sent == old(sent) && nextCalls == old(nextCalls) + 1)
    {
      var token := authorization;
      if !Present(token) {
        sent := sent + [Failure(401, NoTokenMessage)];
        return;
      }
      var decoded := c.verify(token.value);
      if decoded.None? {
        sent := sent + [Failure(401, InvalidTokenMessage)];
        return;
      }
      if storeFault {
        sent := sent + [Failure(401, InvalidTokenMessage)];
        return;
      }
      var found := FindById(users, decoded.value);
      user := if found.Some? then Attached(WithoutPassword(found.value)) else Null;
      nextCalls := nextCalls + 1;
    }
  }
}
