/** The account handlers: `register`, `login`, `profile` and `getAllUsers`.
    `register` changes the user collection and is a method of `UserTable`,
    proved against the function `RegisterStep`; the other three only read the
    collection and are functions of it. */
module UserController {

  import opened Wrappers
  import opened Accounts
  import opened Crypto
  import opened Http

  /** `req.body` of a registration. */
  datatype RegisterBody = RegisterBody(name: Field, email: Field, password: Field)

  /** `req.body` of a login. */
  datatype LoginBody = LoginBody(email: Field, password: Field)

  /** `req.file` as the upload middleware leaves it: the stored file's path. */
  datatype UploadedFile = UploadedFile(path: string)

  /** The collection and the counter the next created record takes its id from. */
  datatype Store = Store(users: seq<User>, nextId: Id)

  /** What the collection keeps across registrations. */
  predicate StoreInvariant(s: Store)
  {
    EmailsUnique(s.users) && IdsUnique(s.users) && IdsBelow(s.users, s.nextId)
  }

  /** `req.file?.path || ""`. */
  function AvatarPath(file: Option<UploadedFile>): (p: string)
    ensures file.None? ==> p == ""
    ensures file.Some? ==> p == file.value.path
  {
    if file.Some? && file.value.path != "" then file.value.path else ""
  }

  predicate RegisterFieldsPresent(body: RegisterBody)
  {
    Present(body.name) && Present(body.email) && Present(body.password)
  }

  /** The response `register` writes and the collection it leaves behind. */
  function RegisterStep(s: Store, body: RegisterBody, file: Option<UploadedFile>, c: Primitives): (r: (Response, Store))
    ensures r.0.status == 201 || r.0.status == 401 || r.0.status == 409
    ensures r.0.success <==> r.0.status == 201
    ensures r.0.status != 201 ==> r.1 == s
    ensures r.0.status == 201 ==>
      && |r.1.users| == |s.users| + 1 && r.1.nextId == s.nextId + 1
      && r.1.users[|s.users|].id == s.nextId
      && body.password.Some? && r.1.users[|s.users|].password == c.hash(body.password.value)
  {
    if !RegisterFieldsPresent(body) then
      (Failure(401, "All fields are required."), s)
    else if FindByEmail(s.users, body.email.value).Some? then
      (Failure(409, "User already exists with this email."), s)
    else
      var user := User(s.nextId, body.name.value, body.email.value, c.hash(body.password.value), AvatarPath(file));
      (Response(201, true, "User registered successfully.", Session(c.sign(user.id, Expiry), user)),
       Store(s.users + [user], s.nextId + 1))
  }

  /** A missing or empty field is refused with 401 before the collection is
      consulted, and nothing is stored. */
  lemma RegisterRequiresAllFields(s: Store, body: RegisterBody, file: Option<UploadedFile>, c: Primitives)
    requires !RegisterFieldsPresent(body)
    ensures RegisterStep(s, body, file, c) == (Failure(401, "All fields are required."), s)
  {
  }

  /** An email already stored is refused with 409 and nothing is stored. */
  lemma RegisterRefusesTakenEmail(s: Store, body: RegisterBody, file: Option<UploadedFile>, c: Primitives, u: User)
    requires RegisterFieldsPresent(body) && u in s.users && u.email == body.email.value
    ensures RegisterStep(s, body, file, c) == (Failure(409, "User already exists with this email."), s)
  {
  }

  /** A registration either changes nothing and fails, or succeeds with 201
      and appends exactly one record: the new id, the given name and email,
      the hash of the password (never the password itself unless the hasher
      returns its input) and the uploaded path or `""`. Every earlier record
      stays where it was. The response carries a token signed for the new id
      and the stored record. */
  lemma RegisterOutcomes(s: Store, body: RegisterBody, file: Option<UploadedFile>, c: Primitives)
    ensures var (resp, s') := RegisterStep(s, body, file, c);
      && (resp.status == 201 <==> RegisterFieldsPresent(body) && forall u :: u in s.users ==> u.email != body.email.value)
      && (resp.status != 201 ==> s' == s && !resp.success && resp.payload == NoPayload && (resp.status == 401 || resp.status == 409))
      && (resp.status == 201 ==>
            && resp.success
            && |s'.users| == |s.users| + 1
            && s'.users[..|s.users|] == s.users
            && s'.nextId == s.nextId + 1
            && var user := s'.users[|s.users|];
            && user == User(s.nextId, body.name.value, body.email.value, c.hash(body.password.value), AvatarPath(file))
            && resp.payload == Session(c.sign(user.id, Expiry), user))
  {
  }

  /** Registration keeps emails unique, ids unique and below the counter. */
  lemma RegisterPreservesInvariant(s: Store, body: RegisterBody, file: Option<UploadedFile>, c: Primitives)
    requires StoreInvariant(s)
    ensures StoreInvariant(RegisterStep(s, body, file, c).1)
  {
  }

  /** A registration request: the body and the optional uploaded file. */
  datatype Registration = Registration(body: RegisterBody, file: Option<UploadedFile>)

  /** The collection after serving a series of registrations one after another. */
  function RegisterAll(s: Store, rs: seq<Registration>, c: Primitives): Store
    decreases |rs|
  {
    if rs == [] then s
    else RegisterAll(RegisterStep(s, rs[0].body, rs[0].file, c).1, rs[1..], c)
  }

  /** However many registrations are served, no two records share an email
      (nor an id). */
  lemma {:induction false} RegisterAllPreservesInvariant(s: Store, rs: seq<Registration>, c: Primitives)
    requires StoreInvariant(s)
    ensures StoreInvariant(RegisterAll(s, rs, c))
    ensures EmailsUnique(RegisterAll(s, rs, c).users)
    decreases |rs|
  {
    if rs != [] {
      RegisterPreservesInvariant(s, rs[0].body, rs[0].file, c);
      RegisterAllPreservesInvariant(RegisterStep(s, rs[0].body, rs[0].file, c).1, rs[1..], c);
    }
  }

  /** Registering the same email twice: the second request is refused with
      409, whatever its other fields, and the collection holds exactly one
      record with that email. */
  lemma RegisterTwiceConflicts(s: Store, first: Registration, second: Registration, c: Primitives)
    requires StoreInvariant(s)
    requires RegisterStep(s, first.body, first.file, c).0.status == 201
    requires RegisterFieldsPresent(second.body) && second.body.email == first.body.email
    ensures var s1 := RegisterStep(s, first.body, first.file, c).1;
      var (resp, s2) := RegisterStep(s1, second.body, second.file, c);
      && resp == Failure(409, "User already exists with this email.")
      && s2 == s1
      && |set u | u in s2.users && u.email == first.body.email.value| == 1
  {
    var s1 := RegisterStep(s, first.body, first.file, c).1;
    var user := s1.users[|s.users|];
    assert user in s1.users;
    RegisterPreservesInvariant(s, first.body, first.file, c);
    var e := first.body.email.value;
    assert (set u | u in s1.users && u.email == e) == {user} by {
      forall u | u in s1.users && u.email == e ensures u == user {
        var k :| 0 <= k < |s1.users| && s1.users[k] == u;
        assert k == |s.users|;
      }
    }
  }

  /** The `login` handler. */
  function Login(users: seq<User>, body: LoginBody, c: Primitives): (r: Response)
    ensures r.status == 200 || r.status == 401 || r.status == 409
    ensures r.status == 409 <==> Present(body.email) && Present(body.password) && forall u :: u in users ==> u.email != body.email.value
    ensures r.status == 409 ==> r == Failure(409, "Not User Found.")
    ensures r.success <==> r.payload.Session?
    ensures r.status == 200 <==> r.payload.Session?
    ensures r.payload.Session? ==>
      && r.payload.user in users
      && body.email == Some(r.payload.user.email)
      && body.password.Some? && c.compare(body.password.value, r.payload.user.password)
      && r.payload.token == c.sign(r.payload.user.id, Expiry)
    ensures !r.payload.Session? ==> r.payload == NoPayload
  {
    if !Present(body.email) || !Present(body.password) then
      Failure(401, "All the fields are required.")
    else match FindByEmail(users, body.email.value)
      case None => Failure(409, "Not User Found.")
      case Some(user) =>
        if !c.compare(body.password.value, user.password) then
          Failure(401, "Invalid email or password")
        else
          Response(200, true, "User loggedin successfully.", Session(c.sign(user.id, Expiry), user))
  }

  /** Login with a stored email (emails being unique): a failed password
      check gives the generic 401 and no token; a passed one gives 200, a token
      signed for that user's id, and that user's record. */
  lemma LoginChecksThePassword(users: seq<User>, u: User, password: string, c: Primitives)
    requires EmailsUnique(users) && u in users && u.email != "" && password != ""
    ensures var r := Login(users, LoginBody(Some(u.email), Some(password)), c);
      if c.compare(password, u.password) then
        r == Response(200, true, "User loggedin successfully.", Session(c.sign(u.id, Expiry), u))
      else
        r == Failure(401, "Invalid email or password")
  {
  }

  /** Missing `email` or `password` is refused with 401 without a lookup. */
  lemma LoginRequiresBothFields(users: seq<User>, body: LoginBody, c: Primitives)
    requires !Present(body.email) || !Present(body.password)
    ensures Login(users, body, c) == Failure(401, "All the fields are required.")
  {
  }

  /** After a successful registration, logging in with the same email and
      password succeeds for the new record, provided the hasher's check
      accepts the password against its own hash. */
  lemma RegisterThenLogin(s: Store, body: RegisterBody, file: Option<UploadedFile>, c: Primitives)
    requires StoreInvariant(s)
    requires RegisterStep(s, body, file, c).0.status == 201
    requires c.compare(body.password.value, c.hash(body.password.value))
    ensures var (resp, s') := RegisterStep(s, body, file, c);
      var r := Login(s'.users, LoginBody(body.email, body.password), c);
      && r.status == 200
      && r.payload == Session(c.sign(s.nextId, Expiry), resp.payload.user)
  {
  }

  /** The `profile` handler: it echoes `req.user` when it is set to a record. */
  function Profile(user: ReqUser): (r: Response)
    ensures r.status == 200 <==> user.Attached?
    ensures r.status != 200 ==> r == Failure(401, "User not found")
    ensures user.Attached? ==> r.success && r.payload == CurrentUser(user.user)
  {
    match user
    case Attached(u) => Response(200, true, "Profile fetched successfully", CurrentUser(u))
    case _ => Failure(401, "User not found")
  }

  /** The `getAllUsers` handler. `users == 0` in the source is JavaScript's
      loose equality: it turns the array into the string of its elements,
      which is empty, and so equal to 0, exactly when the array is. */
  function GetAllUsers(users: seq<User>): (r: Response)
    ensures r.status == 200 || r.status == 401
    ensures r.status == 401 <==> users == []
    ensures r.status == 401 ==> r == Failure(401, "No Users Found.")
    ensures r.status == 200 ==> r.success && r.payload == UserList(users)
  {
    if |users| == 0 then Failure(401, "No Users Found.")
    else Response(200, true, "Fetched all users successfully.", UserList(users))
  }

  /** The user collection as the handlers see it through the `User` model. */
  class UserTable {
    var users: seq<User>
    var nextId: Id

    function State(): Store
      reads this
    {
      Store(users, nextId)
    }

    constructor ()
      ensures State() == Store([], 0) && StoreInvariant(State())
    {
      users := [];
      nextId := 0;
    }

    /** The `register` handler: check the fields, look the email up, hash the
        password, create the record, sign a token, answer. */
    method Register(body: RegisterBody, file: Option<UploadedFile>, c: Primitives) returns (resp: Response)
      modifies this
      ensures (resp, State()) == RegisterStep(old(State()), body, file, c)
      ensures old(StoreInvariant(State())) ==> StoreInvariant(State())
    {
      ghost var s := State();
      if !Present(body.name) || !Present(body.email) || !Present(body.password) {
        return Failure(401, "All fields are required.");
      }
      var userAlreadyExist := FindByEmail(users, body.email.value);
      if userAlreadyExist.Some? {
        return Failure(409, "User already exists with this email.");
      }
      var hashedPassword := c.hash(body.password.value);
      var user := User(nextId, body.name.value, body.email.value, hashedPassword, AvatarPath(file));
      users := users + [user];
      nextId := nextId + 1;
      var token := c.sign(user.id, Expiry);
      resp := Response(201, true, "User registered successfully.", Session(token, user));
      if StoreInvariant(s) {
        RegisterPreservesInvariant(s, body, file, c);
      }
    }
  }
}
