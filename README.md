# Api.auth in Dafny

A model of the decision logic of a small Express authentication service:
user registration and login over a user collection, the profile and
user-listing handlers, the bearer-token gate in front of `GET /me`, and the
naming and filtering callbacks of the avatar upload. The libraries the
service calls (Mongoose, bcrypt, jsonwebtoken, multer) are not modelled;
each handler is given what it needs from them:

- The user collection is a sequence of records `{id, name, email, password,
  avatar}`. `User.findOne({ email })` and `User.findById(id)` return the
  first match in store order. `User.create` appends a record and takes its
  id from a counter kept beside the collection.
- bcrypt and jsonwebtoken are four uninterpreted functions in `Crypto.Primitives`:
  `hash`, `compare`, `sign` and `verify`. `verify` returns `None` for every
  kind of bad token.
- A handler returns a `Response`: status, `success` flag, message and payload.
  A body field or header that is absent or `""` counts as missing, as in JavaScript.
- `register` changes the collection. It is the method `UserTable.Register`,
  and its new state is tied to the function `RegisterStep`. `login`,
  `profile` and `getAllUsers` only read the collection, so they are functions.
- `authMiddleware` assigns `req.user` and either writes a response or calls
  `next`. It is the method `Exchange.Authenticate` on a record of one request,
  tied to the function `Gate`. `req.user` has three states: never assigned,
  assigned `null`, or assigned a record without its password.
- The upload callbacks are functions. The time and the random value are
  parameters. `path.extname` follows Node's POSIX implementation.

Files: `wrappers.dfy` (Option), `accounts.dfy` (records and lookups),
`crypto.dfy` (hasher and token service), `http.dfy` (fields, responses,
`req.user`), `user_controller.dfy`, `auth_middleware.dfy`, `routes.dfy`
(the `/me` route), `upload.dfy`.

In these places the code departs from what an authentication service usually does, and the model follows the code:

- Missing registration fields give 401, not a validation error.
- `login` answers 409 "Not User Found." for an unknown email.
- A verified token whose id is not stored passes the gate with `req.user = null`.
  `profile` then answers 401.
- `GET /users` is not behind the gate.

## Model

| member | source | states |
|---|---|---|
| `Accounts.WithoutPassword` | src/middlewares/authMiddleware.js:15 | `select("-password")` keeps the id, name, email and avatar of the record |
| `Accounts.WithoutPasswordHidesHash` | src/middlewares/authMiddleware.js:15 | the projected record is the same whatever hash is stored |
| `Accounts.FindByEmail` | src/controllers/userController.js:19 | the result is a stored record with exactly that email; it is `None` exactly when no record has that email |
| `Accounts.FindById` | src/middlewares/authMiddleware.js:15 | the result is a stored record with that id; it is `None` exactly when no record has that id |
| `Accounts.FindByEmailFindsTheRecord` | src/controllers/userController.js:69 | when emails are unique, the lookup by email returns the one record carrying that email |
| `Accounts.FindByIdFindsTheRecord` | src/middlewares/authMiddleware.js:15 | when ids are unique, the lookup by id returns the one record carrying that id |
| `UserController.AvatarPath` | src/controllers/userController.js:33 | the avatar is the uploaded file's path, or `""` when no file was sent |
| `UserController.RegisterStep` | src/controllers/userController.js:8-46 | the `register` decision: status 201, 401 or 409, with `success` exactly on 201. The store is unchanged unless the status is 201; then one record is appended with the counter's id and `hash(password)`, and the counter moves on |
| `UserController.RegisterRequiresAllFields` | src/controllers/userController.js:12-17 | a missing or empty name, email or password gives 401 "All fields are required." and leaves the store unchanged |
| `UserController.RegisterRefusesTakenEmail` | src/controllers/userController.js:19-25 | an email already stored gives 409 "User already exists with this email." and leaves the store unchanged |
| `UserController.RegisterOutcomes` | src/controllers/userController.js:12-45 | status is 201 exactly when all fields are present and the email is unused. On failure the store is unchanged and there is no payload. On success exactly one record is appended and earlier records are untouched. The new record has the new id, the given name and email, `hash(password)` and the avatar path. The response carries `sign(id, "7d")` and that record |
| `UserController.RegisterPreservesInvariant` | src/controllers/userController.js:19-34 | one registration keeps emails unique, ids unique and ids below the counter |
| `UserController.RegisterAllPreservesInvariant` | src/controllers/userController.js:19-34 | any series of registrations keeps emails unique in the collection |
| `UserController.RegisterTwiceConflicts` | src/controllers/userController.js:19-25 | after one successful registration, a second with the same email gets 409, leaves the store unchanged, and exactly one record carries that email |
| `UserController.UserTable.Register` | src/controllers/userController.js:8-46 | the handler's response and new collection are those of `RegisterStep`, and the collection invariant is kept |
| `UserController.Login` | src/controllers/userController.js:59-92 | status is 200, 401 or 409. It is 409 "Not User Found." exactly when both fields are present and no record has the email. A token is issued exactly on 200, and only when `compare(password, stored hash)` holds for a stored record with that email. The token is `sign(id, "7d")` for that record. Failures carry no payload |
| `UserController.LoginRequiresBothFields` | src/controllers/userController.js:62-67 | a missing email or password gives 401 "All the fields are required." |
| `UserController.LoginChecksThePassword` | src/controllers/userController.js:77-92 | for a stored email with unique emails: a failed compare gives 401 "Invalid email or password" and no token; a passed compare gives 200 with `sign(user.id, "7d")` and the user's record |
| `UserController.RegisterThenLogin` | src/controllers/userController.js:77-85 | when `compare` accepts a password against its own hash, logging in right after a successful registration with the same credentials gives 200 and a token for the new id |
| `UserController.Profile` | src/controllers/userController.js:103-119 | status 200 exactly when `req.user` holds a record, and the response echoes exactly that record; otherwise 401 "User not found" |
| `UserController.GetAllUsers` | src/controllers/userController.js:130-144 | 401 "No Users Found." exactly when the collection is empty; otherwise 200 with every record in store order |
| `AuthMiddleware.Gate` | src/middlewares/authMiddleware.js:4-25 | every refusal is a 401 with `success: false` and no payload; proceeding always assigns `req.user` |
| `AuthMiddleware.GateRequiresHeader` | src/middlewares/authMiddleware.js:6-12 | a missing or empty `Authorization` header gives 401 "Access denied. No token provided" |
| `AuthMiddleware.GateFailsGenerically` | src/middlewares/authMiddleware.js:14-24 | with a header present, the gate proceeds exactly when the token verifies and the lookup does not throw. Every other case gives the one 401 "Invalid or expired token" |
| `AuthMiddleware.GateVerifiesRawHeader` | src/middlewares/authMiddleware.js:6-14 | the decision depends on the verifier only through its answer on the raw header value |
| `AuthMiddleware.GateKeepsBearerPrefix` | src/middlewares/authMiddleware.js:6-14 | a `Bearer <t>` header is verified as a whole, so it is refused when the verifier refuses that string |
| `AuthMiddleware.GateResolvesIdentity` | src/middlewares/authMiddleware.js:14-17 | a verified id that names a stored record attaches that record without its password; an id that names none attaches `null` and still proceeds |
| `AuthMiddleware.Exchange.Authenticate` | src/middlewares/authMiddleware.js:4-25 | on refusal it writes exactly one response and leaves `req.user` unchanged. Otherwise it assigns `req.user` and calls `next` exactly once, writing nothing. Every path does exactly one of the two |
| `Routes.Me` | src/routes/userRoutes.js:18 | `/me` answers 200 or 401. It is 200 exactly when the header is present, the token verifies, the lookup does not throw and the id is stored. Then the payload is that record without its password |
| `Routes.MeUnknownUser` | src/middlewares/authMiddleware.js:15-17 | a valid token for an id that is not stored passes the gate with `req.user = null`, and `/me` ends in 401 "User not found" |
| `Routes.RegisterThenMe` | src/controllers/userController.js:36-45 | when the verifier accepts what the signer produced, a successful registration's token opens `/me` for the new record, shown without its password |
| `Routes.ServeMe` | src/routes/userRoutes.js:18 | serving `/me` on one request writes exactly one response: the one `Me` gives |
| `Upload.FileFilter` | src/middlewares/upload.js:18-24 | accepts exactly when the MIME type starts with `image/`, with no error. Otherwise it rejects with the error "Only image files are allowed" |
| `Upload.Destination` | src/middlewares/upload.js:8-10 | the destination is `uploads` with no error, whatever the request and file |
| `Upload.Decimal` | src/middlewares/upload.js:12 | the decimal form of a number is a non-empty string of digits |
| `Upload.DecimalRoundTrip` | src/middlewares/upload.js:12 | reading the decimal form back gives the number |
| `Upload.RandomPart` | src/middlewares/upload.js:12 | `Math.round(u * 1E9)` for `0 <= u < 1` lies in [0, 10^9] |
| `Upload.ExtName` | src/middlewares/upload.js:13 | the extension is empty or starts with `.`. It holds no other `.` and no `/`. It is a proper suffix of the base name, and it is empty when the base name has no `.`. When the last `.` of the base name is not its first character and the base name is not `..`, the extension runs from that `.` to the end |
| `Upload.ExtNameExamples` | src/middlewares/upload.js:13 | `index.coffee.md` has extension `.md` and `.index` has none |
| `Upload.ExtNameOfParentDirectory` | src/middlewares/upload.js:13 | the base name `..` has no extension, while `...` has `.` |
| `Upload.UniqueSuffix` | src/middlewares/upload.js:12 | the suffix starts and ends with a digit and holds no `.` and no `/` |
| `Upload.Filename` | src/middlewares/upload.js:11-14 | the filename callback never reports an error |
| `Upload.FilenameKeepsExtension` | src/middlewares/upload.js:11-14 | the stored name has the same extension as the original name, so an original without one gives a name without one |
| `Upload.FilenameInjective` | src/middlewares/upload.js:12-13 | the stored name determines the time, the random value and the extension, so distinct `(time, random)` pairs give distinct names |

## Left out

- The `catch` blocks of `register`, `login`, `profile` and `getAllUsers` are not modelled. These are the 500 responses, their logging, the error serialisation and the `res.statu` typo. They run only when a library call fails, and those failures are not visible here.
- The gate's one library failure is modelled: a throwing user lookup is the flag `storeFault`.
- bcrypt's salting, work factor and constant-time comparison are not modelled. `hash` is a deterministic function, so two hashes of one password are not shown to differ.
- JWT signing, the secret and expiry checking against a clock are not modelled. `verify` is uninterpreted, and lemmas that need it to accept what `sign` produced say so in their `requires`.
- The Mongoose schema is not part of this model. It is unknown whether it has a unique index on `email` or hides `password`. The model keeps only the controller's check-then-create, and the `register`, `login` and `getAllUsers` responses carry the full stored records, hashes included; `GET /users` is not behind the gate.
- Body fields are strings or absent. Other JSON values, such as numbers or query-operator objects passed as `email`, are not modelled.
- JavaScript's loose `users == 0` is stated as "the array is empty". That is exactly when it holds for an array of documents.
- Concurrent registrations for one email race between the lookup and the create. The model is sequential, so that race is not modelled.
- `Date.now()` and `Math.random()` are parameters. `RandomPart` rounds on exact reals, not on IEEE doubles.
- `Decimal` gives plain digits. JavaScript switches to exponent notation at 10^21, far above any `Date.now()` value, and that case is not modelled.
- `path.extname` is the POSIX variant. The Windows variant is not modelled.
- multer itself is not modelled: multipart parsing, how it calls the filter, and how it joins the destination and filename into `req.file.path`. The register handler receives that path as given.
- `src/app.js`, `server.js` and the rest of `src/routes/userRoutes.js` are not modelled: Express wiring, CORS, body parsers, static serving, creating the uploads folder, loading the environment, connecting to the database and listening. Only the `/me` chain of gate then `profile` is modelled.
