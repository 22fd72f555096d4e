/** The user collection: the records the controller stores through the
    `User` model, and the two lookups it performs on them
    (`User.findOne({ email })` and `User.findById(id)`). */
module Accounts {

  import opened Wrappers

  /** A record's identity key. The database assigns it at creation; the model
      draws it from a counter kept beside the collection. */
  type Id = nat

  /** One stored user. `password` holds whatever the hasher returned. */
  datatype User = User(id: Id, name: string, email: string, password: string, avatar: string)

  /** A user as `select("-password")` projects it: every field but the hash. */
  datatype PublicUser = PublicUser(id: Id, name: string, email: string, avatar: string)

  function WithoutPassword(u: User): (p: PublicUser)
    ensures p.id == u.id && p.name == u.name && p.email == u.email && p.avatar == u.avatar
  {
    PublicUser(u.id, u.name, u.email, u.avatar)
  }

  /** The projection does not depend on the stored hash. */
  lemma WithoutPasswordHidesHash(u: User, hash: string)
    ensures WithoutPassword(u.(password := hash)) == WithoutPassword(u)
  {
  }

  /** `User.findOne({ email })`: the first record, in store order, whose
      email is exactly `email`. */
  function FindByEmail(users: seq<User>, email: string): (r: Option<User>)
    ensures r.Some? ==> r.value in users && r.value.email == email
    ensures r.None? <==> forall u :: u in users ==> u.email != email
  {
    if users == [] then None
    else if users[0].email == email then Some(users[0])
    else FindByEmail(users[1..], email)
  }

  /** `User.findById(id)`: the first record, in store order, with that id. */
  function FindById(users: seq<User>, id: Id): (r: Option<User>)
    ensures r.Some? ==> r.value in users && r.value.id == id
    ensures r.None? <==> forall u :: u in users ==> u.id != id
  {
    if users == [] then None
    else if users[0].id == id then Some(users[0])
    else FindById(users[1..], id)
  }

  /** No two records share an email. */
  predicate EmailsUnique(users: seq<User>)
  {
    forall i, j :: 0 <= i < j < |users| ==> users[i].email != users[j].email
  }

  /** No two records share an id. */
  predicate IdsUnique(users: seq<User>)
  {
    forall i, j :: 0 <= i < j < |users| ==> users[i].id != users[j].id
  }

  /** Every id in use is below the next one the counter will hand out. */
  predicate IdsBelow(users: seq<User>, nextId: Id)
  {
    forall i :: 0 <= i < |users| ==> users[i].id < nextId
  }

  /** When the emails are unique, the email lookup finds the one record that
      carries it. */
  lemma FindByEmailFindsTheRecord(users: seq<User>, u: User)
    requires EmailsUnique(users) && u in users
    ensures FindByEmail(users, u.email) == Some(u)
  {
  }

  /** When the ids are unique, the id lookup finds the one record that
      carries it. */
  lemma FindByIdFindsTheRecord(users: seq<User>, u: User)
    requires IdsUnique(users) && u in users
    ensures FindById(users, u.id) == Some(u)
  {
  }
}
