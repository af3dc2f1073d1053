/**
 * The user collection that the route handlers consult through `User.findOne`
 * and extend through `User.create`. The database itself is not part of this
 * model; the collection is a table keyed by e-mail address.
 */
module Users {
  import opened Wrappers

  type Email = string

  /** A user document: display name, e-mail address and the stored password hash. */
  datatype User = User(name: string, email: Email, password: string)

  class UserCollection {
    var byEmail: map<Email, User>

    constructor ()
      ensures byEmail == map[]
    {
      byEmail := map[];
    }

    /** `User.findOne({ email })`: the document stored under `email`, if any. */
    function FindOne(email: Email): (r: Option<User>)
      reads this
      ensures r.Some? <==> email in byEmail
      ensures r.Some? ==> r.value == byEmail[email]
    {
      if email in byEmail then Some(byEmail[email]) else None
    }

    /** `User.create({ name, email, password })`: stores and returns a new document. */
    method Create(name: string, email: Email, password: string) returns (u: User)
      modifies this
      ensures u == User(name, email, password)
      ensures byEmail == old(byEmail)[email := u]
    {
      u := User(name, email, password);
      byEmail := byEmail[email := u];
    }
  }
}
