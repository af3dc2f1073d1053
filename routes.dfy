/**
 * The decision logic of the route handlers. A handler's answer is an
 * `Outcome`: a rendered page (with its error message or its user), or a
 * redirect with what happens to the `uid` cookie. The database is the
 * `UserCollection`, bcrypt is a pair of function values, and the fresh
 * uuid arrives as a parameter.
 */
module Routes {
  import opened Wrappers
  import opened Users
  import opened AuthService

  datatype CookieAction = KeepCookie | ClearCookie | SetCookie(uid: SessionId)

  datatype View =
    | HomeView(user: User, sessionId: SessionId)
    | RegisterView(error: Option<string>)
    | LoginView(error: Option<string>)

  datatype Outcome = Render(view: View) | Redirect(location: string, cookie: CookieAction)

  /** The server's state at value level: the session table and the user collection. */
  datatype State = State(sessions: map<SessionId, User>, users: map<Email, User>)

  /** bcrypt's two entry points, left uninterpreted. */
  datatype Bcrypt = Bcrypt(hash: string -> string, compare: (string, string) -> bool)

  const AllFieldsRequired := "All fields are required"
  const UserAlreadyExists := "User already exists"
  const UserDoesNotExist := "User does not exist"
  const IncorrectPassword := "Incorrect password"

  /** JavaScript truthiness of an optional string: `undefined` and `""` are both false. */
  predicate Truthy(v: Option<string>): (b: bool)
    ensures !b <==> v == None || v == Some("")
  {
    v.Some? && v.value != ""
  }

  /**
   * `GET /`. Without a usable cookie, go to the login page without looking at
   * the store; with a cookie the store does not know, clear it and go to the
   * login page; otherwise show exactly the stored user for that cookie.
   */
  function Home(sessions: map<SessionId, User>, cookie: Option<SessionId>): (o: Outcome)
    ensures !Truthy(cookie) ==> o == Redirect("/login", KeepCookie)
    ensures Truthy(cookie) && cookie.value !in sessions ==> o == Redirect("/login", ClearCookie)
    ensures o.Render? <==> Truthy(cookie) && cookie.value in sessions
    ensures o.Render? ==> o.view == HomeView(sessions[cookie.value], cookie.value)
  {
    if Truthy(cookie) then
      if cookie.value !in sessions then Redirect("/login", ClearCookie)
      else Render(HomeView(sessions[cookie.value], cookie.value))
    else
      Redirect("/login", KeepCookie)
  }

  /** `GET /` against the live store, asking it through `GetSession`. */
  function GetHome(store: SessionStore, cookie: Option<SessionId>): (o: Outcome)
    reads store
    ensures o == Home(store.records, cookie)
  {
    if Truthy(cookie) then
      var user := store.GetSession(cookie.value);
      if user.None? then Redirect("/login", ClearCookie)
      else Render(HomeView(user.value, cookie.value))
    else
      Redirect("/login", KeepCookie)
  }

  /** `GET /register`: the empty registration form. */
  function RegisterForm(): (o: Outcome)
    ensures o.Render? && o.view.RegisterView? && o.view.error.None?
  {
    Render(RegisterView(None))
  }

  /** `GET /login`: the empty login form. */
  function LoginForm(): (o: Outcome)
    ensures o.Render? && o.view.LoginView? && o.view.error.None?
  {
    Render(LoginView(None))
  }

  /** `GET /logout`: clear the client's cookie; the server-side entry is not touched. */
  function Logout(): (o: Outcome)
    ensures o.Redirect? && o.location == "/login" && o.cookie == ClearCookie
  {
    Redirect("/login", ClearCookie)
  }

  /** The user document a successful registration creates. */
  function NewUser(name: string, email: Email, password: string, b: Bcrypt): (u: User)
    ensures u.name == name && u.email == email
    ensures u.password == b.hash(password)
  {
    User(name, email, b.hash(password))
  }

  /**
   * `POST /register` on values: the new state and the outcome. A failure renders
   * the form with its message and changes nothing; a success stores the user
   * with the hashed password, maps `uid` to it and sets the cookie to `uid`.
   */
  function RegisterEffect(s: State, name: Option<string>, email: Option<string>, password: Option<string>,
                          b: Bcrypt, uid: SessionId): (r: (State, Outcome))
    ensures !(Truthy(name) && Truthy(email) && Truthy(password)) ==>
              r == (s, Render(RegisterView(Some(AllFieldsRequired))))
    ensures Truthy(name) && Truthy(email) && Truthy(password) && email.value in s.users ==>
              r == (s, Render(RegisterView(Some(UserAlreadyExists))))
    ensures r.1.Redirect? <==> Truthy(name) && Truthy(email) && Truthy(password) && email.value !in s.users
    ensures r.1.Render? ==> r.0 == s
    ensures r.1.Redirect? ==>
              var u := NewUser(name.value, email.value, password.value, b);
              && r.1 == Redirect("/", SetCookie(uid))
              && r.0.users == s.users[email.value := u]
              && r.0.sessions == s.sessions[uid := u]
  {
    if !Truthy(name) || !Truthy(email) || !Truthy(password) then
      (s, Render(RegisterView(Some(AllFieldsRequired))))
    else if email.value in s.users then
      (s, Render(RegisterView(Some(UserAlreadyExists))))
    else
      var u := NewUser(name.value, email.value, password.value, b);
      (State(s.sessions[uid := u], s.users[email.value := u]), Redirect("/", SetCookie(uid)))
  }

  /**
   * `POST /login` on values. The user table never changes. A failure renders the
   * form with its message and records no session; a success maps `uid` to the
   * stored user whose hash matched and sets the cookie to `uid`.
   */
  function LoginEffect(s: State, email: Option<string>, password: Option<string>,
                       b: Bcrypt, uid: SessionId): (r: (State, Outcome))
    ensures r.0.users == s.users
    ensures !(Truthy(email) && Truthy(password)) ==>
              r == (s, Render(LoginView(Some(AllFieldsRequired))))
    ensures Truthy(email) && Truthy(password) && email.value !in s.users ==>
              r == (s, Render(LoginView(Some(UserDoesNotExist))))
    ensures Truthy(email) && Truthy(password) && email.value in s.users &&
            !b.compare(password.value, s.users[email.value].password) ==>
              r == (s, Render(LoginView(Some(IncorrectPassword))))
    ensures r.1.Redirect? <==>
              && Truthy(email) && Truthy(password) && email.value in s.users
              && b.compare(password.value, s.users[email.value].password)
    ensures r.1.Render? ==> r.0 == s
    ensures r.1.Redirect? ==>
              && r.1 == Redirect("/", SetCookie(uid))
              && r.0.sessions == s.sessions[uid := s.users[email.value]]
  {
    if !Truthy(email) || !Truthy(password) then
      (s, Render(LoginView(Some(AllFieldsRequired))))
    else if email.value !in s.users then
      (s, Render(LoginView(Some(UserDoesNotExist))))
    else
      var user := s.users[email.value];
      if !b.compare(password.value, user.password) then
        (s, Render(LoginView(Some(IncorrectPassword))))
      else
        (State(s.sessions[uid := user], s.users), Redirect("/", SetCookie(uid)))
  }

  /** `POST /register` against the live collection and store. */
  method HandleRegister(db: UserCollection, store: SessionStore,
                        name: Option<string>, email: Option<string>, password: Option<string>,
                        b: Bcrypt, uid: SessionId) returns (o: Outcome)
    requires store.Valid()
    modifies db, store
    ensures store.Valid()
    ensures (State(store.records, db.byEmail), o)
            == RegisterEffect(State(old(store.records), old(db.byEmail)), name, email, password, b, uid)
    ensures store.writes == old(store.writes) + if o.Redirect? then [Write(uid, store.records[uid])] else []
  {
    if !Truthy(name) || !Truthy(email) || !Truthy(password) {
      return Render(RegisterView(Some(AllFieldsRequired)));
    }
    var existing := db.FindOne(email.value);
    if existing.Some? {
      return Render(RegisterView(Some(UserAlreadyExists)));
    }
    var hashedPassword := b.hash(password.value);
    var newUser := db.Create(name.value, email.value, hashedPassword);
    store.SetSession(uid, newUser);
    o := Redirect("/", SetCookie(uid));
  }

  /** `POST /login` against the live collection and store. */
  method HandleLogin(db: UserCollection, store: SessionStore,
                     email: Option<string>, password: Option<string>,
                     b: Bcrypt, uid: SessionId) returns (o: Outcome)
    requires store.Valid()
    modifies store
    ensures store.Valid()
    ensures (State(store.records, db.byEmail), o)
            == LoginEffect(State(old(store.records), old(db.byEmail)), email, password, b, uid)
    ensures store.writes == old(store.writes) + if o.Redirect? then [Write(uid, store.records[uid])] else []
  {
    if !Truthy(email) || !Truthy(password) {
      return Render(LoginView(Some(AllFieldsRequired)));
    }
    var user := db.FindOne(email.value);
    if user.None? {
      return Render(LoginView(Some(UserDoesNotExist)));
    }
    var isMatch := b.compare(password.value, user.value.password);
    if !isMatch {
      return Render(LoginView(Some(IncorrectPassword)));
    }
    store.SetSession(uid, user.value);
    o := Redirect("/", SetCookie(uid));
  }
}
