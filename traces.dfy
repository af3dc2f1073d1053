/**
 * The route handlers as one request-level state machine: each request is
 * one atomic step over the session table and the user collection. The
 * lemmas state what holds after ANY sequence of requests.
 */
module Traces {
  import opened Wrappers
  import opened Users
  import opened AuthService
  import opened Routes

  /** One HTTP request, with the uuid the server would mint for it where it mints one. */
  datatype Request =
    | GetRoot(cookie: Option<SessionId>)
    | GetRegister
    | PostRegister(name: Option<string>, email: Option<string>, password: Option<string>, uid: SessionId)
    | GetLogin
    | PostLogin(email: Option<string>, password: Option<string>, uid: SessionId)
    | GetLogout

  /** The route table: each request goes to its handler. Only the two POST routes can change the state. */
  function Step(s: State, req: Request, b: Bcrypt): (r: (State, Outcome))
    ensures !(req.PostRegister? || req.PostLogin?) ==> r.0 == s
    ensures r.0.users != s.users ==> req.PostRegister?
    ensures req.GetRoot? ==> r.1 == Home(s.sessions, req.cookie)
  {
    match req
    case GetRoot(cookie) => (s, Home(s.sessions, cookie))
    case GetRegister => (s, RegisterForm())
    case PostRegister(name, email, password, uid) => RegisterEffect(s, name, email, password, b, uid)
    case GetLogin => (s, LoginForm())
    case PostLogin(email, password, uid) => LoginEffect(s, email, password, b, uid)
    case GetLogout => (s, Logout())
  }

  /** The state after serving `reqs` in order, starting from `s`. */
  function Run(s: State, reqs: seq<Request>, b: Bcrypt): State
    decreases |reqs|
  {
    if reqs == [] then s else Run(Step(s, reqs[0], b).0, reqs[1..], b)
  }

  /** What the client's `uid` cookie is after it receives a response's cookie action. */
  function ApplyCookie(jar: Option<SessionId>, action: CookieAction): (c: Option<SessionId>)
    ensures action.ClearCookie? ==> c == None
    ensures action.KeepCookie? ==> c == jar
    ensures action.SetCookie? ==> c == Some(action.uid)
  {
    match action
    case KeepCookie => jar
    case ClearCookie => None
    case SetCookie(uid) => Some(uid)
  }

  /** Every user document is filed under its own e-mail address. */
  ghost predicate UsersKeyed(users: map<Email, User>)
  {
    forall e :: e in users ==> users[e].email == e
  }

  /**
   * The server state is consistent: users are filed under their own address,
   * and every session belongs to the user currently filed under that user's
   * address, so a session never refers to an unregistered account.
   */
  ghost predicate Consistent(s: State)
  {
    && UsersKeyed(s.users)
    && forall id :: id in s.sessions ==>
         s.sessions[id].email in s.users && s.users[s.sessions[id].email] == s.sessions[id]
  }

  lemma StepKeepsConsistent(s: State, req: Request, b: Bcrypt)
    requires Consistent(s)
    ensures Consistent(Step(s, req, b).0)
  {
  }

  /** Consistency holds after any sequence of requests. */
  lemma {:induction false} RunKeepsConsistent(s: State, reqs: seq<Request>, b: Bcrypt)
    requires Consistent(s)
    ensures Consistent(Run(s, reqs, b))
    decreases |reqs|
  {
    if reqs != [] {
      StepKeepsConsistent(s, reqs[0], b);
      RunKeepsConsistent(Step(s, reqs[0], b).0, reqs[1..], b);
    }
  }

  /**
   * Starting from an empty session table over any well-filed user collection,
   * whatever requests arrive, the landing page renders only a registered user:
   * the stored session user for the presented cookie, filed under that user's address.
   */
  lemma HomeShowsOnlyRegisteredUsers(users: map<Email, User>, reqs: seq<Request>, b: Bcrypt, cookie: Option<SessionId>)
    requires UsersKeyed(users)
    ensures var s := Run(State(map[], users), reqs, b);
            var o := Home(s.sessions, cookie);
            o.Render? ==> o.view.user.email in s.users && s.users[o.view.user.email] == o.view.user
  {
    RunKeepsConsistent(State(map[], users), reqs, b);
  }

  /**
   * Nothing is ever removed: session ids stay in the table, user documents stay
   * in the collection unchanged.
   */
  lemma {:induction false} RunOnlyGrows(s: State, reqs: seq<Request>, b: Bcrypt)
    ensures s.sessions.Keys <= Run(s, reqs, b).sessions.Keys
    ensures s.users.Keys <= Run(s, reqs, b).users.Keys
    ensures forall e :: e in s.users ==> Run(s, reqs, b).users[e] == s.users[e]
    decreases |reqs|
  {
    if reqs != [] {
      var s' := Step(s, reqs[0], b).0;
      assert s.sessions.Keys <= s'.sessions.Keys;
      assert forall e :: e in s.users ==> e in s'.users && s'.users[e] == s.users[e];
      RunOnlyGrows(s', reqs[1..], b);
    }
  }

  /** A request that renders a page (every failed login or registration, among others) changes no state. */
  lemma RenderedRequestChangesNothing(s: State, req: Request, b: Bcrypt)
    ensures Step(s, req, b).1.Render? ==> Step(s, req, b).0 == s
  {
  }

  /** A request that records a session is a successful registration or login, and sets the cookie to its uid. */
  lemma OnlySuccessfulSignInRecordsSession(s: State, req: Request, b: Bcrypt)
    ensures Step(s, req, b).0.sessions != s.sessions ==>
              && (req.PostRegister? || req.PostLogin?)
              && Step(s, req, b).1 == Redirect("/", SetCookie(req.uid))
              && req.uid in Step(s, req, b).0.sessions
  {
  }

  /** With a uid not yet in the table, a request leaves every existing session entry as it was. */
  lemma FreshUidKeepsEntries(s: State, req: Request, b: Bcrypt)
    requires (req.PostRegister? || req.PostLogin?) ==> req.uid !in s.sessions
    ensures forall id :: id in s.sessions ==>
              id in Step(s, req, b).0.sessions && Step(s, req, b).0.sessions[id] == s.sessions[id]
  {
  }

  /**
   * Logout only clears the client's cookie: the state is unchanged, and a client
   * that still presents the old uid is shown the same user as before.
   */
  lemma LogoutDoesNotRevoke(s: State, b: Bcrypt, jar: Option<SessionId>, uid: SessionId)
    requires uid != "" && uid in s.sessions
    ensures var (s', o) := Step(s, GetLogout, b);
            && s' == s
            && ApplyCookie(jar, o.cookie) == None
            && Home(s'.sessions, None) == Redirect("/login", KeepCookie)
            && Home(s'.sessions, Some(uid)) == Render(HomeView(s.sessions[uid], uid))
  {
  }

  /**
   * After a successful login the client's next `GET /` renders home with the
   * user found by e-mail and the uid just minted (a uuid is never empty).
   */
  lemma LoginThenHome(s: State, email: string, password: string, b: Bcrypt, uid: SessionId, jar: Option<SessionId>)
    requires uid != ""
    requires email != "" && password != "" && email in s.users
    requires b.compare(password, s.users[email].password)
    ensures var (s', o) := Step(s, PostLogin(Some(email), Some(password), uid), b);
            Home(s'.sessions, ApplyCookie(jar, o.cookie)) == Render(HomeView(s.users[email], uid))
  {
  }

  /**
   * If bcrypt accepts a password against its own hash, an account just registered
   * can log in with the same e-mail and password, yielding a second, independent
   * session for the same user.
   */
  lemma RegisterThenLogin(s: State, name: string, email: string, password: string, b: Bcrypt,
                          uid1: SessionId, uid2: SessionId)
    requires name != "" && email != "" && password != "" && email !in s.users
    requires b.compare(password, b.hash(password))
    ensures var s1 := Step(s, PostRegister(Some(name), Some(email), Some(password), uid1), b).0;
            var (s2, o) := Step(s1, PostLogin(Some(email), Some(password), uid2), b);
            && o == Redirect("/", SetCookie(uid2))
            && s2.sessions[uid2] == User(name, email, b.hash(password))
            && (uid1 != uid2 ==> s2.sessions[uid1] == s2.sessions[uid2])
  {
  }
}
