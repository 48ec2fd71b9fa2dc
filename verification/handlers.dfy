/**
 The state-changing routes of `app.js`, each a pure transition from a store
 and a request to a new store and a response. Exceptions the handlers catch
 (a datastore error, a property read on a document that was not found) end
 in the common 500 reply.
 */
module Handlers {
  import opened Maybe
  import opened Likes
  import opened Entities
  import opened Auth

  /** What a response does to the `token` cookie. */
  datatype CookieOp = KeepCookie | SetToken(token: string) | ClearToken

  datatype Response =
    | Found(location: string, cookie: CookieOp)  // `res.redirect(location)`
    | Status(code: nat, body: string)            // `res.status(code).send(body)`

  /** The reply of every `catch` block. */
  const ServerError: Response := Status(500, "Internal Server Error")

  /** The reply of every successful protected route. */
  const ToProfile: Response := Found("/profile", KeepCookie)

  /** The reply of the session gate and of logout when they turn a request away. */
  const ToLogin: Response := Found("/login", KeepCookie)

  datatype Reply = Reply(store: Store, response: Response)

  /** The libraries the handlers call. */
  datatype Env = Env(hasher: Hasher, tokens: TokenService)

  /** What the environment supplies afresh for one request: the identifiers
      the datastore generates for a new document and the hashing salt. */
  datatype Generated = Generated(userId: UserId, postId: PostId, salt: string)

  datatype RegisterForm = RegisterForm(username: string, name: string, email: string, age: string, password: string)

  /** The requests that need a session, with their route parameters and body. */
  datatype Action =
    | SetPicture(file: Option<string>)          // POST /upload: stored name of the uploaded file
    | Publish(content: string)                   // POST /post
    | Edit(postId: PostId, content: string)      // POST /update/:postId
    | LikeToggle(postId: PostId)                 // GET /like/:postId

  datatype Request =
    | RegisterRequest(form: RegisterForm)        // POST /register
    | LoginRequest(email: string, password: string)  // POST /login
    | Logout                                     // GET /logout
    | Guarded(cookie: Option<string>, action: Action)

  /** The token a successful sign-in issues for `u`. */
  function SessionFor(env: Env, u: User): Option<string> {
    env.tokens.sign(Claims(u.email, u.id))
  }

  /** POST /register. A taken e-mail is refused with 400 and nothing stored.
      Otherwise the user is created with the hashed password before the token
      is signed, so a signing failure still leaves the user stored. */
  function Register(env: Env, s: Store, form: RegisterForm, gen: Generated): (r: Reply)
    ensures form.email in s.users ==> r == Reply(s, Status(400, "User already exists"))
    ensures form.email !in s.users && gen.userId in UserIds(s) ==> r == Reply(s, ServerError)
    ensures form.email !in s.users && gen.userId !in UserIds(s) ==>
      && r.store.posts == s.posts
      && r.store.users.Keys == s.users.Keys + {form.email}
      && (forall e :: e in s.users ==> r.store.users[e] == s.users[e])
      && r.store.users[form.email]
         == User(gen.userId, form.username, form.name, form.email, form.age,
                 env.hasher.hash(form.password, gen.salt), None, [])
    ensures form.email !in s.users && gen.userId !in UserIds(s) && env.tokens.sign(Claims(form.email, gen.userId)).None? ==>
      r.response == ServerError
    ensures r.response.Found? <==>
      form.email !in s.users && gen.userId !in UserIds(s) && env.tokens.sign(Claims(form.email, gen.userId)).Some?
    ensures r.response.Found? ==>
      r.response == Found("/profile", SetToken(env.tokens.sign(Claims(form.email, gen.userId)).value))
  {
    if form.email in s.users then
      Reply(s, Status(400, "User already exists"))
    else if gen.userId in UserIds(s) then
      // the datastore rejects a duplicate `_id`
      Reply(s, ServerError)
    else
      var hashed := env.hasher.hash(form.password, gen.salt);
      var created := User(gen.userId, form.username, form.name, form.email, form.age, hashed, None, []);
      var s' := s.(users := s.users[form.email := created]);
      match SessionFor(env, created)
      case None => Reply(s', ServerError)
      case Some(token) => Reply(s', Found("/profile", SetToken(token)))
  }

  /** POST /login. Never changes the store. */
  function Login(env: Env, s: Store, email: string, password: string): (r: Reply)
    ensures r.store == s
    ensures email !in s.users ==> r.response == Status(404, "User does not exist")
    ensures email in s.users && !env.hasher.compare(password, s.users[email].password) ==>
      r.response == Status(401, "Invalid credentials")
    ensures (email in s.users && env.hasher.compare(password, s.users[email].password)
             && env.tokens.sign(Claims(s.users[email].email, s.users[email].id)).None?) ==>
      r.response == ServerError
    ensures r.response.Found? <==>
      email in s.users && env.hasher.compare(password, s.users[email].password)
      && env.tokens.sign(Claims(s.users[email].email, s.users[email].id)).Some?
    ensures r.response.Found? ==>
      r.response == Found("/profile", SetToken(env.tokens.sign(Claims(s.users[email].email, s.users[email].id)).value))
  {
    if email !in s.users then
      Reply(s, Status(404, "User does not exist"))
    else
      var u := s.users[email];
      if env.hasher.compare(password, u.password) then
        match SessionFor(env, u)
        case None => Reply(s, ServerError)
        case Some(token) => Reply(s, Found("/profile", SetToken(token)))
      else
        Reply(s, Status(401, "Invalid credentials"))
  }

  /** POST /upload. Sets the profile picture of the signed-in user and
      nothing else; with no such user or no uploaded file the handler throws. */
  function Upload(s: Store, who: Claims, file: Option<string>): (r: Reply)
    ensures who.email !in s.users || file == None ==> r == Reply(s, ServerError)
    ensures who.email in s.users && file.Some? ==>
      && r.response == ToProfile
      && r.store.posts == s.posts
      && r.store.users.Keys == s.users.Keys
      && (forall e :: e in s.users && e != who.email ==> r.store.users[e] == s.users[e])
      && r.store.users[who.email] == s.users[who.email].(dp := file)
  {
    if who.email !in s.users || file == None then
      Reply(s, ServerError)
    else
      var u := s.users[who.email];
      Reply(s.(users := s.users[who.email := u.(dp := Some(file.value))]), ToProfile)
  }

  /** POST /post. Creates a post owned by the signed-in user and appends its
      identifier to that user's `posts`. */
  function CreatePost(s: Store, who: Claims, content: string, postId: PostId): (r: Reply)
    ensures who.email !in s.users || postId in s.posts ==> r == Reply(s, ServerError)
    ensures who.email in s.users && postId !in s.posts ==>
      && r.response == ToProfile
      && r.store.posts.Keys == s.posts.Keys + {postId}
      && (forall p :: p in s.posts ==> r.store.posts[p] == s.posts[p])
      && r.store.posts[postId].user == s.users[who.email].id
      && r.store.posts[postId].content == content
      && r.store.posts[postId].likes == []
      && r.store.users.Keys == s.users.Keys
      && (forall e :: e in s.users && e != who.email ==> r.store.users[e] == s.users[e])
      && r.store.users[who.email] == s.users[who.email].(posts := s.users[who.email].posts + [postId])
  {
    if who.email !in s.users then
      Reply(s, ServerError)
    else if postId in s.posts then
      // the datastore rejects a duplicate `_id`
      Reply(s, ServerError)
    else
      var u := s.users[who.email];
      var created := Post(u.id, content, []);
      Reply(Store(s.users[who.email := u.(posts := u.posts + [postId])], s.posts[postId := created]), ToProfile)
  }

  /** POST /update/:postId. Replaces the content of the post, if there is
      one; a missing post is no error. No ownership check is made. */
  function UpdatePost(s: Store, postId: PostId, content: string): (r: Reply)
    ensures r.response == ToProfile
    ensures r.store.users == s.users
    ensures r.store.posts.Keys == s.posts.Keys
    ensures forall p :: p in s.posts && p != postId ==> r.store.posts[p] == s.posts[p]
    ensures postId in s.posts ==>
      && r.store.posts[postId].content == content
      && r.store.posts[postId].user == s.posts[postId].user
      && r.store.posts[postId].likes == s.posts[postId].likes
    ensures postId !in s.posts ==> r.store == s
  {
    if postId in s.posts then
      Reply(s.(posts := s.posts[postId := s.posts[postId].(content := content)]), ToProfile)
    else
      Reply(s, ToProfile)
  }

  /** GET /like/:postId. Toggles the signed-in user's identifier in the
      post's likes; a missing post makes the handler throw. */
  function Like(s: Store, who: Claims, postId: PostId): (r: Reply)
    ensures postId !in s.posts ==> r == Reply(s, ServerError)
    ensures postId in s.posts ==>
      && r.response == ToProfile
      && r.store.users == s.users
      && r.store.posts.Keys == s.posts.Keys
      && (forall p :: p in s.posts && p != postId ==> r.store.posts[p] == s.posts[p])
      && r.store.posts[postId].user == s.posts[postId].user
      && r.store.posts[postId].content == s.posts[postId].content
      && (who.userId !in s.posts[postId].likes ==>
            r.store.posts[postId].likes == s.posts[postId].likes + [who.userId])
      && (who.userId in s.posts[postId].likes ==>
            multiset(r.store.posts[postId].likes) == multiset(s.posts[postId].likes) - multiset{who.userId})
  {
    if postId !in s.posts then
      Reply(s, ServerError)
    else
      var post := s.posts[postId];
      Reply(s.(posts := s.posts[postId := post.(likes := Toggle(post.likes, who.userId))]), ToProfile)
  }

  /** The session-protected routes once `isLoggedIn` has let the request through. */
  function Perform(s: Store, who: Claims, action: Action, gen: Generated): (r: Reply)
    ensures r.response == ToProfile || r.response == ServerError
    ensures r.response == ServerError ==> r.store == s
  {
    match action
    case SetPicture(file) => Upload(s, who, file)
    case Publish(content) => CreatePost(s, who, content, gen.postId)
    case Edit(postId, content) => UpdatePost(s, postId, content)
    case LikeToggle(postId) => Like(s, who, postId)
  }

  /** One request through the application. A guarded request reaches its
      handler only when its token verifies; otherwise the store is untouched. */
  function Handle(env: Env, s: Store, req: Request, gen: Generated): (r: Reply)
    ensures req.Logout? ==> r == Reply(s, Found("/login", ClearToken))
    ensures req.Guarded? && SessionGate(env.tokens, req.cookie).Redirect? ==> r == Reply(s, ToLogin)
    ensures req.Guarded? && SessionGate(env.tokens, req.cookie).ClearAndRedirect? ==>
      r == Reply(s, Found("/login", ClearToken))
    ensures req.Guarded? && r.store != s ==> SessionGate(env.tokens, req.cookie).Proceed?
    ensures req.LoginRequest? ==> r.store == s
    ensures req.RegisterRequest? ==> r == Register(env, s, req.form, gen)
    ensures req.LoginRequest? ==> r == Login(env, s, req.email, req.password)
    ensures req.Guarded? && SessionGate(env.tokens, req.cookie).Proceed? ==>
      r == Perform(s, SessionGate(env.tokens, req.cookie).identity, req.action, gen)
  {
    match req
    case RegisterRequest(form) => Register(env, s, form, gen)
    case LoginRequest(email, password) => Login(env, s, email, password)
    case Logout => Reply(s, Found("/login", ClearToken))
    case Guarded(cookie, action) =>
      match SessionGate(env.tokens, cookie)
      case Redirect => Reply(s, ToLogin)
      case ClearAndRedirect => Reply(s, Found("/login", ClearToken))
      case Proceed(who) => Perform(s, who, action, gen)
  }
}
