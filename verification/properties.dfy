/**
 Properties that relate several requests: registering then signing in,
 registering twice, the session a registration opens, liking twice, and the
 store invariant every request preserves.
 */
module Properties {
  import opened Maybe
  import opened Likes
  import opened Entities
  import opened Auth
  import opened Handlers

  /** After a successful registration, signing in with the same e-mail and
      password succeeds: it redirects to /profile with a session cookie that
      decodes to the new user's e-mail and identifier. */
  lemma RegisterThenLogin(env: Env, s: Store, form: RegisterForm, gen: Generated)
    requires HashSound(env.hasher) && TokensSound(env.tokens)
    requires Register(env, s, form, gen).response.Found?
    ensures var login := Login(env, Register(env, s, form, gen).store, form.email, form.password).response;
      && login.Found? && login.location == "/profile" && login.cookie.SetToken?
      && env.tokens.verify(login.cookie.token) == Some(Claims(form.email, gen.userId))
  {
  }

  /** A request carrying a token the service signed runs its route's handler
      on behalf of exactly the claims in the token. */
  lemma SignedSessionRunsHandler(env: Env, s: Store, c: Claims, token: string, action: Action, gen: Generated)
    requires TokensSound(env.tokens) && env.tokens.sign(c) == Some(token)
    ensures Handle(env, s, Guarded(Some(token), action), gen) == Perform(s, c, action, gen)
  {
  }

  /** Once a registration has stored an e-mail, whether or not it then
      managed to sign a token, registering it again is refused with 400 and
      stores nothing, whatever the other fields. */
  lemma RegisterTwice(env: Env, s: Store, form: RegisterForm, again: RegisterForm, gen: Generated, gen': Generated)
    requires form.email !in s.users && gen.userId !in UserIds(s)
    requires again.email == form.email
    ensures Register(env, Register(env, s, form, gen).store, again, gen')
         == Reply(Register(env, s, form, gen).store, Status(400, "User already exists"))
  {
  }

  /** A registration whose token signing fails answers 500, yet a retry with
      the same e-mail is refused as a duplicate. */
  lemma RetryAfterSignFailure(env: Env, s: Store, form: RegisterForm, gen: Generated, gen': Generated)
    requires form.email !in s.users && gen.userId !in UserIds(s)
    requires env.tokens.sign(Claims(form.email, gen.userId)) == None
    ensures Register(env, s, form, gen).response == ServerError
    ensures Register(env, Register(env, s, form, gen).store, form, gen').response
         == Status(400, "User already exists")
  {
  }

  /** The cookie a registration sets opens the session gate with the new
      user's e-mail and identifier. */
  lemma RegisterOpensSession(env: Env, s: Store, form: RegisterForm, gen: Generated, token: string)
    requires TokensSound(env.tokens)
    requires Register(env, s, form, gen).response == Found("/profile", SetToken(token))
    ensures SessionGate(env.tokens, Some(token))
         == Proceed(Claims(form.email, Register(env, s, form, gen).store.users[form.email].id))
  {
  }

  /** A request to a protected route without a session cookie, or with an
      empty one, is redirected to /login with the store untouched, whichever
      route it was for. */
  lemma NoSessionNoEffect(env: Env, s: Store, cookie: Option<string>, action: Action, gen: Generated)
    requires cookie == None || cookie == Some("")
    ensures Handle(env, s, Guarded(cookie, action), gen) == Reply(s, ToLogin)
  {
  }

  /** A token that fails verification is turned away like a missing one,
      except that the cookie is also cleared. */
  lemma BadTokenLikeMissing(env: Env, s: Store, token: string, action: Action, gen: Generated)
    requires token != "" && env.tokens.verify(token) == None
    ensures Handle(env, s, Guarded(Some(token), action), gen).store
         == Handle(env, s, Guarded(None, action), gen).store
    ensures Handle(env, s, Guarded(Some(token), action), gen).response
         == Handle(env, s, Guarded(None, action), gen).response.(cookie := ClearToken)
  {
  }

  /** Liking a post twice from the unliked state restores the store exactly. */
  lemma LikeTwiceRestores(s: Store, who: Claims, postId: PostId)
    requires postId in s.posts && who.userId !in s.posts[postId].likes
    ensures Like(Like(s, who, postId).store, who, postId).store == s
  {
    var post := s.posts[postId];
    ToggleTwiceAbsent(post.likes, who.userId);
    assert Like(Like(s, who, postId).store, who, postId).store.posts == s.posts;
  }

  /** Unliking and liking again from the liked state leaves the same likers
      on a valid store's post, the requester now last. */
  lemma UnlikeThenLike(s: Store, who: Claims, postId: PostId, i: nat)
    requires Valid(s)
    requires postId in s.posts
    requires i < |s.posts[postId].likes| && s.posts[postId].likes[i] == who.userId
    ensures Like(Like(s, who, postId).store, who, postId).store.posts[postId].likes
         == s.posts[postId].likes[..i] + s.posts[postId].likes[i + 1..] + [who.userId]
  {
  }

  /** The identifiers of a store whose users keep their identifiers are unchanged. */
  lemma SameIds(s: Store, s': Store)
    requires s'.users.Keys == s.users.Keys
    requires forall e :: e in s.users ==> s'.users[e].id == s.users[e].id
    ensures UserIds(s') == UserIds(s)
  {
  }

  lemma RegisterPreservesValid(env: Env, s: Store, form: RegisterForm, gen: Generated)
    requires Valid(s)
    ensures Valid(Register(env, s, form, gen).store)
  {
  }

  lemma UploadPreservesValid(s: Store, who: Claims, file: Option<string>)
    requires Valid(s)
    ensures Valid(Upload(s, who, file).store)
  {
  }

  lemma CreatePostPreservesValid(s: Store, who: Claims, content: string, postId: PostId)
    requires Valid(s)
    ensures Valid(CreatePost(s, who, content, postId).store)
  {
    var s' := CreatePost(s, who, content, postId).store;
    if s' != s {
      SameIds(s, s');
      var owner := s.users[who.email];
      assert owner.id in UserIds(s);
      forall e | e in s'.users
        ensures NoDup(s'.users[e].posts)
        ensures forall k :: 0 <= k < |s'.users[e].posts| ==>
          s'.users[e].posts[k] in s'.posts && s'.posts[s'.users[e].posts[k]].user == s'.users[e].id
      {
        var list := s.users[e].posts;
        if e == who.email {
          var list' := list + [postId];
          assert s'.users[e].posts == list';
          forall k | 0 <= k < |list'|
            ensures list'[k] in s'.posts && s'.posts[list'[k]].user == s'.users[e].id
          {
            if k < |list| {
              assert list'[k] == list[k];
            }
          }
          forall a, b | 0 <= a < b < |list'|
            ensures list'[a] != list'[b]
          {
            if b == |list| {
              assert list'[a] == list[a] && list[a] in s.posts;
            }
          }
        }
      }
    }
  }

  lemma UpdatePostPreservesValid(s: Store, postId: PostId, content: string)
    requires Valid(s)
    ensures Valid(UpdatePost(s, postId, content).store)
  {
  }

  lemma LikePreservesValid(s: Store, who: Claims, postId: PostId)
    requires Valid(s)
    ensures Valid(Like(s, who, postId).store)
  {
    if postId in s.posts {
      ToggleKeepsNoDup(s.posts[postId].likes, who.userId);
    }
  }

  /** Every request, routed through the session gate, preserves the store invariant. */
  lemma HandlePreservesValid(env: Env, s: Store, req: Request, gen: Generated)
    requires Valid(s)
    ensures Valid(Handle(env, s, req, gen).store)
  {
    match req
    case RegisterRequest(form) => RegisterPreservesValid(env, s, form, gen);
    case LoginRequest(_, _) =>
    case Logout =>
    case Guarded(cookie, action) =>
      match SessionGate(env.tokens, cookie)
      case Redirect =>
      case ClearAndRedirect =>
      case Proceed(who) =>
        match action
        case SetPicture(file) => UploadPreservesValid(s, who, file);
        case Publish(content) => CreatePostPreservesValid(s, who, content, gen.postId);
        case Edit(postId, content) => UpdatePostPreservesValid(s, postId, content);
        case LikeToggle(postId) => LikePreservesValid(s, who, postId);
  }
}
