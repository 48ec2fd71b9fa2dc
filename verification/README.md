# Thread-Post: a model of the request handlers

This project models the decision and data-structure logic of the Thread-Post
server (`app.js`), a small Express application where users register, sign in,
set a profile picture, write posts, edit them and like them. Every
state-changing route becomes a pure function from a store and a request to a
new store and a response, with the password-hashing and token libraries
abstracted as parameters.

- `likes.dfy` (module `Likes`): the like toggle. It is an array `indexOf`,
  then either a `push` at the end or a `splice` of one element.
- `entities.dfy` (module `Entities`): users keyed by e-mail, posts keyed by
  identifier, and the store invariant `Valid`, proved preserved by each request
  handled on its own. The invariant says that users
  are filed under their own e-mail and have distinct ids. Posts are owned by
  registered users and their likes hold no duplicates. A user's `posts` list
  names existing posts that the user owns, each once.
- `auth.dfy` (module `Auth`): the hashing library as `Hasher`
  (`hash(password, salt)`, `compare`), the token library as `TokenService`
  (`sign`, `verify`), and the `isLoggedIn` middleware as `SessionGate`. It has
  three outcomes: `Redirect`, `ClearAndRedirect` and `Proceed(identity)`. Two
  predicates state the assumptions the application makes about the libraries:
  - `HashSound`: a password matches any hash made from it.
  - `TokensSound`: a freshly signed token is non-empty and decodes to its claims.
- `handlers.dfy` (module `Handlers`): these routes:
  - `POST /register`, `POST /login`, `GET /logout`
  - `POST /upload`, `POST /post`, `POST /update/:postId`, `GET /like/:postId`
  - `Handle`, which sends the session-protected routes through the gate.
- `properties.dfy` (module `Properties`): lemmas that relate several requests,
  and the proof that every request preserves `Valid`.

Behaviour of the code that one might not expect, and that the model keeps:
- An empty `token` cookie is JavaScript-falsy. It is treated like a missing one.
- `POST /update/:postId` for a post that does not exist is no error.
  `findByIdAndUpdate` returns null, and the handler still redirects to
  `/profile`.
- `POST /register` stores the new user before it signs the token. A signing
  failure answers 500 but leaves the user registered.
- Reading a property of a document that was not found throws, and the handler
  answers 500. This applies to the user named by the token in `/upload` and
  `/post`, to the post in `/like`, and to `req.file` when no file was uploaded.
- Likes are an ordered array, not a set. A present id is removed at its first
  occurrence, and an absent one is appended at the end.
- No ownership check is made on edit or like, and the model adds none.
- The hash is not assumed collision-free. `compare(p2, hash(p))` may hold for
  `p2 != p`, because bcrypt reads only the first 72 bytes of a password.

## Model

| member | source | states |
|---|---|---|
| Likes.IndexOf | app.js:79 | returns -1 exactly when the id is absent; otherwise the position of its first occurrence |
| Likes.RemoveAt | app.js:82 | `splice(i, 1)` drops the element at `i` and shifts the rest down by one, keeping their order |
| Likes.Toggle | app.js:79-83 | an absent id is appended at the end; a present one is removed once: one element fewer, multiset minus that id |
| Likes.TogglePresent | app.js:81-82 | a present id is removed at exactly its first occurrence; all other ids keep their relative order |
| Likes.ToggleMembership | app.js:79-83 | on a duplicate-free list, the toggled id is a member afterwards iff it was not before; every other id keeps its membership |
| Likes.ToggleKeepsNoDup | app.js:79-83 | the toggle preserves "no duplicates in likes" |
| Likes.ToggleIsSetToggle | app.js:79-83 | on a duplicate-free list the toggle agrees with the reference "set" toggle: a present id is dropped (`Without`: every other element kept, in order), an absent one appended |
| Likes.ToggleTwiceAbsent | app.js:79-83 | liking then unliking from the unliked state restores the exact list |
| Likes.ToggleTwicePresent | app.js:79-83 | unliking then liking from the liked state restores the same set of ids, with the id moved to the end |
| Auth.SessionGate | app.js:22-36 | no or empty cookie gives Redirect; a token failing verification gives ClearAndRedirect; a verifying token gives Proceed with the decoded payload |
| Auth.SignedTokenProceeds | app.js:29-32 | a token the service signed passes the gate with exactly the claims it was signed with |
| Handlers.Register | app.js:102-131 | taken e-mail: 400 "User already exists", store unchanged; fresh e-mail: exactly one user added, holding the form's username, name, e-mail and age, the hash of the password under the generated salt, no picture, no posts; other users and all posts unchanged; success sets a token signed over {email, userId} and redirects to /profile; a signing failure answers 500 with the user still stored |
| Handlers.Login | app.js:133-158 | store unchanged in every case; unknown e-mail: 404; failed compare: 401; a signing failure after a matching compare: 500; otherwise a token over the stored user's {email, userId} and a redirect to /profile |
| Handlers.Upload | app.js:160-170 | sets only the signed-in user's `dp`; other users and all posts unchanged; unknown user or no file: 500 with no change |
| Handlers.CreatePost | app.js:172-187 | adds one post owned by the user's id with the given content and no likes; appends its id to the end of that user's `posts` and changes nothing else; unknown user or a taken post id: 500 with no change |
| Handlers.UpdatePost | app.js:189-197 | replaces only `content` of the post, keeping owner and likes; other posts and all users unchanged; a missing post leaves the store unchanged; always redirects to /profile |
| Handlers.Like | app.js:76-90 | missing post: 500 with no change; otherwise only that post's likes change: an absent requester is appended, a present one removed once |
| Handlers.Handle | app.js:22-36 | a guarded request changes the store only when its token verifies, and then runs its route on behalf of the decoded claims; a missing or empty cookie redirects to /login keeping the cookie; a bad token clears it; logout clears it; register and login requests reach their handlers, and login never changes the store |
| Handlers.Perform | app.js:160-197 | every protected route answers either the redirect to /profile or 500, and a 500 leaves the store unchanged |
| Properties.RegisterThenLogin | app.js:111-150 | given sound hash and token libraries, signing in with the credentials of a successful registration redirects to /profile with a cookie that decodes to the new user's e-mail and id |
| Properties.SignedSessionRunsHandler | app.js:29-32 | a request carrying a token the service signed runs its route's handler on behalf of exactly the claims in that token |
| Properties.RegisterTwice | app.js:106-118 | once a registration has stored an e-mail, even one whose token signing then failed, registering it again gives 400 and changes nothing |
| Properties.RetryAfterSignFailure | app.js:106-129 | a registration whose signing fails answers 500 but keeps the user, so a retry with the same e-mail answers 400 |
| Properties.RegisterOpensSession | app.js:120-126 | given a sound token library, the cookie set by registration passes the gate with the new user's e-mail and id |
| Properties.NoSessionNoEffect | app.js:25-27 | every protected route without a session cookie redirects to /login with the store untouched |
| Properties.BadTokenLikeMissing | app.js:29-35 | a token failing verification gets the same store and redirect as a missing one, except that the cookie is cleared |
| Properties.LikeTwiceRestores | app.js:78-84 | two likes of a post by the same user, from the unliked state, restore the whole store exactly |
| Properties.UnlikeThenLike | app.js:78-84 | on a valid store, unliking then liking leaves the same likers, with the requester last |
| Properties.RegisterPreservesValid | app.js:111-118 | registration preserves the store invariant |
| Properties.UploadPreservesValid | app.js:162-164 | upload preserves the store invariant |
| Properties.CreatePostPreservesValid | app.js:174-181 | post creation preserves the store invariant, including the owner's `posts` list naming owned posts once each |
| Properties.UpdatePostPreservesValid | app.js:191 | editing preserves the store invariant |
| Properties.LikePreservesValid | app.js:78-84 | the like toggle preserves the store invariant, in particular duplicate-free likes |
| Properties.HandlePreservesValid | app.js:22-197 | every request, routed through the session gate, preserves the store invariant |

## Left out

- View routes (`/`, `/login`, `/profile`, `/profile/upload`, `/profile/image/:userImage`, `/createPost`, `/edit/:postId`): they only read and render templates.
- Static files, body parsing, cookie parsing, `app.listen` and logging: framework plumbing.
- bcrypt and JWT internals: `Hasher` and `TokenService` are parameters. The cost factor, the secret and the expiry are inside them. Token expiry is modelled only as `verify` returning no claims.
- Multer file storage and dotenv configuration: I/O and environment. The stored filename arrives as the `SetPicture` file.
- Identifier generation and salts: they come in as `Generated`. A generated id already in use gets the datastore's duplicate-key error, which is 500.
- A path id that does not cast to an ObjectId makes mongoose throw. The model takes every path id as a well-formed identifier.
- Datastore failures other than the ones the code itself provokes, and partial failure between two writes of one handler. An example is `/post` creating the post and then failing to save the user.
- Mongoose schema validation and casting of form fields (`age`, missing fields): the user and post schema files are not part of this model. Form fields are modelled as strings. The JSON and extended URL-encoded body parsers (app.js:16-17) also accept objects, such as `{"$ne": ""}` for `email`, and `findOne({ email })` (app.js:106, 137) reads such an object as a query operator. A login sent that way checks the password against whichever user matches instead of answering 404. The model does not cover this.
- Concurrent requests: not modelled. `Valid`, and in particular duplicate-free likes, is proved only for requests handled one at a time. The outcome of interleaved requests depends on how the datastore library turns `push`, `splice` and `save` into updates, which the code does not control. A race, such as a double-clicked like, can lose a toggle, record an id twice, or fail with a version error and answer 500.
- HTTP 201 and 200 on the register and login success paths: the redirect replaces them, so success is modelled as "cookie set + redirect".
- `TokenService.sign` is a function of the claims alone: the issue and expiry times `jwt.sign` stamps from the clock are not modelled. Two signings of the same claims therefore give the same token in the model, which the real library does not promise.
- Handlers.Register: a new user's `dp` is `None`, which assumes that the user schema declares no default picture; that schema is not part of this model.
