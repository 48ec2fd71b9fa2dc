/**
 The two document collections the application keeps: users, looked up by
 their e-mail address, and posts, looked up by their identifier. The user
 and post schemas themselves (`./models/user`, `./models/post`) are not part
 of this model; the fields below are the ones the handlers read and write.
 */
module Entities {
  import opened Maybe
  import opened Likes

  /** Document identifiers. The datastore compares them by value, so an
      identifier decoded from a session token matches the stored one. */
  datatype UserId = UserId(oid: string)
  datatype PostId = PostId(oid: string)

  /** A password hash produced by the hashing library, kept apart from
      plaintext strings by its type. That the stored value is the hash of the
      submitted password is stated by the contract of `Register`. */
  datatype Digest = Digest(text: string)

  datatype User = User(
    id: UserId,
    username: string,
    name: string,
    email: string,
    age: string,
    password: Digest,
    dp: Option<string>,
    posts: seq<PostId>)

  datatype Post = Post(user: UserId, content: string, likes: seq<UserId>)

  datatype Store = Store(users: map<string, User>, posts: map<PostId, Post>)

  /** Identifiers of all registered users. */
  function UserIds(s: Store): set<UserId> {
    set e | e in s.users :: s.users[e].id
  }

  /** Every user is filed under its own e-mail address. */
  ghost predicate KeyedByEmail(s: Store) {
    forall e :: e in s.users ==> s.users[e].email == e
  }

  /** No two users share an identifier. */
  ghost predicate DistinctIds(s: Store) {
    forall e1, e2 :: e1 in s.users && e2 in s.users && s.users[e1].id == s.users[e2].id ==> e1 == e2
  }

  /** Every post is owned by a registered user and its likes hold no duplicates. */
  ghost predicate PostsWellFormed(s: Store) {
    forall p :: p in s.posts ==> s.posts[p].user in UserIds(s) && NoDup(s.posts[p].likes)
  }

  /** A user's `posts` list names existing posts that user owns, each once. */
  ghost predicate OwnedPostsWellFormed(s: Store) {
    forall e :: e in s.users ==>
      && NoDup(s.users[e].posts)
      && forall k :: 0 <= k < |s.users[e].posts| ==>
           s.users[e].posts[k] in s.posts && s.posts[s.users[e].posts[k]].user == s.users[e].id
  }

  /** The store invariant every handler preserves. */
  ghost predicate Valid(s: Store) {
    KeyedByEmail(s) && DistinctIds(s) && PostsWellFormed(s) && OwnedPostsWellFormed(s)
  }
}
