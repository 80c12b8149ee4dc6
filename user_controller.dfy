/** The server's authentication controller: `register` and `login` over the
    user collection, with password hashing and token signing taken as given
    functions. */
module UserController {
  import opened Wrappers
  import opened Text

  /** A bcrypt salt; `bcrypt.genSalt` draws it at random, so callers supply it. */
  type Salt = string

  /** What the store keeps in the `password` field: a hash, never a plaintext
      password (which is a `string`). */
  datatype Digest = Digest(text: string)

  /** `bcrypt.hash` and `bcrypt.compare`, as given functions. */
  datatype Hasher = Hasher(hash: (string, Salt) -> Digest, verify: (string, Digest) -> bool)

  /** The one fact the controller relies on: a password matches any hash made
      from it, whatever the salt. */
  ghost predicate Sound(bcrypt: Hasher) {
    forall password, salt :: bcrypt.verify(password, bcrypt.hash(password, salt))
  }

  /** A document of the user collection. `avatar` is `None` until one is set. */
  datatype User = User(id: nat, username: string, email: string, password: Digest, avatar: Option<string>)

  /** The fields of a user the login response exposes. */
  datatype PublicUser = PublicUser(id: nat, username: string, email: string, avatar: Option<string>)

  /** The claims signed into a session token. */
  datatype Claims = Claims(id: nat, username: string)

  /** `jwt.sign(claims, secret, { expiresIn })`; the secret and the signature
      are not modelled. */
  datatype Token = Token(claims: Claims, expiresIn: string)

  /** JSON bodies the controller sends. None of them has a field for a
      password or a digest. */
  datatype Body =
    | Rejected(msg: string)
    | LoggedIn(user: PublicUser, token: Token)
    | Registered(msg: string)
  {
    /** The `status` field of the body. */
    function Status(): bool {
      !Rejected?
    }
  }

  datatype Response = Response(code: nat, body: Body)

  const TokenLifetime: string := "24h"
  const InvalidCredentials: Response := Response(400, Rejected("Invalid credentials"))
  const UserExists: Response := Response(400, Rejected("User already exists with this username or email"))
  const RegistrationSuccessful: Response := Response(201, Registered("Registration successful"))

  /** The public part of a user: everything but the password. */
  function Summary(u: User): PublicUser {
    PublicUser(u.id, u.username, u.email, u.avatar)
  }

  /** `User.findOne({ username })`: the index of the first user with that
      username. */
  function FindByUsername(users: seq<User>, username: string): (r: Option<nat>)
    ensures r.Some? ==> r.value < |users| && users[r.value].username == username
    ensures r.Some? ==> forall k :: 0 <= k < r.value ==> users[k].username != username
    ensures r.None? ==> forall k :: 0 <= k < |users| ==> users[k].username != username
  {
    if users == [] then None
    else if users[0].username == username then Some(0)
    else match FindByUsername(users[1..], username)
      case None => None
      case Some(i) => Some(i + 1)
  }

  /** Whether a user has the username or the e-mail. */
  predicate Collides(u: User, username: string, email: string) {
    u.username == username || u.email == email
  }

  /** `User.findOne({ $or: [{ username }, { email }] })`: the index of the
      first user sharing the username or the e-mail. */
  function FindCollision(users: seq<User>, username: string, email: string): (r: Option<nat>)
    ensures r.Some? ==> r.value < |users| && Collides(users[r.value], username, email)
    ensures r.None? <==> forall k :: 0 <= k < |users| ==> !Collides(users[k], username, email)
  {
    if users == [] then None
    else if Collides(users[0], username, email) then Some(0)
    else match FindCollision(users[1..], username, email)
      case None => None
      case Some(i) => Some(i + 1)
  }

  /** The user collection. `nextId` stands for the generator of `_id`
      values: every id in use is below it. */
  class UserStore {
    var users: seq<User>
    var nextId: nat

    /** Ids are fresh, and no two users share a username or an e-mail. */
    ghost predicate Valid()
      reads this
    {
      && (forall k :: 0 <= k < |users| ==> users[k].id < nextId)
      && (forall i, j :: 0 <= i < j < |users| ==>
            && users[i].id != users[j].id
            && users[i].username != users[j].username
            && users[i].email != users[j].email)
    }

    constructor ()
      ensures Valid() && users == [] && nextId == 0
    {
      users := [];
      nextId := 0;
    }

    /** exports.register. The request fields are stored as given: the
        controller itself checks nothing but the collision. */
    method Register(bcrypt: Hasher, username: string, email: string, password: string, salt: Salt)
      returns (response: Response)
      requires Valid()
      modifies this
      ensures Valid()
      ensures response == UserExists || response == RegistrationSuccessful
      ensures (exists k :: 0 <= k < |old(users)| && Collides(old(users)[k], username, email))
        ==> response == UserExists && users == old(users) && nextId == old(nextId)
      ensures (forall k :: 0 <= k < |old(users)| ==> !Collides(old(users)[k], username, email))
        ==> && response == RegistrationSuccessful
            && users == old(users) + [User(old(nextId), username, email, bcrypt.hash(password, salt), None)]
            && nextId == old(nextId) + 1
    {
      var existing := FindCollision(users, username, email);
      if existing.Some? {
        return UserExists;
      }
      var hashedPassword := bcrypt.hash(password, salt);
      var user := User(nextId, username, email, hashedPassword, None);
      users := users + [user];
      nextId := nextId + 1;
      response := RegistrationSuccessful;
    }

    /** exports.login. It only reads the store. */
    function Login(bcrypt: Hasher, username: string, password: string): (response: Response)
      reads this
      ensures response.code == 200 || response == InvalidCredentials
      ensures response.body.Status() <==> response.code == 200
      ensures response.code == 200 ==>
        exists k :: 0 <= k < |users| && users[k].username == username
          && bcrypt.verify(password, users[k].password)
          && response.body == LoggedIn(Summary(users[k]), Token(Claims(users[k].id, username), TokenLifetime))
    {
      match FindByUsername(users, username)
      case None => InvalidCredentials
      case Some(k) =>
        var user := users[k];
        if !bcrypt.verify(password, user.password) then InvalidCredentials
        else
          var token := Token(Claims(user.id, user.username), TokenLifetime);
          Response(200, LoggedIn(Summary(user), token))
    }
  }

  /** An unknown username and a known one with a wrong password get the same
      response, so a caller cannot tell which happened. */
  lemma UnknownUserLooksLikeWrongPassword(
    store: UserStore, bcrypt: Hasher, unknown: string, p1: string, known: string, p2: string)
    requires forall k :: 0 <= k < |store.users| ==> store.users[k].username != unknown
    requires exists k :: 0 <= k < |store.users| && store.users[k].username == known
    requires forall k :: 0 <= k < |store.users| && store.users[k].username == known
               ==> !bcrypt.verify(p2, store.users[k].password)
    ensures store.Login(bcrypt, unknown, p1) == store.Login(bcrypt, known, p2) == InvalidCredentials
  {
  }

  /** In a valid store login succeeds exactly when the user exists and the
      password matches that user's hash. */
  lemma LoginSucceedsIff(store: UserStore, bcrypt: Hasher, username: string, password: string)
    requires store.Valid()
    ensures store.Login(bcrypt, username, password).code == 200
        <==> exists k :: 0 <= k < |store.users| && store.users[k].username == username
               && bcrypt.verify(password, store.users[k].password)
  {
  }

  /** Of the stored hash, a login response reveals only whether it matched:
      two stores that differ only in their digests, with the same verdict for
      the password given, answer the same. */
  lemma LoginRevealsOnlyVerdict(s1: UserStore, s2: UserStore, bcrypt: Hasher, username: string, password: string)
    requires |s1.users| == |s2.users|
    requires forall k :: 0 <= k < |s1.users| ==>
      && Summary(s1.users[k]) == Summary(s2.users[k])
      && bcrypt.verify(password, s1.users[k].password) == bcrypt.verify(password, s2.users[k].password)
    ensures s1.Login(bcrypt, username, password) == s2.Login(bcrypt, username, password)
  {
  }

  /** The plaintext password never reaches the response: any two passwords
      that match give the same answer. */
  lemma LoginIgnoresWhichPasswordMatched(store: UserStore, bcrypt: Hasher, username: string, p1: string, p2: string)
    requires forall k :: 0 <= k < |store.users| ==>
      bcrypt.verify(p1, store.users[k].password) == bcrypt.verify(p2, store.users[k].password)
    ensures store.Login(bcrypt, username, p1) == store.Login(bcrypt, username, p2)
  {
  }

  /** A user appended under a new username is the one a lookup finds. */
  lemma {:induction false} FindAppended(users: seq<User>, user: User)
    requires forall k :: 0 <= k < |users| ==> users[k].username != user.username
    ensures FindByUsername(users + [user], user.username) == Some(|users|)
  {
    if users != [] {
      assert (users + [user])[1..] == users[1..] + [user];
      FindAppended(users[1..], user);
    }
  }

  /** A stored identity blocks every later registration that reuses its
      username or its e-mail. */
  lemma StoredUserCollides(users: seq<User>, user: User, username: string, email: string)
    requires username == user.username || email == user.email
    ensures FindCollision(users + [user], username, email).Some?
  {
    assert Collides((users + [user])[|users|], username, email);
  }

  /** Register is not idempotent: once it has succeeded, registering the same
      username (with any e-mail) or the same e-mail (with any username) fails
      and leaves the store as it was. */
  method RegisterTwice(store: UserStore, bcrypt: Hasher, username: string, email: string,
                       otherUsername: string, otherEmail: string, password: string, salt: Salt)
    returns (first: Response, sameName: Response, sameEmail: Response)
    requires store.Valid()
    requires forall k :: 0 <= k < |store.users| ==> !Collides(store.users[k], username, email)
    modifies store
    ensures first == RegistrationSuccessful
    ensures sameName == UserExists && sameEmail == UserExists
    ensures store.users == old(store.users) + [User(old(store.nextId), username, email, bcrypt.hash(password, salt), None)]
  {
    first := store.Register(bcrypt, username, email, password, salt);
    ghost var added := store.users[|store.users| - 1];
    assert store.users == old(store.users) + [added];
    StoredUserCollides(old(store.users), added, username, otherEmail);
    sameName := store.Register(bcrypt, username, otherEmail, password, salt);
    StoredUserCollides(old(store.users), added, otherUsername, email);
    sameEmail := store.Register(bcrypt, otherUsername, email, password, salt);
  }

  /** With a sound hasher, a user can log in right after registering, and the
      session names the new identity. */
  method RegisterThenLogin(store: UserStore, bcrypt: Hasher, username: string, email: string,
                           password: string, salt: Salt)
    returns (registered: Response, loggedIn: Response)
    requires store.Valid() && Sound(bcrypt)
    requires forall k :: 0 <= k < |store.users| ==> !Collides(store.users[k], username, email)
    modifies store
    ensures registered == RegistrationSuccessful
    ensures loggedIn == Response(200, LoggedIn(
      PublicUser(old(store.nextId), username, email, None),
      Token(Claims(old(store.nextId), username), TokenLifetime)))
  {
    registered := store.Register(bcrypt, username, email, password, salt);
    var user := User(old(store.nextId), username, email, bcrypt.hash(password, salt), None);
    FindAppended(old(store.users), user);
    loggedIn := store.Login(bcrypt, username, password);
  }
}
