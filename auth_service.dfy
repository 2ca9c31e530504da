/**
 * `AuthService`: `register` and `authenticate` over the `users` table, with
 * the key "user" + username as a read-through, write-back cache of the
 * account. bcrypt and the JWT signer are foreign calls, given as function
 * values.
 */
module Auth {
  import opened Wrappers
  import opened Entities
  import opened Cache

  /** The JWT payload `{username, password}`; `password` is whatever `user.password` holds. */
  datatype Payload = Payload(username: string, password: Option<string>)

  datatype Token = Token(accessToken: string)

  /** `bcrypt.hash`, `bcrypt.compare` (on a string hash) and `jwtService.sign`. */
  datatype Crypto = Crypto(hash: string -> string, verify: (string, string) -> bool, sign: Payload -> string)

  /** A hash made from a password verifies against that password. */
  ghost predicate HashSound(c: Crypto)
  {
    forall p :: c.verify(p, c.hash(p))
  }

  /**
   * `bcrypt.compare(plain, hash)`: bcryptjs rejects a hash that is not a
   * string ("Illegal arguments: string, undefined"); that error is no
   * `HttpException`, so the client gets 500.
   */
  function Compare(c: Crypto, plain: string, hash: Option<string>): (r: Result<bool>)
    ensures r.Err? <==> hash.None?
    ensures r.Err? ==> r.failure == InternalError
    ensures hash.Some? ==> r == Ok(c.verify(plain, hash.value))
  {
    match hash
    case None => Err(InternalError)
    case Some(h) => Ok(c.verify(plain, h))
  }

  /** The record `authenticate` works with: a parsed cache value or a table row. */
  datatype Account = Account(id: int, username: string, password: Option<string>)

  function FromRow(u: User): Account
  {
    Account(u.id, u.username, Some(u.password))
  }

  /** `JSON.parse` of a cached value; an array has no `id`, `username` or `password` (0, "" and None stand in). */
  function Parsed(v: CacheVal): Account
  {
    match v
    case UserInfo(id, username, password) => Account(id, username, password)
    case Articles(_) => Account(0, "", None)
  }

  /**
   * How the account record is written to the cache. `AsWritten` is the
   * source's `{id, username}`; `HashCached` also keeps the hash, which the
   * login check needs (see the finding on `authenticate`).
   */
  datatype Variant = AsWritten | HashCached

  function CachedAccount(a: Account, v: Variant): CacheVal
  {
    UserInfo(a.id, a.username, if v == AsWritten then None else a.password)
  }

  /** `generateJwt`: signs `{username, password}`. */
  function GenerateJwt(c: Crypto, a: Account): Token
  {
    Token(c.sign(Payload(a.username, a.password)))
  }

  /** The `users` table keyed by username (a UNIQUE column), its next serial id, and the Redis key space. */
  datatype AuthWorld = AuthWorld(users: map<string, User>, nextId: int, cache: map<string, Entry>)

  /** Every account sits under its own username, and every id lies below the next serial value. */
  ghost predicate UsersWellFormed(w: AuthWorld)
  {
    forall n :: n in w.users ==> w.users[n].username == n && w.users[n].id < w.nextId
  }

  /** `register`: refuse a taken name; else store the hashed account, cache its record and sign a token. */
  function RegisterStep(c: Crypto, w: AuthWorld, data: UserDto, v: Variant): (r: (Result<Token>, AuthWorld))
    ensures r.0.Err? <==> data.username in w.users
    ensures r.0.Err? ==> r.0.failure == UserExists && r.1 == w
    ensures r.0.Ok? ==> r.1.nextId == w.nextId + 1
                        && r.1.users == w.users[data.username := User(w.nextId, data.username, c.hash(data.password))]
    ensures r.0.Ok? ==> var a := Account(w.nextId, data.username, Some(c.hash(data.password)));
                        && r.0.value == GenerateJwt(c, a)
                        && r.1.cache == w.cache[UserKey(data.username) := Entry(CachedAccount(a, v), Ttl)]
  {
    if data.username in w.users then (Err(UserExists), w)
    else
      var user := User(w.nextId, data.username, c.hash(data.password));
      (Ok(GenerateJwt(c, FromRow(user))),
       AuthWorld(w.users[data.username := user], w.nextId + 1,
                 w.cache[UserKey(data.username) := Entry(CachedAccount(FromRow(user), v), Ttl)]))
  }

  /** The account `authenticate` loads: the cached record on a hit, else the table's row, else none. */
  function LoadAccount(w: AuthWorld, username: string): (r: Option<Account>)
    ensures r.None? <==> UserKey(username) !in w.cache && username !in w.users
    ensures UserKey(username) !in w.cache && username in w.users ==> r == Some(FromRow(w.users[username]))
    ensures UserKey(username) in w.cache ==> r == Some(Parsed(w.cache[UserKey(username)].value))
  {
    if UserKey(username) in w.cache then Some(Parsed(w.cache[UserKey(username)].value))
    else if username in w.users then Some(FromRow(w.users[username]))
    else None
  }

  /** `authenticate`: load the account, check the password, then rewrite the record and sign a token. */
  function AuthenticateStep(c: Crypto, w: AuthWorld, data: UserDto, v: Variant): (r: (Result<Token>, AuthWorld))
    ensures r.1.users == w.users && r.1.nextId == w.nextId
    ensures r.0.Ok? <==> LoadAccount(w, data.username).Some?
                         && Compare(c, data.password, LoadAccount(w, data.username).value.password) == Ok(true)
    ensures r.0.Err? ==> r.1 == w && r.0.failure in {UserNotFound, InternalError, InvalidCredentials}
    ensures r.0.Err? && r.0.failure == UserNotFound <==> LoadAccount(w, data.username).None?
    ensures r.0.Err? && r.0.failure == InternalError <==>
              LoadAccount(w, data.username).Some? && LoadAccount(w, data.username).value.password.None?
    ensures r.0.Err? && r.0.failure == InvalidCredentials <==>
              LoadAccount(w, data.username).Some? && Compare(c, data.password, LoadAccount(w, data.username).value.password) == Ok(false)
    ensures forall k :: k != UserKey(data.username) ==> (k in r.1.cache <==> k in w.cache) && (k in r.1.cache ==> r.1.cache[k] == w.cache[k])
  {
    match LoadAccount(w, data.username)
    case None => (Err(UserNotFound), w)
    case Some(a) =>
      match Compare(c, data.password, a.password)
      case Err(f) => (Err(f), w)
      case Ok(valid) =>
        if !valid then (Err(InvalidCredentials), w)
        else (Ok(GenerateJwt(c, a)), w.(cache := w.cache[UserKey(data.username) := Entry(CachedAccount(a, v), Ttl)]))
  }

  // ---------------------------------------------------------------------------
  // What the steps promise
  // ---------------------------------------------------------------------------

  /** A taken username is refused with BadRequest, and nothing changes. */
  lemma RegisterRefusesDuplicate(c: Crypto, w: AuthWorld, data: UserDto, v: Variant)
    requires data.username in w.users
    ensures RegisterStep(c, w, data, v) == (Err(UserExists), w)
  {
  }

  /**
   * A fresh username adds exactly one account (with the hashed password) and
   * writes exactly one key, "user" + username, with `{id, username}` and
   * expiry 3600.
   */
  lemma RegisterAddsOneAccount(c: Crypto, w: AuthWorld, data: UserDto)
    requires data.username !in w.users
    ensures var (r, w') := RegisterStep(c, w, data, AsWritten);
            var user := w'.users[data.username];
            && r.Ok?
            && w'.users.Keys == w.users.Keys + {data.username} && |w'.users| == |w.users| + 1
            && (forall n :: n in w.users ==> w'.users[n] == w.users[n])
            && user.username == data.username && user.password == c.hash(data.password)
            && w'.cache == w.cache[UserKey(data.username) := Entry(UserInfo(user.id, data.username, None), Ttl)]
  {
  }

  /** On a cache hit the table is never consulted: the answer and the new state do not depend on it. */
  lemma AuthenticateIgnoresTableOnHit(c: Crypto, w: AuthWorld, data: UserDto, v: Variant, users': map<string, User>)
    requires UserKey(data.username) in w.cache
    ensures AuthenticateStep(c, w, data, v).0 == AuthenticateStep(c, w.(users := users'), data, v).0
    ensures AuthenticateStep(c, w, data, v).1.cache == AuthenticateStep(c, w.(users := users'), data, v).1.cache
  {
  }

  /** Neither cached nor stored: NotFound, and no key is written. */
  lemma AuthenticateUnknownUser(c: Crypto, w: AuthWorld, data: UserDto, v: Variant)
    requires UserKey(data.username) !in w.cache && data.username !in w.users
    ensures AuthenticateStep(c, w, data, v) == (Err(UserNotFound), w)
  {
  }

  /** Every failed login leaves the table and the cache as they were; only success rewrites the key, with expiry 3600. */
  lemma AuthenticateWritesOnlyOnSuccess(c: Crypto, w: AuthWorld, data: UserDto, v: Variant)
    ensures var (r, w') := AuthenticateStep(c, w, data, v);
            && w'.users == w.users && w'.nextId == w.nextId
            && (r.Err? ==> w'.cache == w.cache)
            && (r.Ok? ==> && LoadAccount(w, data.username).Some?
                          && r.value == GenerateJwt(c, LoadAccount(w, data.username).value)
                          && w'.cache == w.cache[UserKey(data.username) := Entry(CachedAccount(LoadAccount(w, data.username).value, v), Ttl)])
  {
  }

  /**
   * The token `register` hands back signs the username together with the
   * password hash it just stored: the payload is built from the saved row.
   */
  lemma RegisterTokenSignsHash(c: Crypto, w: AuthWorld, data: UserDto, v: Variant)
    requires data.username !in w.users
    ensures RegisterStep(c, w, data, v).0 == Ok(Token(c.sign(Payload(data.username, Some(c.hash(data.password))))))
  {
  }

  /** A wrong password against a stored hash is Unauthorized. */
  lemma AuthenticateRejectsWrongPassword(c: Crypto, w: AuthWorld, data: UserDto, v: Variant)
    requires UserKey(data.username) !in w.cache && data.username in w.users
    requires !c.verify(data.password, w.users[data.username].password)
    ensures AuthenticateStep(c, w, data, v) == (Err(InvalidCredentials), w)
  {
  }

  /** No cached account record carries a password hash. */
  ghost predicate NoCachedHashes(cache: map<string, Entry>)
  {
    forall k :: k in cache && cache[k].value.UserInfo? ==> cache[k].value.password.None?
  }

  /** As written, both operations keep every cached account record free of the hash. */
  lemma AsWrittenNeverCachesHash(c: Crypto, w: AuthWorld, data: UserDto)
    requires NoCachedHashes(w.cache)
    ensures NoCachedHashes(RegisterStep(c, w, data, AsWritten).1.cache)
    ensures NoCachedHashes(AuthenticateStep(c, w, data, AsWritten).1.cache)
  {
  }

  /** As written, every login that finds the account cached fails with 500, whatever the password. */
  lemma AsWrittenCacheHitFails(c: Crypto, w: AuthWorld, data: UserDto)
    requires NoCachedHashes(w.cache) && UserKey(data.username) in w.cache
    ensures AuthenticateStep(c, w, data, AsWritten) == (Err(InternalError), w)
  {
    assert Parsed(w.cache[UserKey(data.username)].value).password.None?;
  }

  /** As written: right after registering, logging in with the same password fails with 500. */
  lemma {:induction false} RegisteredLoginFailsAsWritten(c: Crypto, w: AuthWorld, name: string, password: string)
    requires HashSound(c) && name !in w.users
    ensures var w1 := RegisterStep(c, w, UserDto(name, password), AsWritten).1;
            AuthenticateStep(c, w1, UserDto(name, password), AsWritten).0 == Err(InternalError)
  {
    var w1 := RegisterStep(c, w, UserDto(name, password), AsWritten).1;
    assert LoadAccount(w1, name).value.password == None;
  }

  /** Every cached account record is the table's row for that username, hash included. */
  ghost predicate UserCacheCoherent(w: AuthWorld)
  {
    forall n :: UserKey(n) in w.cache ==> CachedMatchesRow(w, n)
  }

  ghost predicate CachedMatchesRow(w: AuthWorld, n: string)
    requires UserKey(n) in w.cache
  {
    n in w.users && w.cache[UserKey(n)].value == CachedAccount(FromRow(w.users[n]), HashCached)
  }

  /** Corrected: register keeps every cached account record equal to its row. */
  lemma {:induction false} CorrectedRegisterKeepsCoherence(c: Crypto, w: AuthWorld, data: UserDto)
    requires UsersWellFormed(w) && UserCacheCoherent(w)
    ensures var w' := RegisterStep(c, w, data, HashCached).1; UsersWellFormed(w') && UserCacheCoherent(w')
  {
    if data.username !in w.users {
      var user := User(w.nextId, data.username, c.hash(data.password));
      var w' := AuthWorld(w.users[data.username := user], w.nextId + 1,
                          w.cache[UserKey(data.username) := Entry(CachedAccount(FromRow(user), HashCached), Ttl)]);
      assert RegisterStep(c, w, data, HashCached).1 == w';
      AddAccountKeepsWellFormed(w, user);
      AddAccountKeepsCoherence(w, user);
    }
  }

  lemma AddAccountKeepsWellFormed(w: AuthWorld, user: User)
    requires UsersWellFormed(w) && user.id == w.nextId
    ensures UsersWellFormed(AuthWorld(w.users[user.username := user], w.nextId + 1, w.cache))
  {
  }

  lemma {:induction false} AddAccountKeepsCoherence(w: AuthWorld, user: User)
    requires UserCacheCoherent(w)
    ensures UserCacheCoherent(AuthWorld(w.users[user.username := user], w.nextId + 1,
              w.cache[UserKey(user.username) := Entry(CachedAccount(FromRow(user), HashCached), Ttl)]))
  {
    var users' := w.users[user.username := user];
    var cache' := w.cache[UserKey(user.username) := Entry(CachedAccount(FromRow(user), HashCached), Ttl)];
    var w' := AuthWorld(users', w.nextId + 1, cache');
    forall n | UserKey(n) in cache'
      ensures CachedMatchesRow(w', n)
    {
      if n != user.username {
        KeyOfOther(n, user.username);
        assert CachedMatchesRow(w, n);
      }
    }
  }

  /** Corrected: authenticate keeps every cached account record equal to its row. */
  lemma {:induction false} CorrectedAuthenticateKeepsCoherence(c: Crypto, w: AuthWorld, data: UserDto)
    requires UsersWellFormed(w) && UserCacheCoherent(w)
    ensures var w' := AuthenticateStep(c, w, data, HashCached).1; UsersWellFormed(w') && UserCacheCoherent(w')
  {
    var w' := AuthenticateStep(c, w, data, HashCached).1;
    if w'.cache != w.cache {
      var a := LoadAccount(w, data.username).value;
      assert a == FromRow(w.users[data.username]);
      assert w'.cache == w.cache[UserKey(data.username) := Entry(CachedAccount(a, HashCached), Ttl)];
      forall n | UserKey(n) in w'.cache
        ensures CachedMatchesRow(w', n)
      {
        if n != data.username {
          KeyOfOther(n, data.username);
          assert CachedMatchesRow(w, n);
        }
      }
    }
  }

  lemma KeyOfOther(n: string, m: string)
    requires n != m
    ensures UserKey(n) != UserKey(m)
  {
    if UserKey(n) == UserKey(m) { UserKeyInjective(n, m); }
  }

  /**
   * Corrected: with the hash cached, the answer to a login never depends on
   * whether the account was cached; it is the answer the table alone gives.
   */
  lemma {:induction false} CorrectedLoginIgnoresCache(c: Crypto, w: AuthWorld, data: UserDto)
    requires UsersWellFormed(w) && UserCacheCoherent(w)
    ensures AuthenticateStep(c, w, data, HashCached).0
         == AuthenticateStep(c, w.(cache := w.cache - {UserKey(data.username)}), data, HashCached).0
  {
    var k := UserKey(data.username);
    if k in w.cache {
      assert CachedMatchesRow(w, data.username);
      assert LoadAccount(w, data.username) == Some(FromRow(w.users[data.username]));
    }
  }

  /** Corrected: right after registering, the same password logs in and any password the hash rejects is refused. */
  lemma {:induction false} RegisteredLoginSucceedsCorrected(c: Crypto, w: AuthWorld, name: string, password: string, attempt: string)
    requires HashSound(c) && name !in w.users
    ensures var w1 := RegisterStep(c, w, UserDto(name, password), HashCached).1;
            && AuthenticateStep(c, w1, UserDto(name, password), HashCached).0.Ok?
            && (!c.verify(attempt, c.hash(password)) ==>
                  AuthenticateStep(c, w1, UserDto(name, attempt), HashCached).0 == Err(InvalidCredentials))
  {
    var w1 := RegisterStep(c, w, UserDto(name, password), HashCached).1;
    assert LoadAccount(w1, name).value.password == Some(c.hash(password));
    assert c.verify(password, c.hash(password));
  }

  // ---------------------------------------------------------------------------
  // The service object
  // ---------------------------------------------------------------------------

  /**
   * The service over the `users` table and the shared Redis client. `format`
   * chooses the cached account record: `AsWritten` is the source's
   * `{id, username}`, `HashCached` the corrected record.
   */
  class AuthService {
    const crypto: Crypto
    const redis: RedisCache
    const format: Variant
    var users: map<string, User>
    var nextId: int

    /** The table invariant both formats keep: accounts under their own names, ids below the next serial. */
    ghost predicate Valid()
      reads this, redis
    {
      UsersWellFormed(Current())
    }

    constructor (crypto: Crypto, redis: RedisCache, format: Variant)
      ensures Valid()
      ensures this.crypto == crypto && this.redis == redis && this.format == format
      ensures users == map[] && nextId == 1
    {
      this.crypto := crypto;
      this.redis := redis;
      this.format := format;
      users := map[];
      nextId := 1;
    }

    function Current(): AuthWorld
      reads this, redis
    {
      AuthWorld(users, nextId, redis.entries)
    }

    method Register(data: UserDto) returns (r: Result<Token>)
      requires Valid()
      modifies this, redis
      ensures Valid()
      ensures (r, Current()) == RegisterStep(crypto, old(Current()), data, format)
      ensures format == HashCached && old(UserCacheCoherent(Current())) ==> UserCacheCoherent(Current())
    {
      ghost var w := Current();
      if format == HashCached && UserCacheCoherent(w) {
        CorrectedRegisterKeepsCoherence(crypto, w, data);
      }
      if data.username !in w.users {
        AddAccountKeepsWellFormed(w, User(w.nextId, data.username, crypto.hash(data.password)));
      }
      var existingUser := Lookup(users, data.username);
      if existingUser.Some? {
        return Err(UserExists);
      }
      var hashedPassword := crypto.hash(data.password);
      var user := User(nextId, data.username, hashedPassword);
      users := users[data.username := user];
      nextId := nextId + 1;
      var cacheKey := UserKey(data.username);
      redis.Set(cacheKey, CachedAccount(FromRow(user), format), Ttl);
      r := Ok(GenerateJwt(crypto, FromRow(user)));
    }

    method Authenticate(data: UserDto) returns (r: Result<Token>)
      requires Valid()
      modifies redis
      ensures Valid()
      ensures (r, Current()) == AuthenticateStep(crypto, old(Current()), data, format)
      ensures format == HashCached && old(UserCacheCoherent(Current())) ==> UserCacheCoherent(Current())
    {
      ghost var w := Current();
      if format == HashCached && UserCacheCoherent(w) {
        CorrectedAuthenticateKeepsCoherence(crypto, w, data);
      }
      var user: Option<Account>;
      var cacheKey := UserKey(data.username);
      var hashedUser := redis.Get(cacheKey);
      if hashedUser.Some? {
        user := Some(Parsed(hashedUser.value));
      } else {
        var row := Lookup(users, data.username);
        user := if row.Some? then Some(FromRow(row.value)) else None;
      }
      if user.None? {
        return Err(UserNotFound);
      }
      var isPasswordValid := Compare(crypto, data.password, user.value.password);
      if isPasswordValid.Err? {
        return Err(isPasswordValid.failure);
      }
      if !isPasswordValid.value {
        return Err(InvalidCredentials);
      }
      redis.Set(cacheKey, CachedAccount(user.value, format), Ttl);
      r := Ok(GenerateJwt(crypto, user.value));
    }
  }
}
