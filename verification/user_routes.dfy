/** The route handlers of users.routes.js that the model covers. Password
    hashing and checking are parameters: `hash` stands for `bcrypt.hash`
    and `verify(plain, stored)` for `bcrypt.compare`. */
module UserRoutes {
  import opened Common
  import opened Tables
  import opened Http

  /** The signing secret the login route hands to `jwt.sign`. */
  const JwtSecret: string := "secreto"

  /** `expiresIn: "1h"`, in seconds. */
  const TokenLifetime: nat := 3600

  /** No two users share an email. */
  predicate UniqueEmails(us: seq<User>)
  {
    forall i, j :: 0 <= i < j < |us| ==> us[i].email != us[j].email
  }

  // ---------------------------------------------------------------------------
  // POST /users/create
  // ---------------------------------------------------------------------------

  datatype CreateUserRequest = CreateUserRequest(name: Option<string>, email: Option<string>, password: Option<string>)

  /** `POST /users/create` with `newId` the generated uuid: 400 and no
      change when a field is falsy or the email is already registered,
      otherwise 201 and exactly the new user appended, with the hash of the
      password stored; the answer echoes the whole row, hash included. */
  function CreateUser(s: Store, req: CreateUserRequest, newId: string, hash: string -> string): (r: Outcome)
    ensures r.reply.status == BadRequest <==>
      !Truthy(req.name) || !Truthy(req.email) || !Truthy(req.password) || Occurs(s.usuarios, EmailColumn, req.email.value)
    ensures r.reply.status == BadRequest ==> r.store == s
    ensures r.reply.status != BadRequest ==>
      var u := User(newId, req.name.value, req.email.value, hash(req.password.value));
      r.reply == Reply(Created, CreatedUser(u)) &&
      r.store.plantas == s.plantas && r.store.servicios == s.servicios && r.store.historiales == s.historiales &&
      |r.store.usuarios| == |s.usuarios| + 1 && r.store.usuarios[..|s.usuarios|] == s.usuarios &&
      r.store.usuarios[|s.usuarios|] == u
  {
    if !Truthy(req.name) || !Truthy(req.email) || !Truthy(req.password) then Refuse(BadRequest, s)
    else if FirstWhere(s.usuarios, EmailColumn, req.email.value).Some? then Refuse(BadRequest, s)
    else
      var u := User(newId, req.name.value, req.email.value, hash(req.password.value));
      Outcome(Reply(Created, CreatedUser(u)), s.(usuarios := s.usuarios + [u]))
  }

  /** Registration keeps emails unique, whatever the generated id. */
  lemma CreateUserKeepsEmailsUnique(s: Store, req: CreateUserRequest, newId: string, hash: string -> string)
    requires UniqueEmails(s.usuarios)
    ensures UniqueEmails(CreateUser(s, req, newId, hash).store.usuarios)
  {
    var t := CreateUser(s, req, newId, hash);
    if t.reply.status != BadRequest {
      var us := t.store.usuarios;
      var n := |s.usuarios|;
      forall i, j | 0 <= i < j < |us| ensures us[i].email != us[j].email {
        assert us[i] == s.usuarios[i];
        if j < n {
          assert us[j] == s.usuarios[j];
        } else {
          assert us[j].email == req.email.value;
        }
      }
    }
  }

  /** Registering a second time under an email that is taken is refused and changes nothing. */
  lemma DuplicateRegistrationRejected(s: Store, a: CreateUserRequest, b: CreateUserRequest,
                                      id1: string, id2: string, hash: string -> string)
    requires CreateUser(s, a, id1, hash).reply.status == Created
    requires b.email == a.email
    ensures var t := CreateUser(s, a, id1, hash).store;
      CreateUser(t, b, id2, hash).reply.status == BadRequest && CreateUser(t, b, id2, hash).store == t
  {
    var t := CreateUser(s, a, id1, hash).store;
    assert t.usuarios[|s.usuarios|].email == b.email.value;
  }

  // ---------------------------------------------------------------------------
  // POST /users/login
  // ---------------------------------------------------------------------------

  datatype LoginRequest = LoginRequest(email: Option<string>, password: Option<string>)

  /** The token the login route issues for a user. */
  function TokenFor(u: User): TokenGrant
  {
    TokenGrant(Claims(u.id, u.email, u.name), JwtSecret, TokenLifetime)
  }

  /** `POST /users/login`: read-only. 400 when a field is falsy or no user
      has the email, 401 when the password does not match the stored hash
      of the first user with the email, otherwise 200 with a token for
      that user. */
  function Login(s: Store, req: LoginRequest, verify: (string, string) -> bool): (r: Outcome)
    ensures r.store == s
    ensures r.reply.status == BadRequest <==>
      !Truthy(req.email) || !Truthy(req.password) || !Occurs(s.usuarios, EmailColumn, req.email.value)
    ensures r.reply.status == Unauthorized <==>
      Truthy(req.email) && Truthy(req.password) &&
      exists i :: FirstAt(s.usuarios, EmailColumn, req.email.value, i) && !verify(req.password.value, s.usuarios[i].password)
    ensures r.reply.status == Ok <==>
      Truthy(req.email) && Truthy(req.password) &&
      exists i :: FirstAt(s.usuarios, EmailColumn, req.email.value, i) && verify(req.password.value, s.usuarios[i].password)
    ensures r.reply.status == Ok ==>
      exists i :: FirstAt(s.usuarios, EmailColumn, req.email.value, i) && r.reply.body == Token(TokenFor(s.usuarios[i]))
    ensures r.reply.status in {BadRequest, Unauthorized, Ok}
  {
    if !Truthy(req.email) || !Truthy(req.password) then Refuse(BadRequest, s)
    else
      match FirstWhere(s.usuarios, EmailColumn, req.email.value)
      case None => Refuse(BadRequest, s)
      case Some(i) =>
        assert FirstAt(s.usuarios, EmailColumn, req.email.value, i);
        assert forall k :: FirstAt(s.usuarios, EmailColumn, req.email.value, k) ==> k == i;
        var u := s.usuarios[i];
        if !verify(req.password.value, u.password) then Refuse(Unauthorized, s)
        else Outcome(Reply(Ok, Token(TokenFor(u))), s)
  }

  /** A user who just registered can log in with the same email and
      password, provided the password checks against its own hash, and the
      token names the new user. */
  lemma RegisterThenLogin(s: Store, req: CreateUserRequest, newId: string,
                          hash: string -> string, verify: (string, string) -> bool)
    requires CreateUser(s, req, newId, hash).reply.status == Created
    requires verify(req.password.value, hash(req.password.value))
    ensures var t := CreateUser(s, req, newId, hash).store;
      Login(t, LoginRequest(req.email, req.password), verify).reply ==
        Reply(Ok, Token(TokenGrant(Claims(newId, req.email.value, req.name.value), JwtSecret, TokenLifetime)))
  {
    var t := CreateUser(s, req, newId, hash).store;
    var n := |s.usuarios|;
    assert FirstAt(t.usuarios, EmailColumn, req.email.value, n) by {
      forall j | 0 <= j < n ensures t.usuarios[j].email != req.email.value {
        assert t.usuarios[j] == s.usuarios[j];
      }
    }
  }

  /** With unique emails the token names the one user registered under the email. */
  lemma LoginIdentifiesUser(s: Store, req: LoginRequest, verify: (string, string) -> bool, i: nat)
    requires UniqueEmails(s.usuarios)
    requires i < |s.usuarios| && Truthy(req.email) && s.usuarios[i].email == req.email.value
    requires Login(s, req, verify).reply.status == Ok
    ensures Login(s, req, verify).reply.body == Token(TokenFor(s.usuarios[i]))
  {
    var k :| FirstAt(s.usuarios, EmailColumn, req.email.value, k) && Login(s, req, verify).reply.body == Token(TokenFor(s.usuarios[k]));
    assert s.usuarios[k].email == s.usuarios[i].email;
    assert k == i;
  }

  // ---------------------------------------------------------------------------
  // GET /users/get/:id
  // ---------------------------------------------------------------------------

  /** `GET /users/get/:id`: read-only; 404 when no user has the id, otherwise
      the public columns of the first user with it. */
  function GetUser(s: Store, id: string): (r: Outcome)
    ensures r.store == s
    ensures r.reply.status == NotFound <==> forall i :: 0 <= i < |s.usuarios| ==> s.usuarios[i].id != id
    ensures r.reply.status != NotFound ==>
      r.reply.status == Ok &&
      exists i :: FirstAt(s.usuarios, IdColumn, id, i) &&
        r.reply.body == UserBody(PublicUser(s.usuarios[i].id, s.usuarios[i].name, s.usuarios[i].email))
  {
    match FirstWhere(s.usuarios, IdColumn, id)
    case None => Refuse(NotFound, s)
    case Some(i) =>
      assert FirstAt(s.usuarios, IdColumn, id, i);
      var u := s.usuarios[i];
      Outcome(Reply(Ok, UserBody(PublicUser(u.id, u.name, u.email))), s)
  }

  /** A user registered under a fresh id is found under it, with the name
      and email given and without the password. */
  lemma RegisterThenGetUser(s: Store, req: CreateUserRequest, newId: string, hash: string -> string)
    requires CreateUser(s, req, newId, hash).reply.status == Created
    requires forall i :: 0 <= i < |s.usuarios| ==> s.usuarios[i].id != newId
    ensures GetUser(CreateUser(s, req, newId, hash).store, newId).reply ==
      Reply(Ok, UserBody(PublicUser(newId, req.name.value, req.email.value)))
  {
    var t := CreateUser(s, req, newId, hash).store;
    var n := |s.usuarios|;
    assert FirstAt(t.usuarios, IdColumn, newId, n) by {
      forall j | 0 <= j < n ensures t.usuarios[j].id != newId {
        assert t.usuarios[j] == s.usuarios[j];
      }
    }
    var k :| FirstAt(t.usuarios, IdColumn, newId, k) &&
      GetUser(t, newId).reply.body == UserBody(PublicUser(t.usuarios[k].id, t.usuarios[k].name, t.usuarios[k].email));
    assert FirstAt(t.usuarios, IdColumn, newId, k);
    assert 0 <= k < |t.usuarios|;
    assert t.usuarios[k].id == newId;
    assert !(k < n) by {
      assert forall j :: 0 <= j < n ==> t.usuarios[j] == s.usuarios[j];
    }
    assert k == n;
  }
}
