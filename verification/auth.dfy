/**
 * The account handlers of routes/auth.js over `tbl_user`: register (email
 * must be new; the password is stored hashed), login (one answer for every
 * failure; a signed token and a password-free user on success) and logout
 * (an acknowledgement only). bcrypt and the token signer are opaque
 * functions passed in.
 */
module Auth {
  import opened Options
  import opened Tables
  import opened Schema
  import opened Http

  const EmailTakenMessage := "Email sudah terdaftar"
  const RegisteredMessage := "User berhasil didaftarkan"
  const InvalidCredentialsMessage := "Email atau password salah"
  const LoginMessage := "Login berhasil"
  const LogoutMessage := "Logout berhasil"

  /** The bcrypt cost factor passed to `bcrypt.hash`. */
  const BcryptCost: nat := 10

  /** The `expiresIn` option of every token. */
  const TokenLifetime := "24h"

  type Users = Table<UserRow>

  /** What `jwt.sign` is given: the payload and the lifetime. */
  datatype TokenClaims = TokenClaims(id_user: nat, email: string, expiresIn: string)

  /** The single response for every failed login. */
  const InvalidCredentials := Response(401, Message(InvalidCredentialsMessage))

  /** Some row of the table has this email. */
  predicate EmailTaken(users: Users, email: string) {
    exists id | id in users.rows :: users.rows[id].email == email
  }

  /** No two rows share an email. */
  predicate UniqueEmails(users: Users) {
    forall a, b | a in users.rows && b in users.rows && a != b :: users.rows[a].email != users.rows[b].email
  }

  /** `SELECT * FROM tbl_user WHERE email = ?` then `users[0]`. */
  function FindByEmail(users: Users, email: string): (r: Option<nat>)
    ensures r.None? <==> !EmailTaken(users, email)
    ensures r.Some? ==> r.value in users.rows && users.rows[r.value].email == email
  {
    FindFirst(users, (u: UserRow) => u.email == email)
  }

  /** POST /api/auth/register: refuses a taken email with 400 and inserts
      nothing; otherwise stores the name, the email and the hash of the
      password (`bcrypt.hash(password, 10)`), never the password itself, under
      a fresh key, and answers 201 with it. */
  function Register(users: Users, nama_user: string, email: string, password: string,
                    hash: (string, nat) -> string): (r: Handled<Users>)
    ensures r.response.status == 400 <==> EmailTaken(users, email)
    ensures EmailTaken(users, email) ==> r.state == users && r.response.body == Message(EmailTakenMessage)
    ensures !EmailTaken(users, email) ==> r.response.status == 201 && r.response.body.UserRegistered?
    ensures !EmailTaken(users, email) ==> r.response.body.message == RegisteredMessage
    ensures !EmailTaken(users, email) ==> r.response.body.id_user !in users.rows
    ensures !EmailTaken(users, email) ==>
      r.state.rows == users.rows[r.response.body.id_user := UserRow(nama_user, email, hash(password, BcryptCost))]
  {
    if FindByEmail(users, email).Some? then
      Handled(users, Response(400, Message(EmailTakenMessage)))
    else
      var ins := Insert(users, UserRow(nama_user, email, hash(password, BcryptCost)));
      Handled(ins.table, Response(201, UserRegistered(RegisteredMessage, ins.id)))
  }

  /** Registration keeps emails unique. */
  lemma RegisterPreservesUniqueEmails(users: Users, nama_user: string, email: string, password: string,
                                      hash: (string, nat) -> string)
    requires UniqueEmails(users)
    ensures UniqueEmails(Register(users, nama_user, email, password, hash).state)
  {
  }

  /** Registering an email a second time fails, whatever the password. */
  lemma RegisterTwiceRefused(users: Users, nama1: string, nama2: string, email: string,
                             password1: string, password2: string, hash: (string, nat) -> string)
    ensures var first := Register(users, nama1, email, password1, hash);
      Register(first.state, nama2, email, password2, hash) == Handled(first.state, Response(400, Message(EmailTakenMessage)))
  {
    var first := Register(users, nama1, email, password1, hash);
    if !EmailTaken(users, email) {
      var id := first.response.body.id_user;
      assert first.state.rows[id].email == email;
    }
  }

  /** As long as the hash never returns its input, the stored password is never
      the plaintext. */
  lemma PasswordNeverStoredInClear(users: Users, nama_user: string, email: string, password: string,
                                   hash: (string, nat) -> string)
    requires forall p :: hash(p, BcryptCost) != p
    requires !EmailTaken(users, email)
    ensures var r := Register(users, nama_user, email, password, hash);
      r.state.rows[r.response.body.id_user].password != password
  {
  }

  /** POST /api/auth/login: a token over {id_user, email} that expires in 24h
      and the user without password, for the first row with the email when
      `bcrypt.compare` accepts the password; otherwise the one 401 answer. */
  function Login(users: Users, email: string, password: string,
                 verify: (string, string) -> bool, sign: TokenClaims -> string): (r: Response)
    ensures r.status == 200 || r == InvalidCredentials
    ensures !EmailTaken(users, email) ==> r == InvalidCredentials
    ensures r.status == 200 ==> exists id | id in users.rows ::
      && users.rows[id].email == email
      && verify(password, users.rows[id].password)
      && r.body == LoggedIn(LoginMessage, sign(TokenClaims(id, email, TokenLifetime)),
                            PublicUser(id, users.rows[id].nama_user, email))
  {
    match FindByEmail(users, email)
    case None => InvalidCredentials
    case Some(id) =>
      var user := users.rows[id];
      if !verify(password, user.password) then InvalidCredentials
      else
        var token := sign(TokenClaims(id, user.email, TokenLifetime));
        Response(200, LoggedIn(LoginMessage, token, PublicUser(id, user.nama_user, user.email)))
  }

  /** With unique emails, login succeeds exactly for the registered email and
      a password the stored hash accepts. */
  lemma LoginSucceedsIff(users: Users, email: string, password: string,
                         verify: (string, string) -> bool, sign: TokenClaims -> string)
    requires UniqueEmails(users)
    ensures Login(users, email, password, verify, sign).status == 200 <==>
      exists id | id in users.rows :: users.rows[id].email == email && verify(password, users.rows[id].password)
  {
    if id :| id in users.rows && users.rows[id].email == email && verify(password, users.rows[id].password) {
      var found := FindByEmail(users, email);
      assert found == Some(id);
    }
  }

  /** An unknown email and a wrong password are answered identically, so the
      response does not reveal which emails are registered. */
  lemma LoginFailuresAlike(users: Users, unknown: string, known: string, password1: string, password2: string,
                           verify: (string, string) -> bool, sign: TokenClaims -> string)
    requires !EmailTaken(users, unknown)
    requires EmailTaken(users, known)
    requires forall id | id in users.rows && users.rows[id].email == known :: !verify(password2, users.rows[id].password)
    ensures Login(users, unknown, password1, verify, sign) == Login(users, known, password2, verify, sign)
  {
  }

  /** POST /api/auth/logout: an acknowledgement; no token is revoked. */
  function Logout(): (r: Response)
    ensures r.status == 200 && r.body == Message(LogoutMessage)
  {
    Response(200, Message(LogoutMessage))
  }
}
