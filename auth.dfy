/** POST /api/auth/login: password check and token issue. The password hash comparison and the token
    signer are parameters (`compare(password, hash)` and `sign(payload)`). */
module Auth {
  import opened Wrappers
  import opened Collections
  import opened Store

  /** The user as returned to the client: every column but `passwordHash`. */
  datatype PublicUser = PublicUser(id: Id, name: string, email: string, avatarUrl: Option<string>)

  datatype LoginResult = Failed(status: int, error: string) | LoggedIn(token: string, user: PublicUser)

  const MissingCredentials := "Vui lòng nhập email và mật khẩu."
  /** One message for an unknown email and a wrong password alike. */
  const BadCredentials := "Email hoặc mật khẩu không đúng."

  function Public(u: User): (p: PublicUser)
    ensures p.id == u.id && p.name == u.name && p.email == u.email && p.avatarUrl == u.avatarUrl
  {
    PublicUser(u.id, u.name, u.email, u.avatarUrl)
  }

  /** The claims signed into the token: `{ userId, email, name }`. */
  function Claims(u: User): Payload {
    Payload(u.id, u.email, u.name)
  }

  /** Two users look the same to the client exactly when they differ at most in the password hash. */
  lemma PublicHidesOnlyHash(u: User, v: User)
    ensures Public(u) == Public(v) <==> u.(passwordHash := v.passwordHash) == v
  {
  }

  /** The login handler. Emails are unique in the user table. */
  function Login(users: seq<User>, email: Option<string>, password: Option<string>,
                 compare: (string, string) -> bool, sign: Payload -> string): (r: LoginResult)
    requires Distinct(users, UserEmail)
    ensures r == Failed(400, MissingCredentials) <==> !Truthy(email) || !Truthy(password)
    ensures r == Failed(404, BadCredentials) <==>
      Truthy(email) && Truthy(password) && forall u :: u in users ==> u.email != email.value
    ensures r == Failed(401, BadCredentials) <==>
      Truthy(email) && Truthy(password) &&
      exists u :: u in users && u.email == email.value && !compare(password.value, u.passwordHash)
    ensures r.LoggedIn? <==>
      Truthy(email) && Truthy(password) &&
      exists u :: u in users && u.email == email.value && compare(password.value, u.passwordHash)
    ensures r.LoggedIn? ==>
      exists u :: u in users && u.email == email.value && r.user == Public(u) && r.token == sign(Claims(u))
    ensures r.Failed? ==> r.status in {400, 401, 404}
  {
    if !Truthy(email) || !Truthy(password) then Failed(400, MissingCredentials)
    else match FindByKey(users, UserEmail, email.value)
      case None => Failed(404, BadCredentials)
      case Some(u) =>
        assert forall v :: v in users && v.email == email.value ==> v == u by {
          forall v | v in users && v.email == email.value ensures v == u {
            FindByKeyDistinct(users, UserEmail, v);
          }
        }
        if !compare(password.value, u.passwordHash) then Failed(401, BadCredentials)
        else LoggedIn(sign(Claims(u)), Public(u))
  }

  /** With a verifier that accepts what the signer issued, a login token verifies back to the
      logged-in user's id, email and name. */
  lemma LoginTokenVerifies(users: seq<User>, email: Option<string>, password: Option<string>,
                           compare: (string, string) -> bool, sign: Payload -> string, verify: string -> Option<Payload>)
    requires Distinct(users, UserEmail)
    requires forall p :: verify(sign(p)) == Some(p)
    ensures var r := Login(users, email, password, compare, sign);
      r.LoggedIn? ==> verify(r.token) == Some(Payload(r.user.id, r.user.email, r.user.name))
  {
  }
}
