/** The bearer-token middleware in front of every resource route. The token verifier is a parameter:
    `verify(token)` is the decoded payload, or None when the signature or expiry check fails. */
module AuthGate {
  import opened Wrappers
  import opened Collections
  import opened Store
  import opened Text
  import Auth

  datatype Verdict = Reject(status: int, error: string) | Pass(user: Payload)

  const BearerPrefix := "Bearer "
  const MalformedAuth := "Yêu cầu xác thực không hợp lệ."
  const BadToken := "Token không hợp lệ hoặc đã hết hạn."

  predicate HasBearer(header: Option<string>) {
    header.Some? && BearerPrefix <= header.value
  }

  /** `authHeader.split(' ')[1]`: the text after `Bearer ` up to the next space. */
  function BearerToken(header: string): (t: string)
    requires BearerPrefix <= header
    ensures ' ' !in t
    ensures t <= header[|BearerPrefix|..]
    ensures |t| < |header| - |BearerPrefix| ==> header[|BearerPrefix| + |t|] == ' '
  {
    var rest := header[|BearerPrefix|..];
    assert header == "Bearer" + [' '] + rest;
    SplitAfterPiece("Bearer", ' ', rest);
    FirstPiece(rest, ' ');
    Split(header, ' ')[1]
  }

  /** A token without spaces is read back whole from `Bearer <token>`. */
  lemma BearerTokenOf(t: string)
    requires ' ' !in t
    ensures BearerToken(BearerPrefix + t) == t
  {
    assert (BearerPrefix + t)[|BearerPrefix|..] == t;
  }

  /** The middleware: 401 without a `Bearer ` header, 403 when the token does not verify, otherwise
      the request proceeds carrying the decoded payload. */
  function Gate(header: Option<string>, verify: string -> Option<Payload>): (r: Verdict)
    ensures r == Reject(401, MalformedAuth) <==> !HasBearer(header)
    ensures r == Reject(403, BadToken) <==> HasBearer(header) && verify(BearerToken(header.value)).None?
    ensures r.Pass? <==> HasBearer(header) && verify(BearerToken(header.value)).Some?
    ensures r.Pass? ==> verify(BearerToken(header.value)) == Some(r.user)
  {
    if !HasBearer(header) then Reject(401, MalformedAuth)
    else match verify(BearerToken(header.value))
      case None => Reject(403, BadToken)
      case Some(p) => Pass(p)
  }

  /** A token from a successful login, sent back as `Bearer <token>`, passes the gate as the user who
      logged in, provided the signer never puts a space in a token and the verifier accepts what the
      signer issued. */
  lemma {:induction false} LoginThenGate(users: seq<User>, email: Option<string>, password: Option<string>,
                                         compare: (string, string) -> bool, sign: Payload -> string,
                                         verify: string -> Option<Payload>)
    requires Distinct(users, UserEmail)
    requires forall p :: verify(sign(p)) == Some(p) && ' ' !in sign(p)
    ensures var r := Auth.Login(users, email, password, compare, sign);
      r.LoggedIn? ==> Gate(Some(BearerPrefix + r.token), verify) == Pass(Payload(r.user.id, r.user.email, r.user.name))
  {
    var r := Auth.Login(users, email, password, compare, sign);
    if r.LoggedIn? {
      var u :| u in users && u.email == email.value && r.user == Auth.Public(u) && r.token == sign(Auth.Claims(u));
      BearerTokenOf(r.token);
    }
  }
}
