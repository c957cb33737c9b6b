/** Administrator authentication: the LocalStrategy verify callback, the
    login, logout and `/api/auth/me` handlers, `requireAuth`, and the session
    store that binds a session token to an admin id. The store's one-day idle
    lifetime (an entry not touched for a day reads as absent and is pruned)
    is not part of this model: a binding lasts until logout. */
module Auth {
  import opened Wrappers
  import opened Schema
  import opened Storage
  import opened Credentials
  import opened Http
  import Text
  import Hex

  /** The opaque session identifier the cookie carries. */
  type Token = string

  const InvalidCredentialsMessage := "Invalid email or password"
  const NotAuthenticatedMessage := "Not authenticated"
  const LoggedInMessage := "Logged in successfully"
  const LoggedOutMessage := "Logged out successfully"

  /** What the verify callback hands to `done`. */
  datatype Verdict =
    | Verified(admin: Admin)    // done(null, admin)
    | Refused(message: string)  // done(null, false, { message })
    | Failed                    // done(err)

  /** The LocalStrategy verify callback: the password is compared only when
      the email names an admin; an unknown email and a wrong password are
      refused alike; a comparison that throws is an error. */
  function VerifyCredentials(kdf: Kdf, admins: seq<Admin>, email: string, password: string): (v: Verdict)
    ensures v.Refused? ==> v.message == InvalidCredentialsMessage
    ensures !EmailTaken(admins, email) ==> v == Refused(InvalidCredentialsMessage)
    ensures v.Verified? ==> v.admin in admins && v.admin.email == email
                            && ComparePasswords(kdf, password, v.admin.password) == Ok(true)
    ensures v.Failed? ==> EmailTaken(admins, email)
    ensures FindAdminByEmail(admins, email).Some? ==>
              (ComparePasswords(kdf, password, FindAdminByEmail(admins, email).value.password).Err? <==> v.Failed?)
  {
    match FindAdminByEmail(admins, email)
    case None => Refused(InvalidCredentialsMessage)
    case Some(admin) =>
      match ComparePasswords(kdf, password, admin.password)
      case Err(_) => Failed
      case Ok(same) => if same then Verified(admin) else Refused(InvalidCredentialsMessage)
  }

  lemma {:induction false} FoundByEmailIsOnly(rows: seq<Admin>, email: string, i: int)
    requires EmailsUnique(rows)
    requires 0 <= i < |rows| && rows[i].email == email
    ensures FindAdminByEmail(rows, email) == Some(rows[i])
  {
    if i > 0 {
      assert rows[0].email != email;
      FoundByEmailIsOnly(rows[1..], email, i - 1);
    }
  }

  /** An admin whose stored password is the hash of `password` is verified
      with it; a password the KDF tells apart is refused with the same message
      as an unknown email. */
  lemma VerifyHashedAdmin(kdf: Kdf, admins: seq<Admin>, i: int, password: string, salt: Salt, attempt: string)
    requires EmailsUnique(admins)
    requires 0 <= i < |admins| && admins[i].password == HashPassword(kdf, password, salt)
    ensures var saltHex := Hex.HexEncode(salt);
            VerifyCredentials(kdf, admins, admins[i].email, attempt)
              == if kdf(attempt, saltHex) == kdf(password, saltHex) then Verified(admins[i])
                 else Refused(InvalidCredentialsMessage)
  {
    FoundByEmailIsOnly(admins, admins[i].email, i);
    CompareAgainstHash(kdf, attempt, password, salt);
  }

  /** The login route's answer to the verify callback's verdict. */
  function LoginResponse(v: Verdict): (r: Response)
    ensures r.status == 200 <==> v.Verified?
    ensures r.status == 401 <==> v.Refused?
  {
    match v
    case Failed => ServerError
    case Refused(message) => Response(401, Message(message))
    case Verified(_) => Response(200, Message(LoggedInMessage))
  }

  /** An admin whose stored digest does not decode to 64 bytes cannot log in
      at all: every attempt is a server error, not a 401. */
  lemma MalformedDigestIsServerError(kdf: Kdf, admins: seq<Admin>, i: int, attempt: string, j: nat)
    requires EmailsUnique(admins) && 0 <= i < |admins|
    requires '.' in admins[i].password
    requires j < 2 * DigestLength
    requires var hashed := Text.Split(admins[i].password, '.')[0]; j >= |hashed| || !Hex.IsHexDigit(Hex.LowByte(hashed[j]))
    ensures LoginResponse(VerifyCredentials(kdf, admins, admins[i].email, attempt)) == ServerError
  {
    FoundByEmailIsOnly(admins, admins[i].email, i);
    MalformedDigestThrows(kdf, attempt, admins[i].password, j);
  }

  /** An unknown email and a wrong password get the same 401 answer. */
  lemma LoginHidesWhichPartFailed(kdf: Kdf, admins: seq<Admin>, unknown: string, known: string, wrong: string)
    requires !EmailTaken(admins, unknown)
    requires VerifyCredentials(kdf, admins, known, wrong).Refused?
    ensures LoginResponse(VerifyCredentials(kdf, admins, unknown, wrong))
            == LoginResponse(VerifyCredentials(kdf, admins, known, wrong))
            == Response(401, Message(InvalidCredentialsMessage))
  {
  }

  /** Who a request is, as `passport.session()` works it out: no bound token
      is anonymous; a bound id is loaded from `admins`, and an id that names
      no admin makes deserialisation fail. */
  datatype SessionUser = Anonymous | User(admin: Admin) | Unresolvable

  function ResolveSession(bound: map<Token, int>, admins: seq<Admin>, token: Option<Token>): (u: SessionUser)
    ensures u.User? ==> token.Some? && token.value in bound && u.admin in admins && u.admin.id == bound[token.value]
    ensures u.Anonymous? <==> token.None? || token.value !in bound
  {
    if token.None? || token.value !in bound then Anonymous
    else match FindAdminById(admins, bound[token.value])
      case None => Unresolvable
      case Some(admin) => User(admin)
  }

  /** Every bound token names an existing admin. */
  ghost predicate SessionsSound(bound: map<Token, int>, admins: seq<Admin>) {
    forall t :: t in bound ==> exists i :: 0 <= i < |admins| && admins[i].id == bound[t]
  }

  lemma SoundSessionsResolve(bound: map<Token, int>, admins: seq<Admin>, token: Option<Token>)
    requires SessionsSound(bound, admins)
    ensures !ResolveSession(bound, admins, token).Unresolvable?
  {
    if token.Some? && token.value in bound {
      var i :| 0 <= i < |admins| && admins[i].id == bound[token.value];
      assert FindAdminById(admins, bound[token.value]).Some?;
    }
  }

  /** Admins are never removed, so soundness survives every change to `admins`
      that keeps the old rows. */
  lemma SoundnessKeptByGrowth(bound: map<Token, int>, admins: seq<Admin>, more: seq<Admin>)
    requires SessionsSound(bound, admins)
    ensures SessionsSound(bound, admins + more)
  {
    forall t | t in bound
      ensures exists i :: 0 <= i < |admins + more| && (admins + more)[i].id == bound[t]
    {
      var i :| 0 <= i < |admins| && admins[i].id == bound[t];
      assert (admins + more)[i] == admins[i];
    }
  }

  /** `requireAuth`: None lets the request through to its handler; otherwise
      the answer it gets instead. */
  function RequireAuth(user: SessionUser): (r: Option<Response>)
    ensures r.None? <==> user.User?
    ensures user.Anonymous? ==> r == Some(Response(401, Message(NotAuthenticatedMessage)))
  {
    match user
    case User(_) => None
    case Anonymous => Some(Response(401, Message(NotAuthenticatedMessage)))
    case Unresolvable => Some(ServerError)
  }

  /** `GET /api/auth/me`: the signed-in admin's id and email, and nothing else
      (never the password hash). */
  function MeRoute(user: SessionUser): (r: Response)
    ensures r.status == 200 <==> user.User?
    ensures user.User? ==> r.body == AdminInfo(user.admin.id, user.admin.email)
    ensures user.Anonymous? ==> r == Response(401, Message(NotAuthenticatedMessage))
  {
    match user
    case User(admin) => Response(200, AdminInfo(admin.id, admin.email))
    case Anonymous => Response(401, Message(NotAuthenticatedMessage))
    case Unresolvable => ServerError
  }

  /** After a login binds a token and a logout unbinds it, the token is first
      signed in and then anonymous again. */
  lemma LoginThenLogout(bound: map<Token, int>, admins: seq<Admin>, i: int, token: Token)
    requires AdminIdsUnique(admins) && 0 <= i < |admins|
    ensures ResolveSession(bound[token := admins[i].id], admins, Some(token)) == User(admins[i])
    ensures ResolveSession(bound[token := admins[i].id] - {token}, admins, Some(token)) == Anonymous
  {
    FoundByIdIsOnly(admins, admins[i].id, i);
  }

  lemma {:induction false} FoundByIdIsOnly(rows: seq<Admin>, id: int, i: int)
    requires AdminIdsUnique(rows)
    requires 0 <= i < |rows| && rows[i].id == id
    ensures FindAdminById(rows, id) == Some(rows[i])
  {
    if i > 0 {
      assert rows[0].id != id;
      FoundByIdIsOnly(rows[1..], id, i - 1);
    }
  }

  /** The session store: token to admin id. */
  class SessionStore {
    var bound: map<Token, int>

    constructor ()
      ensures bound == map[]
    {
      bound := map[];
    }

    /** `POST /api/auth/login`: on a verified admin the request's session is
        bound to the admin's id; otherwise no session changes. */
    method Login(kdf: Kdf, db: DatabaseStorage, token: Token, email: string, password: string)
      returns (r: Response)
      modifies this`bound
      ensures var v := VerifyCredentials(kdf, db.admins, email, password);
              r == LoginResponse(v)
              && bound == if v.Verified? then old(bound)[token := v.admin.id] else old(bound)
      ensures SessionsSound(old(bound), db.admins) ==> SessionsSound(bound, db.admins)
    {
      var v := VerifyCredentials(kdf, db.admins, email, password);
      if v.Verified? {
        bound := bound[token := v.admin.id];
        assert v.admin in db.admins;
      }
      r := LoginResponse(v);
    }

    /** `POST /api/auth/logout`: the session's binding is removed, if any;
        the answer is always 200. */
    method Logout(token: Option<Token>) returns (r: Response)
      modifies this`bound
      ensures bound == if token.Some? then old(bound) - {token.value} else old(bound)
      ensures r == Response(200, Message(LoggedOutMessage))
    {
      if token.Some? {
        bound := bound - {token.value};
      }
      r := Response(200, Message(LoggedOutMessage));
    }
  }
}
