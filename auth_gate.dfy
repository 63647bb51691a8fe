/**
 * The request gate of middlewares/auth.js: `verifyToken` reads the bearer token, verifies
 * it, re-checks the session of privileged roles against `refresh_tokens`, and either
 * answers the request itself (401 or 403) or attaches the identity and calls `next`.
 * `requireAdmin` and `requireOwn` are role checks on the attached identity.
 */
module AuthGate {
  import opened Common
  import opened Text
  import opened Credentials
  import opened Schema

  /** What the gate does with one request. */
  datatype Outcome = Reject(status: nat) | Proceed(identity: Claims)

  /** What a role check does: pass the request on, or answer it. */
  datatype Decision = Next | Deny(status: nat)

  /** The case-sensitive scheme prefix of the `Authorization` header (section 2.1 of RFC 6750). */
  const BearerPrefix: string := "Bearer "

  predicate StartsWith(s: string, prefix: string)
  {
    |prefix| <= |s| && s[..|prefix|] == prefix
  }

  /**
   * `authHeader.split(' ')[1]` for a header that starts with the prefix: the run of
   * characters after `"Bearer "` up to the next space or the end of the header. With a
   * second space straight after the prefix it is `""`.
   */
  function BearerToken(header: string): (t: string)
    requires StartsWith(header, BearerPrefix)
    ensures var rest := header[7..];
      |t| <= |rest| && t == rest[..|t|] && ' ' !in t && (|t| == |rest| || rest[|t|] == ' ')
  {
    assert header == "Bearer" + [' '] + header[7..];
    SplitAfterWord("Bearer", ' ', header[7..]);
    FirstField(header[7..], ' ');
    Split(header, ' ')[1]
  }

  /** `"Bearer a b"` hands the verifier `"a"`. */
  lemma SecondFieldOnly()
    ensures BearerToken("Bearer a b") == "a"
  {
    var h := "Bearer a b";
    assert StartsWith(h, BearerPrefix);
    var t := BearerToken(h);
    assert h[7..] == "a b";
  }

  /**
   * `SELECT 1 FROM refresh_tokens WHERE user_id = $1 LIMIT 1` finds a row: the scan stops
   * at the first row of the user, and finds one exactly when the user owns some row.
   */
  function HasSession(sessions: seq<RefreshToken>, userId: int): (found: bool)
    ensures found <==> exists r :: r in sessions && r.userId == userId
  {
    if sessions == [] then false
    else if sessions[0].userId == userId then true
    else
      assert forall r :: r in sessions <==> r == sessions[0] || r in sessions[1..];
      HasSession(sessions[1..], userId)
  }

  /**
   * The gate as a function of the request header, of `jwt.verify` (a function of the
   * token: `None` stands for any exception it throws), of `refresh_tokens`, and of whether
   * the session query fails.
   */
  function Gate(header: Option<string>, verify: string -> Option<Claims>,
                sessions: seq<RefreshToken>, sessionQueryFails: bool): (o: Outcome)
    ensures o.Reject? ==> o.status == 401 || o.status == 403
    ensures o.Proceed? ==>
      && header.Some? && StartsWith(header.value, BearerPrefix)
      && verify(BearerToken(header.value)) == Some(o.identity)
      && (IsPrivileged(o.identity.role) ==> !sessionQueryFails && HasSession(sessions, o.identity.userId))
    ensures header.Some? && StartsWith(header.value, BearerPrefix) && verify(BearerToken(header.value)).Some? ==>
      var c := verify(BearerToken(header.value)).value;
      (IsPrivileged(c.role) ==> !sessionQueryFails && HasSession(sessions, c.userId)) ==> o == Proceed(c)
  {
    if header.None? || !StartsWith(header.value, BearerPrefix) then Reject(401)
    else
      match verify(BearerToken(header.value))
      case None => Reject(403)
      case Some(decoded) =>
        if IsPrivileged(decoded.role) && sessionQueryFails then Reject(403)
        else if IsPrivileged(decoded.role) && !HasSession(sessions, decoded.userId) then Reject(401)
        else Proceed(decoded)
  }

  /** A missing header, or one without the exact prefix, is answered 401 whatever else holds. */
  lemma MalformedHeaderUnauthenticated(header: Option<string>, verify: string -> Option<Claims>,
                                       sessions: seq<RefreshToken>, fails: bool)
    requires header.None? || !StartsWith(header.value, BearerPrefix)
    ensures Gate(header, verify, sessions, fails) == Reject(401)
  {
  }

  /** A lower-case scheme is not accepted: the prefix test is case-sensitive. */
  lemma LowerCaseSchemeUnauthenticated(token: string, verify: string -> Option<Claims>,
                                       sessions: seq<RefreshToken>, fails: bool)
    ensures Gate(Some("bearer " + token), verify, sessions, fails) == Reject(401)
  {
    var h := "bearer " + token;
    assert h[0] == 'b';
  }

  /** A token the verifier rejects is answered 403, whatever the store holds. */
  lemma InvalidTokenForbidden(header: string, verify: string -> Option<Claims>,
                              sessions: seq<RefreshToken>, fails: bool)
    requires StartsWith(header, BearerPrefix)
    requires verify(BearerToken(header)).None?
    ensures Gate(Some(header), verify, sessions, fails) == Reject(403)
  {
  }

  /** A failing session query for a privileged role lands in the catch block: 403. */
  lemma SessionQueryFailureForbidden(header: string, verify: string -> Option<Claims>,
                                     sessions: seq<RefreshToken>)
    requires StartsWith(header, BearerPrefix)
    requires verify(BearerToken(header)).Some?
    requires IsPrivileged(verify(BearerToken(header)).value.role)
    ensures Gate(Some(header), verify, sessions, true) == Reject(403)
  {
  }

  /**
   * For `admin` and `own` a valid token proceeds exactly when the user has some
   * `refresh_tokens` row; with none it is answered 401.
   */
  lemma PrivilegedNeedsSessionRow(header: string, verify: string -> Option<Claims>,
                                  sessions: seq<RefreshToken>)
    requires StartsWith(header, BearerPrefix)
    requires verify(BearerToken(header)).Some?
    requires IsPrivileged(verify(BearerToken(header)).value.role)
    ensures var c := verify(BearerToken(header)).value;
      Gate(Some(header), verify, sessions, false)
        == if HasSession(sessions, c.userId) then Proceed(c) else Reject(401)
  {
  }

  /** The user ids that own some refresh-token row. */
  function SessionOwners(sessions: seq<RefreshToken>): (owners: set<int>)
    ensures forall id :: id in owners <==> HasSession(sessions, id)
  {
    set r | r in sessions :: r.userId
  }

  /**
   * Only the owners of rows matter, not `expires_at` or `created_at`: two tables with the
   * same owners give the same outcome, so an expired row still keeps an admin in.
   */
  lemma ExpiryNotConsulted(header: Option<string>, verify: string -> Option<Claims>,
                           s1: seq<RefreshToken>, s2: seq<RefreshToken>, fails: bool)
    requires SessionOwners(s1) == SessionOwners(s2)
    ensures Gate(header, verify, s1, fails) == Gate(header, verify, s2, fails)
  {
    if header.Some? && StartsWith(header.value, BearerPrefix) {
      var d := verify(BearerToken(header.value));
      if d.Some? {
        assert HasSession(s1, d.value.userId) <==> d.value.userId in SessionOwners(s1);
        assert HasSession(s2, d.value.userId) <==> d.value.userId in SessionOwners(s2);
      }
    }
  }

  /** For any role other than `admin` and `own` the store is not consulted: a valid token proceeds. */
  lemma UnprivilegedIgnoresStore(header: string, verify: string -> Option<Claims>,
                                 sessions: seq<RefreshToken>, fails: bool)
    requires StartsWith(header, BearerPrefix)
    requires verify(BearerToken(header)).Some?
    requires !IsPrivileged(verify(BearerToken(header)).value.role)
    ensures Gate(Some(header), verify, sessions, fails) == Proceed(verify(BearerToken(header)).value)
  {
  }

  /** Whatever proceeds carries exactly the payload the verifier decoded from the second field. */
  lemma ProceedCarriesDecodedPayload(header: Option<string>, verify: string -> Option<Claims>,
                                     sessions: seq<RefreshToken>, fails: bool, c: Claims)
    requires Gate(header, verify, sessions, fails) == Proceed(c)
    ensures header.Some? && StartsWith(header.value, BearerPrefix)
    ensures verify(BearerToken(header.value)) == Some(c)
    ensures IsPrivileged(c.role) ==> !fails && HasSession(sessions, c.userId)
  {
  }

  /** The gate answers only 401 or 403 itself. */
  lemma RejectStatuses(header: Option<string>, verify: string -> Option<Claims>,
                       sessions: seq<RefreshToken>, fails: bool)
    ensures Gate(header, verify, sessions, fails).Reject? ==>
      Gate(header, verify, sessions, fails).status in {401, 403}
  {
  }

  // ---------------------------------------------------------------- the middleware

  /** The parts of an Express request and response the gate touches. */
  class Request {
    /** `req.headers.authorization`. */
    const authorization: Option<string>
    /** `req.user`. */
    var user: Option<Claims>
    /** The status of the response the middleware sent, if it sent one. */
    var answered: Option<nat>
    /** How many times `next()` was called. */
    var nextCalls: nat

    constructor (authorization: Option<string>)
      ensures this.authorization == authorization
      ensures user == None && answered == None && nextCalls == 0
    {
      this.authorization := authorization;
      user, answered, nextCalls := None, None, 0;
    }
  }

  /**
   * `verifyToken`: on rejection it answers with the status and leaves `req.user` and
   * `next` alone; otherwise it attaches the decoded payload and calls `next` once.
   */
  method VerifyToken(req: Request, db: Store, verify: string -> Option<Claims>, sessionQueryFails: bool)
    modifies req
    ensures match Gate(req.authorization, verify, db.refreshTokens, sessionQueryFails)
      case Reject(status) =>
        req.answered == Some(status) && req.nextCalls == old(req.nextCalls) && req.user == old(req.user)
      case Proceed(identity) =>
        req.user == Some(identity) && req.nextCalls == old(req.nextCalls) + 1
        && req.answered == old(req.answered)
  {
    var header := req.authorization;
    if header.None? || !StartsWith(header.value, BearerPrefix) {
      req.answered := Some(401);
      return;
    }
    var token := BearerToken(header.value);
    var decoded := verify(token);
    if decoded.None? {
      req.answered := Some(403);
      return;
    }
    if decoded.value.role == Admin || decoded.value.role == Own {
      if sessionQueryFails {
        req.answered := Some(403);
        return;
      }
      if !HasSession(db.refreshTokens, decoded.value.userId) {
        req.answered := Some(401);
        return;
      }
    }
    req.user := decoded;
    req.nextCalls := req.nextCalls + 1;
  }

  /** `requireAdmin`: the owner and admins pass, every other role is answered 403. */
  function RequireAdmin(identity: Claims): (d: Decision)
    ensures d == Next <==> identity.role == Own || identity.role == Admin
    ensures d != Next ==> d == Deny(403)
  {
    if identity.role == Own then Next
    else if identity.role != Admin then Deny(403)
    else Next
  }

  /** `requireOwn`: only the owner passes, every other role is answered 403. */
  function RequireOwn(identity: Claims): (d: Decision)
    ensures d == Next <==> identity.role == Own
    ensures d != Next ==> d == Deny(403)
  {
    if identity.role != Own then Deny(403) else Next
  }

  /** Whoever passes `requireOwn` passes `requireAdmin`; an admin passes only the latter. */
  lemma OwnerGateInsideAdminGate(identity: Claims)
    ensures RequireOwn(identity) == Next ==> RequireAdmin(identity) == Next
    ensures identity.role == Admin ==> RequireAdmin(identity) == Next && RequireOwn(identity) == Deny(403)
  {
  }
}
