/**
 * The `requireAuth` middleware of src/middleware/basic-auth.js.
 *
 * `Decide` is the decision procedure as a value: from the Authorization
 * header (if any), the user table and the password comparison it yields
 * the way the request ends together with the calls made to the two
 * collaborators, in order. `RequireAuth` is the middleware itself, which
 * delivers that decision by updating the request and response objects
 * and by what it passes to `next`.
 */
module BasicAuth {
  import opened Wrappers
  import opened AuthService
  import Base64

  const MissingBasicToken := "Missing basic token"
  const UnauthorizedRequest := "Unauthorized request"

  /** bcrypt's `compare(plain, hash)`: settles to whether they match, or rejects. Left uninterpreted. */
  type Comparer = (string, string) -> Result<bool, Fault>

  /** A call the middleware makes to a collaborator. */
  datatype Call = Lookup(userName: string) | Compare(plain: string, hash: string)

  /** How a request leaves the middleware. */
  datatype Outcome =
    | Respond(status: int, error: string)  // res.status(status).json({ error })
    | Proceed(user: User)                  // req.user = user; next()
    | Propagate(fault: Fault)              // next(err)

  /** The outcome and the collaborator calls made on the way, in order. */
  datatype Decision = Decision(outcome: Outcome, calls: seq<Call>)

  // ---------------------------------------------------------------------------
  // The header
  // ---------------------------------------------------------------------------

  /** ASCII lower-casing, the part of `toLowerCase()` that can decide the prefix test. */
  function Lower(s: string): (r: string)
    ensures |r| == |s|
    // No ASCII capital is left, and only ASCII capitals change, each to the letter 32 code points above.
    ensures forall i :: 0 <= i < |r| ==> !('A' <= r[i] <= 'Z')
    ensures forall i :: 0 <= i < |s| && r[i] != s[i] ==> 'A' <= s[i] <= 'Z' && r[i] as int == s[i] as int + 32
  {
    seq(|s|, i requires 0 <= i < |s| => if 'A' <= s[i] <= 'Z' then (s[i] as int + 32) as char else s[i])
  }

  /** `header.toLowerCase().startsWith('basic')`; no space after the scheme is demanded. */
  predicate HasBasicPrefix(header: string)
    ensures HasBasicPrefix(header) <==>
      |header| >= 5 && header[0] in "bB" && header[1] in "aA" && header[2] in "sS" && header[3] in "iI" && header[4] in "cC"
  {
    |header| >= 5 && Lower(header[..5]) == "basic"
  }

  /** `header.slice('basic '.length, header.length)`: the header without its first six characters. */
  function BasicToken(header: string): (token: string)
    requires HasBasicPrefix(header)
    ensures |token| == if |header| >= 6 then |header| - 6 else 0
    ensures header == header[..|header| - |token|] + token
  {
    header[(if |header| < 6 then |header| else 6)..]
  }

  /** The scheme name is matched whatever the case of each of its five letters, and whatever follows it. */
  lemma BasicPrefixIff(scheme: string, rest: string)
    requires |scheme| == 5
    ensures HasBasicPrefix(scheme + rest) <==> Lower(scheme) == "basic"
    ensures HasBasicPrefix(scheme + rest) ==> BasicToken(scheme + rest) == if rest == [] then [] else rest[1..]
  {
  }

  /** Every spelling of the scheme with upper- and lower-case letters is accepted. */
  lemma AnyCaseAccepted(scheme: string)
    requires |scheme| == 5
    requires scheme[0] in "bB" && scheme[1] in "aA" && scheme[2] in "sS" && scheme[3] in "iI" && scheme[4] in "cC"
    ensures HasBasicPrefix(scheme)
  {
  }

  /** Only the case spellings of "basic" pass the prefix test. */
  lemma OnlyCaseVariants(h: string)
    requires HasBasicPrefix(h)
    ensures h[0] in "bB" && h[1] in "aA" && h[2] in "sS" && h[3] in "iI" && h[4] in "cC"
  {
    assert Lower(h[..5])[0] == 'b';
  }

  // ---------------------------------------------------------------------------
  // The decision
  // ---------------------------------------------------------------------------

  /** Array destructuring: the element at `i`, or `undefined` past the end. */
  function At(parts: seq<string>, i: nat): Option<string>
  {
    if i < |parts| then Some(parts[i]) else None
  }

  /** JavaScript truthiness of a string that may be `undefined`. */
  predicate Truthy(v: Option<string>)
  {
    v.Some? && v.value != ""
  }

  /** `tokenUsername && tokenPassword`: the negation of the test that refuses the request. */
  predicate Filled(parts: seq<string>)
    ensures Filled(parts) <==> |parts| >= 2 && parts[0] != "" && parts[1] != ""
  {
    Truthy(At(parts, 0)) && Truthy(At(parts, 1))
  }

  /** The user a successful lookup of `name` found, if any. */
  function Found(db: Database, name: string): (r: Option<User>)
    ensures r.Some? ==> r.value.userName == name && db.Online? && r.value in db.rows
  {
    match GetUserWithUsername(db, name)
    case Success(Some(u)) => Some(u)
    case _ => None
  }

  /** Everything after `parseBasicToken`: the emptiness check, the lookup, the comparison. */
  function Authenticate(parts: seq<string>, db: Database, compare: Comparer): (d: Decision)
    requires |parts| >= 1
    // A missing or empty user name or password is refused before anything is looked up.
    ensures !Filled(parts) ==> d == Decision(Respond(401, UnauthorizedRequest), [])
    // Otherwise the parsed user name is looked up exactly once, first.
    ensures Filled(parts) ==> 1 <= |d.calls| <= 2 && d.calls[0] == Lookup(parts[0])
    ensures forall i :: 0 < i < |d.calls| ==> d.calls[i].Compare?
    // A comparison happens exactly when a user was found, against that user's stored hash.
    ensures |d.calls| == 2 <==> Filled(parts) && Found(db, parts[0]).Some?
    ensures |d.calls| == 2 ==> d.calls[1] == Compare(parts[1], Found(db, parts[0]).value.password)
    // The request proceeds exactly when the user exists and the password matches its hash, with that user.
    ensures d.outcome.Proceed? <==>
      Filled(parts) && Found(db, parts[0]).Some? && compare(parts[1], Found(db, parts[0]).value.password) == Success(true)
    ensures d.outcome.Proceed? ==> Found(db, parts[0]) == Some(d.outcome.user)
    // A failing collaborator is propagated, never turned into a 401.
    ensures d.outcome.Propagate? <==>
      Filled(parts) && (db.Offline? || (Found(db, parts[0]).Some? && compare(parts[1], Found(db, parts[0]).value.password).Failure?))
    // The error passed on is the database's or bcrypt's own.
    ensures d.outcome.Propagate? && db.Offline? ==> d.outcome.fault == db.fault
    ensures d.outcome.Propagate? && db.Online? ==>
      d.outcome.fault == compare(parts[1], Found(db, parts[0]).value.password).error
    // Every refusal looks the same.
    ensures d.outcome.Respond? ==> d.outcome == Respond(401, UnauthorizedRequest)
  {
    if !Filled(parts) then Decision(Respond(401, UnauthorizedRequest), [])
    else
      var userName, password := parts[0], parts[1];
      match GetUserWithUsername(db, userName)
      case Failure(f) => Decision(Propagate(f), [Lookup(userName)])
      case Success(None) => Decision(Respond(401, UnauthorizedRequest), [Lookup(userName)])
      case Success(Some(user)) =>
        var calls := [Lookup(userName), Compare(password, user.password)];
        match compare(password, user.password)
        case Failure(f) => Decision(Propagate(f), calls)
        case Success(false) => Decision(Respond(401, UnauthorizedRequest), calls)
        case Success(true) => Decision(Proceed(user), calls)
  }

  /** `requireAuth` as a decision: the header (None when absent), the user table, bcrypt and Node's lenient base64. */
  function Decide(authorization: Option<string>, db: Database, compare: Comparer, lenient: string -> seq<Byte>): (d: Decision)
    // An absent header reads as "", and a header not starting with the scheme is the one distinct refusal.
    ensures d.outcome == Respond(401, MissingBasicToken) <==> !HasBasicPrefix(authorization.GetOr(""))
    ensures !HasBasicPrefix(authorization.GetOr("")) ==> d.calls == []
    ensures d.outcome.Respond? ==> d.outcome.status == 401
    // No comparison without a lookup before it, and no second lookup.
    ensures |d.calls| <= 2 && (d.calls != [] ==> d.calls[0].Lookup?)
    ensures forall i :: 0 < i < |d.calls| ==> d.calls[i].Compare?
    // Proceeding means: the looked-up user of the parsed name, whose hash the parsed password matched.
    ensures d.outcome.Proceed? ==>
      |d.calls| == 2 && d.calls[0] == Lookup(d.outcome.user.userName) && d.calls[1].hash == d.outcome.user.password &&
      compare(d.calls[1].plain, d.outcome.user.password) == Success(true) && Found(db, d.outcome.user.userName) == Some(d.outcome.user)
  {
    var authToken := authorization.GetOr("");
    if !HasBasicPrefix(authToken) then Decision(Respond(401, MissingBasicToken), [])
    else Authenticate(ParseBasicToken(BasicToken(authToken), lenient), db, compare)
  }

  // ---------------------------------------------------------------------------
  // Properties of the decision
  // ---------------------------------------------------------------------------

  /** Without an Authorization header the request is refused as missing its token, with nothing looked up. */
  lemma AbsentHeader(db: Database, compare: Comparer, lenient: string -> seq<Byte>)
    ensures Decide(None, db, compare, lenient) == Decision(Respond(401, MissingBasicToken), [])
  {
  }

  /** A header of just "Basic" leaves an empty token, so an empty user name: refused, nothing looked up. */
  lemma SchemeOnlyHeader(db: Database, compare: Comparer, lenient: string -> seq<Byte>)
    ensures Decide(Some("Basic"), db, compare, lenient) == Decision(Respond(401, UnauthorizedRequest), [])
  {
  }

  /** The header of credentials "u:p" (free of ':') hands exactly u and p to the authentication steps. */
  lemma EncodedHeader(scheme: string, u: string, p: string, db: Database, compare: Comparer, lenient: string -> seq<Byte>)
    requires |scheme| == 5 && Lower(scheme) == "basic"
    requires IsAscii(u + ":" + p) && ':' !in u && ':' !in p
    ensures Decide(Some(scheme + " " + Base64.Encode(Bytes(u + ":" + p))), db, compare, lenient) == Authenticate([u, p], db, compare)
  {
    var token := Base64.Encode(Bytes(u + ":" + p));
    assert scheme + " " + token == scheme + (" " + token);
    BasicPrefixIff(scheme, " " + token);
    assert (" " + token)[1..] == token;
    ParseEncodedCredentials(u, p, lenient);
  }

  /**
   * End to end: a well-formed header for a user in the table gets through
   * exactly when bcrypt says the password matches, and then carries that
   * user; a mismatch is an ordinary 401.
   */
  lemma KnownUser(u: string, p: string, user: User, db: Database, compare: Comparer, lenient: string -> seq<Byte>)
    requires IsAscii(u + ":" + p) && ':' !in u && ':' !in p && u != "" && p != ""
    requires GetUserWithUsername(db, u) == Success(Some(user))
    ensures var d := Decide(Some("Basic " + Base64.Encode(Bytes(u + ":" + p))), db, compare, lenient);
      && (d.outcome == Proceed(user) <==> compare(p, user.password) == Success(true))
      && (compare(p, user.password) == Success(false) ==> d.outcome == Respond(401, UnauthorizedRequest))
      && d.calls == [Lookup(u), Compare(p, user.password)]
  {
    AnyCaseAccepted("Basic");
    EncodedHeader("Basic", u, p, db, compare, lenient);
  }

  /** End to end: a well-formed header for a name nobody has is refused after one lookup, and bcrypt is never called. */
  lemma UnknownUser(u: string, p: string, db: Database, compare: Comparer, lenient: string -> seq<Byte>)
    requires IsAscii(u + ":" + p) && ':' !in u && ':' !in p && u != "" && p != ""
    requires GetUserWithUsername(db, u) == Success(None)
    ensures Decide(Some("Basic " + Base64.Encode(Bytes(u + ":" + p))), db, compare, lenient) ==
      Decision(Respond(401, UnauthorizedRequest), [Lookup(u)])
  {
    AnyCaseAccepted("Basic");
    EncodedHeader("Basic", u, p, db, compare, lenient);
  }

  /**
   * An unknown user and a wrong password cannot be told apart by the
   * response: for the same header, a table without the user and a table
   * whose user's hash does not match give the same outcome.
   */
  lemma UnknownUserLikeWrongPassword(header: Option<string>, db1: Database, db2: Database,
                                     compare1: Comparer, compare2: Comparer, lenient: string -> seq<Byte>)
    requires HasBasicPrefix(header.GetOr(""))
    requires var parts := ParseBasicToken(BasicToken(header.GetOr("")), lenient);
      Filled(parts) && GetUserWithUsername(db1, parts[0]) == Success(None) &&
      Found(db2, parts[0]).Some? && compare2(parts[1], Found(db2, parts[0]).value.password) == Success(false)
    ensures Decide(header, db1, compare1, lenient).outcome == Decide(header, db2, compare2, lenient).outcome
    ensures Decide(header, db1, compare1, lenient).outcome == Respond(401, UnauthorizedRequest)
  {
  }

  /** The request proceeds only along the one path where a lookup found the user and its hash matched. */
  lemma ProceedOnlyWhenMatched(header: Option<string>, db: Database, compare: Comparer, lenient: string -> seq<Byte>)
    requires Decide(header, db, compare, lenient).outcome.Proceed?
    ensures HasBasicPrefix(header.GetOr(""))
    ensures var parts := ParseBasicToken(BasicToken(header.GetOr("")), lenient);
      Filled(parts) && Found(db, parts[0]) == Some(Decide(header, db, compare, lenient).outcome.user) &&
      compare(parts[1], Decide(header, db, compare, lenient).outcome.user.password) == Success(true)
  {
  }

  /** A failing database or bcrypt surfaces as a propagated error, distinct from every 401. */
  lemma FaultsPropagate(header: Option<string>, db: Database, compare: Comparer, lenient: string -> seq<Byte>)
    requires HasBasicPrefix(header.GetOr(""))
    requires Filled(ParseBasicToken(BasicToken(header.GetOr("")), lenient))
    ensures db.Offline? ==> Decide(header, db, compare, lenient).outcome == Propagate(db.fault)
    ensures Decide(header, db, compare, lenient).outcome.Propagate? <==>
      var parts := ParseBasicToken(BasicToken(header.GetOr("")), lenient);
      db.Offline? || (Found(db, parts[0]).Some? && compare(parts[1], Found(db, parts[0]).value.password).Failure?)
    ensures var parts := ParseBasicToken(BasicToken(header.GetOr("")), lenient);
      Found(db, parts[0]).Some? && compare(parts[1], Found(db, parts[0]).value.password).Failure? ==>
      Decide(header, db, compare, lenient).outcome == Propagate(compare(parts[1], Found(db, parts[0]).value.password).error)
  {
  }

  // ---------------------------------------------------------------------------
  // The middleware, acting on the request and response objects
  // ---------------------------------------------------------------------------

  /** The parts of Express's `req` the middleware reads and writes. */
  class Request {
    const authorization: Option<string>  // req.get('Authorization')
    var user: Option<User>               // req.user

    constructor (authorization: Option<string>)
      ensures this.authorization == authorization && user == None
    {
      this.authorization := authorization;
      user := None;
    }
  }

  /** The parts of Express's `res` the middleware writes: the status and the `error` of the JSON body. */
  class Response {
    var status: Option<int>
    var error: Option<string>

    constructor ()
      ensures status == None && error == None
    {
      status, error := None, None;
    }
  }

  /** How `next` was invoked, if at all. */
  datatype Next = NotCalled | Called | CalledWith(fault: Fault)

  /** `requireAuth(req, res, next)`: the decision of `Decide`, delivered through `req`, `res` and `next`. */
  method RequireAuth(req: Request, res: Response, db: Database, compare: Comparer, lenient: string -> seq<Byte>)
    returns (next: Next)
    modifies req, res
    ensures var d := Decide(req.authorization, db, compare, lenient).outcome;
      match d
      case Respond(status, error) =>
        res.status == Some(status) && res.error == Some(error) && req.user == old(req.user) && next == NotCalled
      case Proceed(user) =>
        req.user == Some(user) && res.status == old(res.status) && res.error == old(res.error) && next == Called
      case Propagate(fault) =>
        req.user == old(req.user) && res.status == old(res.status) && res.error == old(res.error) && next == CalledWith(fault)
  {
    var authToken := req.authorization.GetOr("");
    if !HasBasicPrefix(authToken) {
      res.status, res.error := Some(401), Some(MissingBasicToken);
      return NotCalled;
    }
    var parts := ParseBasicToken(BasicToken(authToken), lenient);
    if |parts| < 2 || parts[0] == "" || parts[1] == "" {
      res.status, res.error := Some(401), Some(UnauthorizedRequest);
      return NotCalled;
    }
    var tokenUsername, tokenPassword := parts[0], parts[1];
    var found := GetUserWithUsername(db, tokenUsername);
    if found.Failure? {
      return CalledWith(found.error);
    }
    if found.value.None? {
      res.status, res.error := Some(401), Some(UnauthorizedRequest);
      return NotCalled;
    }
    var user := found.value.value;
    var passwordsMatch := compare(tokenPassword, user.password);
    if passwordsMatch.Failure? {
      return CalledWith(passwordsMatch.error);
    }
    if !passwordsMatch.value {
      res.status, res.error := Some(401), Some(UnauthorizedRequest);
      return NotCalled;
    }
    req.user := Some(user);
    next := Called;
  }
}
