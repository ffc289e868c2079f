/**
 * The credential extractor and the user lookup of src/auth/auth-service.js.
 *
 * `ParseBasicToken` decodes a base64 token, reads the bytes as text and
 * splits that text on EVERY ':' (JavaScript's `String.prototype.split`),
 * not only on the first one as section 2 of RFC 7617 prescribes.
 * `GetUserWithUsername` is the first row of the user table whose
 * `user_name` matches.
 */
module AuthService {
  import opened Wrappers
  import Base64

  type Byte = Base64.Byte

  // ---------------------------------------------------------------------------
  // Bytes as text
  // ---------------------------------------------------------------------------

  /** `Buffer.toString()` on the decoded bytes: each byte becomes the character with that code. */
  function Text(b: seq<Byte>): (t: string)
    ensures |t| == |b| && forall i :: 0 <= i < |b| ==> t[i] as int == b[i]
  {
    seq(|b|, i requires 0 <= i < |b| => b[i] as char)
  }

  predicate IsAscii(t: string) {
    forall i :: 0 <= i < |t| ==> t[i] as int < 128
  }

  /** The bytes of an ASCII text, one per character. */
  function Bytes(t: string): (b: seq<Byte>)
    requires IsAscii(t)
    ensures Text(b) == t
  {
    seq(|t|, i requires 0 <= i < |t| => t[i] as int)
  }

  // ---------------------------------------------------------------------------
  // Splitting on ':'
  // ---------------------------------------------------------------------------

  /** `text.split(':')`: the pieces between consecutive colons, in order. */
  function Split(s: string): (parts: seq<string>)
    ensures |parts| >= 1
  {
    if s == [] then [""]
    else
      var rest := Split(s[1..]);
      if s[0] == ':' then [""] + rest
      else [[s[0]] + rest[0]] + rest[1..]
  }

  /** `parts.join(':')`. */
  function Join(parts: seq<string>): string
  {
    if |parts| == 0 then ""
    else if |parts| == 1 then parts[0]
    else parts[0] + ":" + Join(parts[1..])
  }

  function Colons(s: string): nat
  {
    if s == [] then 0
    else (if s[0] == ':' then 1 else 0) + Colons(s[1..])
  }

  /** There is one more piece than there are colons. */
  lemma {:induction false} SplitCount(s: string)
    ensures |Split(s)| == Colons(s) + 1
  {
    if s != [] {
      SplitCount(s[1..]);
    }
  }

  /** No piece contains a colon. */
  lemma {:induction false} SplitPiecesColonFree(s: string)
    ensures forall i :: 0 <= i < |Split(s)| ==> ':' !in Split(s)[i]
  {
    if s != [] {
      SplitPiecesColonFree(s[1..]);
      var rest := Split(s[1..]);
      if s[0] != ':' {
        assert ':' !in [s[0]] + rest[0];
        assert Split(s)[1..] == rest[1..];
      }
    }
  }

  /** Joining the pieces with ':' gives the text back. */
  lemma {:induction false} JoinSplit(s: string)
    ensures Join(Split(s)) == s
  {
    if s != [] {
      JoinSplit(s[1..]);
      var rest := Split(s[1..]);
      if s[0] == ':' {
        assert Split(s)[1..] == rest;
        assert Join(Split(s)) == "" + ":" + Join(rest);
      } else if |rest| == 1 {
        assert Join(Split(s)) == [s[0]] + rest[0];
      } else {
        assert Split(s)[1..] == rest[1..];
        assert Join(Split(s)) == ([s[0]] + rest[0]) + ":" + Join(rest[1..]);
        assert Join(rest) == rest[0] + ":" + Join(rest[1..]);
      }
    }
  }

  /** A colon-free prefix only lengthens the first piece. */
  lemma {:induction false} SplitColonFreePrefix(a: string, t: string)
    requires ':' !in a
    ensures Split(a + t) == [a + Split(t)[0]] + Split(t)[1..]
  {
    if a != [] {
      assert (a + t)[1..] == a[1..] + t;
      assert a[0] in a;
      SplitColonFreePrefix(a[1..], t);
      var rest := Split(a[1..] + t);
      assert rest[0] == a[1..] + Split(t)[0] && rest[1..] == Split(t)[1..];
      assert Split(a + t) == [[a[0]] + rest[0]] + rest[1..];
      assert [a[0]] + (a[1..] + Split(t)[0]) == a + Split(t)[0];
    } else {
      assert a + t == t && a + Split(t)[0] == Split(t)[0];
      assert [Split(t)[0]] + Split(t)[1..] == Split(t);
    }
  }

  /** A colon-free text is a single piece. */
  lemma SplitColonFree(a: string)
    requires ':' !in a
    ensures Split(a) == [a]
  {
    SplitColonFreePrefix(a, "");
    assert a + "" == a;
  }

  /** A colon-free piece followed by ':' contributes exactly that piece. */
  lemma SplitAtColon(a: string, t: string)
    requires ':' !in a
    ensures Split(a + ":" + t) == [a] + Split(t)
  {
    SplitColonFreePrefix(a, ":" + t);
    assert a + ":" + t == a + (":" + t);
    assert (":" + t)[0] == ':' && (":" + t)[1..] == t;
    assert Split(":" + t) == [""] + Split(t);
    assert a + "" == a;
  }

  /** Splitting undoes joining colon-free pieces. */
  lemma {:induction false} SplitJoin(parts: seq<string>)
    requires |parts| >= 1
    requires forall i :: 0 <= i < |parts| ==> ':' !in parts[i]
    ensures Split(Join(parts)) == parts
  {
    if |parts| == 1 {
      SplitColonFree(parts[0]);
    } else {
      SplitJoin(parts[1..]);
      SplitAtColon(parts[0], Join(parts[1..]));
    }
  }

  // ---------------------------------------------------------------------------
  // The user-id / password split of section 2 of RFC 7617
  // ---------------------------------------------------------------------------

  /** The RFC's reading: user-id before the FIRST colon, password all the rest. */
  function UserPass(t: string): (r: Option<(string, string)>)
    ensures r.None? <==> ':' !in t
    ensures r.Some? ==> t == r.value.0 + ":" + r.value.1 && ':' !in r.value.0
  {
    if t == [] then None
    else if t[0] == ':' then Some(("", t[1..]))
    else
      match UserPass(t[1..])
      case None => None
      case Some((u, p)) => Some(([t[0]] + u, p))
  }

  // ---------------------------------------------------------------------------
  // parseBasicToken
  // ---------------------------------------------------------------------------

  /**
   * `Buffer.from(token, 'base64')`. On a canonical base64 string it is the
   * decoding of section 4 of RFC 4648; Node's handling of any other string
   * (skipping stray characters, URL-safe letters, missing padding) is left
   * uninterpreted as `lenient`.
   */
  function DecodeToken(token: string, lenient: string -> seq<Byte>): (b: seq<Byte>)
    ensures (exists c :: Base64.Encode(c) == token) ==> Base64.Encode(b) == token
    ensures (forall c :: Base64.Encode(c) != token) ==> b == lenient(token)
  {
    match Base64.Decode(token)
    case Some(bytes) => Base64.EncodeDecode(token); bytes
    case None =>
      assert forall c :: Base64.Encode(c) != token by {
        forall c ensures Base64.Encode(c) != token {
          Base64.DecodeIffEncoded(token, c);
        }
      }
      lenient(token)
  }

  /** `AuthService.parseBasicToken`: decode, read as text, split on every ':'. */
  function ParseBasicToken(token: string, lenient: string -> seq<Byte>): (parts: seq<string>)
    ensures |parts| >= 1
    ensures forall i :: 0 <= i < |parts| ==> ':' !in parts[i]
    ensures Join(parts) == Text(DecodeToken(token, lenient))
  {
    var text := Text(DecodeToken(token, lenient));
    SplitPiecesColonFree(text);
    JoinSplit(text);
    Split(text)
  }

  /** The token of an ASCII text decodes to exactly that text. */
  lemma DecodeEncodedText(t: string, lenient: string -> seq<Byte>)
    requires IsAscii(t)
    ensures Text(DecodeToken(Base64.Encode(Bytes(t)), lenient)) == t
  {
    Base64.DecodeEncode(Bytes(t));
  }

  /** For a user name and a password free of ':' the token of "u:p" parses to exactly [u, p]; either may be empty. */
  lemma ParseEncodedCredentials(u: string, p: string, lenient: string -> seq<Byte>)
    requires IsAscii(u + ":" + p) && ':' !in u && ':' !in p
    ensures ParseBasicToken(Base64.Encode(Bytes(u + ":" + p)), lenient) == [u, p]
  {
    DecodeEncodedText(u + ":" + p, lenient);
    SplitAtColon(u, p);
    SplitColonFree(p);
  }

  /** A decoded text with no ':' is a single piece: there is no password slot. */
  lemma ParseWithoutColon(token: string, lenient: string -> seq<Byte>)
    requires ':' !in Text(DecodeToken(token, lenient))
    ensures ParseBasicToken(token, lenient) == [Text(DecodeToken(token, lenient))]
  {
  }

  /** The empty token is the encoding of the empty text, and it parses to [""]. */
  lemma ParseEmptyToken(lenient: string -> seq<Byte>)
    ensures ParseBasicToken("", lenient) == [""]
  {
  }

  /** The piece count is one more than the number of colons in the decoded text. */
  lemma ParseCount(token: string, lenient: string -> seq<Byte>)
    ensures |ParseBasicToken(token, lenient)| == Colons(Text(DecodeToken(token, lenient))) + 1
  {
    SplitCount(Text(DecodeToken(token, lenient)));
  }

  /**
   * Against section 2 of RFC 7617: the code's first piece is always the
   * RFC's user-id, and its second piece is the RFC's password exactly when
   * that password contains no ':'; otherwise the password is cut at its
   * first colon.
   */
  lemma ParseVersusRfc7617(token: string, lenient: string -> seq<Byte>)
    requires UserPass(Text(DecodeToken(token, lenient))).Some?
    ensures var parts, up := ParseBasicToken(token, lenient), UserPass(Text(DecodeToken(token, lenient))).value;
      |parts| >= 2 && parts[0] == up.0 && (parts[1] == up.1 <==> ':' !in up.1)
  {
    var t := Text(DecodeToken(token, lenient));
    var (u, p) := UserPass(t).value;
    SplitAtColon(u, p);
    SplitPiecesColonFree(p);
    if ':' !in p {
      SplitColonFree(p);
    }
  }

  /** A password containing ':' reaches the caller cut at its first colon, so never whole. */
  lemma PasswordCutAtColon(u: string, p: string, lenient: string -> seq<Byte>)
    requires IsAscii(u + ":" + p) && ':' !in u && ':' in p
    ensures var parts := ParseBasicToken(Base64.Encode(Bytes(u + ":" + p)), lenient);
      |parts| >= 2 && parts[0] == u && parts[1] == UserPass(p).value.0 && parts[1] != p
  {
    DecodeEncodedText(u + ":" + p, lenient);
    SplitAtColon(u, p);
    var (a, b) := UserPass(p).value;
    SplitAtColon(a, b);
    assert |a| < |p|;
  }

  /** The password "a:b" of user "u" reaches the caller as "a". */
  lemma PasswordWithColonTruncated(lenient: string -> seq<Byte>)
    ensures IsAscii("u:a:b")
    ensures var parts := ParseBasicToken(Base64.Encode(Bytes("u:a:b")), lenient); |parts| >= 2 && parts[1] == "a"
  {
    var t, p := "u:a:b", "a:b";
    assert t == "u" + ":" + p;
    assert IsAscii(t) by {
      assert forall i :: 0 <= i < 5 ==> t[i] as int < 128;
    }
    assert UserPass(p) == Some(("a", "b")) && ':' in p by {
      assert p[0] == 'a' && p[1] == ':' && p[1..] == ":b" && ":b"[1..] == "b";
      assert UserPass(":b") == Some(("", "b"));
      assert ['a'] + "" == "a";
    }
    PasswordCutAtColon("u", p, lenient);
  }

  // ---------------------------------------------------------------------------
  // getUserWithUsername
  // ---------------------------------------------------------------------------

  /** A row of the user table; `password` holds the stored bcrypt hash. */
  datatype User = User(id: int, userName: string, password: string)

  /** Why a collaborator (the database, the hash library) failed. */
  datatype Fault = Fault(detail: string)

  /** The user table as the query sees it, or the failure the query rejects with. */
  datatype Database = Online(rows: seq<User>) | Offline(fault: Fault)

  /** The first row whose user name is `name`, or None when no row has it. */
  function FirstWithName(rows: seq<User>, name: string): (r: Option<User>)
    ensures r.None? <==> forall i :: 0 <= i < |rows| ==> rows[i].userName != name
    ensures r.Some? ==> exists i :: 0 <= i < |rows| && rows[i] == r.value && r.value.userName == name &&
                                    forall j :: 0 <= j < i ==> rows[j].userName != name
  {
    if rows == [] then None
    else if rows[0].userName == name then Some(rows[0])
    else
      var r := FirstWithName(rows[1..], name);
      if r.Some? then FirstMatchShift(rows, name, r.value); r else r
  }

  /** A first match in the tail of `rows` is a first match in `rows` when the head does not match. */
  lemma FirstMatchShift(rows: seq<User>, name: string, u: User)
    requires |rows| >= 1 && rows[0].userName != name
    requires exists i :: 0 <= i < |rows[1..]| && rows[1..][i] == u && u.userName == name &&
                         forall j :: 0 <= j < i ==> rows[1..][j].userName != name
    ensures exists i :: 0 <= i < |rows| && rows[i] == u && u.userName == name &&
                        forall j :: 0 <= j < i ==> rows[j].userName != name
  {
  }

  /** `AuthService.getUserWithUsername`: the settled query `where({ user_name }).first()`. */
  function GetUserWithUsername(db: Database, name: string): (r: Result<Option<User>, Fault>)
    ensures db.Offline? <==> r.Failure?
    ensures db.Offline? ==> r.error == db.fault
    ensures r.Success? && r.value.Some? ==> r.value.value.userName == name && r.value.value in db.rows
    ensures r.Success? && r.value.None? ==> forall u :: u in db.rows ==> u.userName != name
  {
    match db
    case Offline(f) => Failure(f)
    case Online(rows) => Success(FirstWithName(rows, name))
  }
}
