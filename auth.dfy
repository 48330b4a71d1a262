/** The route guards (middleware/authMiddleware.js): `protect` takes the bearer
    token from the Authorization header, verifies it and loads the caller;
    `admin` lets only administrators through. Token verification and the user
    lookup are parameters of the model. */
module AuthMiddleware {
  import opened Common
  import opened Seqs

  /** A User document (models/User.js). */
  datatype UserRecord = UserRecord(id: int, name: string, email: string, password: string,
                                   role: Role, profilePhoto: string, isBlocked: bool)

  /** The user as attached to the request: every attribute except the password. */
  datatype PublicUser = PublicUser(id: int, name: string, email: string, role: Role,
                                   profilePhoto: string, isBlocked: bool)

  function WithoutPassword(u: UserRecord): PublicUser
  {
    PublicUser(u.id, u.name, u.email, u.role, u.profilePhoto, u.isBlocked)
  }

  /** What the user lookup can do: find the user, find nothing, or throw. */
  datatype Lookup = Found(user: UserRecord) | NoUser | LookupFailed

  function IsSpace(): char -> bool
  {
    (c: char) => c == ' '
  }

  /** Glues words back together with single spaces. */
  function Join(parts: seq<string>): string
    requires |parts| >= 1
  {
    if |parts| == 1 then parts[0] else parts[0] + " " + Join(parts[1..])
  }

  /** JavaScript's `s.split(" ")`: every single space separates two words, so
      two adjacent spaces give an empty word between them. */
  function Split(s: string): (parts: seq<string>)
    ensures |parts| >= 1
    ensures forall w :: w in parts ==> ' ' !in w
    ensures Join(parts) == s
    decreases |s|
  {
    match FindFirst(s, IsSpace())
    case None => [s]
    case Some(i) =>
      var rest := Split(s[i + 1..]);
      assert s == s[..i] + " " + s[i + 1..];
      assert ' ' !in s[..i] by {
        forall j | 0 <= j < i ensures s[..i][j] != ' ' {
          assert !IsSpace()(s[j]);
        }
      }
      [s[..i]] + rest
  }

  /** A first word without spaces, then a space, splits off exactly that word. */
  lemma SplitWordThenSpace(w: string, s: string)
    requires ' ' !in w
    ensures Split(w + " " + s) == [w] + Split(s)
  {
    var h := w + " " + s;
    assert h[|w|] == ' ';
    assert forall j :: 0 <= j < |w| ==> h[j] == w[j];
    assert h[..|w|] == w && h[|w| + 1..] == s;
  }

  /** The first word of a string is everything up to its first space. */
  lemma SplitFirstWord(w: string, rest: string)
    requires ' ' !in w
    requires rest == "" || rest[0] == ' '
    ensures Split(w + rest)[0] == w
  {
    if rest == "" {
      assert w + rest == w;
      assert forall j :: 0 <= j < |w| ==> !IsSpace()(w[j]);
    } else {
      assert rest == " " + rest[1..];
      assert w + rest == w + " " + rest[1..];
      SplitWordThenSpace(w, rest[1..]);
    }
  }

  /** Splitting words that hold no spaces after joining them gives the words back. */
  lemma {:induction false} SplitOfJoin(parts: seq<string>)
    requires |parts| >= 1
    requires forall w :: w in parts ==> ' ' !in w
    ensures Split(Join(parts)) == parts
  {
    if |parts| == 1 {
      assert parts[0] in parts;
      assert forall j :: 0 <= j < |parts[0]| ==> !IsSpace()(parts[0][j]);
    } else {
      assert parts[0] in parts;
      assert forall w :: w in parts[1..] ==> w in parts;
      SplitOfJoin(parts[1..]);
      SplitWordThenSpace(parts[0], Join(parts[1..]));
      assert parts == [parts[0]] + parts[1..];
    }
  }

  /** `authHeader?.split(" ")[1]`, where a missing or empty word counts as no token. */
  function ExtractToken(header: Option<string>): Option<string>
  {
    if header.None? then None
    else
      var words := Split(header.value);
      if |words| >= 2 && words[1] != "" then Some(words[1]) else None
  }

  /** The token is the second space-separated word; the first word is not inspected. */
  lemma ExtractTokenIsSecondWord(scheme: string, token: string, rest: string)
    requires ' ' !in scheme && ' ' !in token
    requires rest == "" || rest[0] == ' '
    ensures ExtractToken(Some(scheme + " " + token + rest)) == if token == "" then None else Some(token)
  {
    assert scheme + " " + token + rest == scheme + " " + (token + rest);
    SplitWordThenSpace(scheme, token + rest);
    SplitFirstWord(token, rest);
  }

  /** A missing header, a header without a space, and a header whose second word
      is empty all carry no token. */
  lemma ExtractTokenMissing(header: Option<string>)
    requires header.None? || ' ' !in header.value
             || (exists scheme :: ' ' !in scheme && header.value == scheme + " ")
    ensures ExtractToken(header).None?
  {
    if header.Some? && ' ' !in header.value {
      assert FindFirst(header.value, IsSpace()).None?;
    } else if header.Some? {
      var scheme :| ' ' !in scheme && header.value == scheme + " ";
      SplitWordThenSpace(scheme, "");
      assert scheme + " " + "" == scheme + " ";
      assert FindFirst("", IsSpace()).None?;
    }
  }

  /** The outcome of `protect`: go on to the handler with the caller attached,
      or answer with a status and a message. */
  datatype Outcome = Proceed(user: PublicUser) | Reject(status: int, message: string)

  /** protect as a decision: no token, a token `verify` rejects, a decoded id that
      names no user, and a failing lookup each end the request with 401. */
  function Authenticate(header: Option<string>, verify: string -> Option<int>, lookup: int -> Lookup): Outcome
  {
    match ExtractToken(header)
    case None => Reject(Unauthorized, "Not Authorized")
    case Some(token) =>
      match verify(token)
      case None => Reject(Unauthorized, "Token invalid or expired")
      case Some(id) =>
        match lookup(id)
        case Found(u) => Proceed(WithoutPassword(u))
        case NoUser => Reject(Unauthorized, "User not found")
        case LookupFailed => Reject(Unauthorized, "Token invalid or expired")
  }

  /** protect lets a request through exactly when the header carries a token that
      verifies to the id of an existing user, whose password-free record it attaches;
      every refusal is a 401. */
  lemma AuthenticateCases(header: Option<string>, verify: string -> Option<int>, lookup: int -> Lookup)
    ensures Authenticate(header, verify, lookup).Proceed? <==>
      ExtractToken(header).Some? && verify(ExtractToken(header).value).Some?
      && lookup(verify(ExtractToken(header).value).value).Found?
    ensures Authenticate(header, verify, lookup).Proceed? ==>
      var u := lookup(verify(ExtractToken(header).value).value).user;
      Authenticate(header, verify, lookup).user == WithoutPassword(u) && Authenticate(header, verify, lookup).user.id == u.id
    ensures Authenticate(header, verify, lookup).Reject? ==> Authenticate(header, verify, lookup).status == Unauthorized
  {
  }

  /** `User.findByPk` as written: User is a Mongoose model, which has no `findByPk`,
      so the call throws before any query is made. */
  function FindByPkOnMongooseUser(): int -> Lookup
  {
    (id: int) => LookupFailed
  }

  /** protect as written refuses every request with 401; a request whose token
      verifies gets "Token invalid or expired" from the catch block. */
  lemma ProtectAsWrittenRejectsAll(header: Option<string>, verify: string -> Option<int>)
    ensures Authenticate(header, verify, FindByPkOnMongooseUser()).Reject?
    ensures Authenticate(header, verify, FindByPkOnMongooseUser()).status == Unauthorized
    ensures ExtractToken(header).Some? && verify(ExtractToken(header).value).Some? ==>
              Authenticate(header, verify, FindByPkOnMongooseUser()).message == "Token invalid or expired"
  {
  }

  /** With a well-formed "<scheme> <token>" header, the scheme word plays no part. */
  lemma SchemeIsIgnored(scheme1: string, scheme2: string, token: string,
                        verify: string -> Option<int>, lookup: int -> Lookup)
    requires ' ' !in scheme1 && ' ' !in scheme2 && ' ' !in token
    ensures Authenticate(Some(scheme1 + " " + token), verify, lookup)
         == Authenticate(Some(scheme2 + " " + token), verify, lookup)
  {
    ExtractTokenIsSecondWord(scheme1, token, "");
    ExtractTokenIsSecondWord(scheme2, token, "");
    assert scheme1 + " " + token + "" == scheme1 + " " + token;
    assert scheme2 + " " + token + "" == scheme2 + " " + token;
  }

  /** admin as a decision: only an attached administrator gets through. */
  predicate AdminAllows(user: Option<PublicUser>)
  {
    user.Some? && user.value.role == Admin
  }

  /** A request behind `protect` then `admin` reaches its handler exactly when the
      token names an existing user whose role is admin. */
  lemma ProtectThenAdmin(header: Option<string>, verify: string -> Option<int>, lookup: int -> Lookup)
    ensures (Authenticate(header, verify, lookup).Proceed? && AdminAllows(Some(Authenticate(header, verify, lookup).user)))
      <==> (ExtractToken(header).Some? && verify(ExtractToken(header).value).Some?
            && lookup(verify(ExtractToken(header).value).value).Found?
            && lookup(verify(ExtractToken(header).value).value).user.role == Admin)
  {
  }

  /** The JSON reply a guard sends when it stops a request. */
  datatype Response = Response(status: int, message: string)

  /** The parts of an Express request and response the guards touch. */
  class Request {
    const authorization: Option<string>
    var user: Option<PublicUser>
    var nextCalls: nat
    var response: Option<Response>

    constructor (authorization: Option<string>)
      ensures this.authorization == authorization
      ensures user.None? && nextCalls == 0 && response.None?
    {
      this.authorization := authorization;
      user := None;
      nextCalls := 0;
      response := None;
    }

    /** protect: on success attaches the caller and calls `next` once; otherwise
        sends the 401 and does not call `next`. When the lookup finds no user,
        `req.user` has already been assigned its empty result. */
    method Protect(verify: string -> Option<int>, lookup: int -> Lookup)
      modifies this
      ensures var outcome := Authenticate(authorization, verify, lookup);
        && (outcome.Proceed? ==>
              user == Some(outcome.user) && nextCalls == old(nextCalls) + 1 && response == old(response))
        && (outcome.Reject? ==>
              nextCalls == old(nextCalls) && response == Some(Response(outcome.status, outcome.message)))
      ensures Authenticate(authorization, verify, lookup).Reject? ==>
        user == if Authenticate(authorization, verify, lookup).message == "User not found" then None else old(user)
    {
      var token := ExtractToken(authorization);
      if token.None? {
        response := Some(Response(Unauthorized, "Not Authorized"));
        return;
      }
      var decoded := verify(token.value);
      if decoded.None? {
        response := Some(Response(Unauthorized, "Token invalid or expired"));
        return;
      }
      var found := lookup(decoded.value);
      if found.LookupFailed? {
        response := Some(Response(Unauthorized, "Token invalid or expired"));
        return;
      }
      user := if found.Found? then Some(WithoutPassword(found.user)) else None;
      if user.None? {
        response := Some(Response(Unauthorized, "User not found"));
        return;
      }
      nextCalls := nextCalls + 1;
    }

    /** admin: calls `next` when the attached user is an administrator, otherwise sends 403. */
    method AdminGuard()
      modifies this
      ensures user == old(user)
      ensures AdminAllows(user) ==> nextCalls == old(nextCalls) + 1 && response == old(response)
      ensures !AdminAllows(user) ==>
        nextCalls == old(nextCalls) && response == Some(Response(Forbidden, "Admin access only"))
    {
      if user.Some? && user.value.role == Admin {
        nextCalls := nextCalls + 1;
      } else {
        response := Some(Response(Forbidden, "Admin access only"));
      }
    }
  }
}
