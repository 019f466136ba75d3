/** The `protect` middleware: it reads the bearer token of the `Authorization` header, has it
    verified, loads the user it names and either attaches that user to the request and passes
    the request on, or answers with 401 or 500. */
module AuthMiddleware {
  import opened Base
  import opened Text
  import opened UserModel

  const BearerPrefix: string := "Bearer "

  /** The `name` of an error `jwt.verify` throws. */
  datatype ErrorName = JsonWebTokenError | TokenExpiredError | OtherError

  /** What `jwt.verify(token, secret)` does: return a payload, possibly without an `id`, or
      throw. The secret and the signature check live inside this oracle. */
  datatype Verification = Decoded(id: Option<UserId>) | Threw(name: ErrorName)

  /** The decision of the middleware: pass the request on with this user, or stop with a reply. */
  datatype Gate = Pass(user: PublicUser) | Stop(reply: Response)

  function Unauthorized(message: string): Gate {
    Stop(Response(401, message))
  }

  /** `authHeader.split(" ")[1]` for a header that starts with "Bearer ". */
  function Token(header: string): (token: string)
    requires BearerPrefix <= header
    ensures token == SplitOn(header[|BearerPrefix|..], ' ')[0]
  {
    var rest := header[|BearerPrefix|..];
    assert header == "Bearer" + [' '] + rest;
    SplitOnAfterWord("Bearer", rest, ' ');
    SplitOn(header, ' ')[1]
  }

  /** The error handler of the middleware, for an error thrown by `jwt.verify`. */
  function OnError(name: ErrorName): Response {
    match name
    case JsonWebTokenError => Response(401, "Invalid token")
    case TokenExpiredError => Response(401, "Token expired")
    case OtherError => Response(500, "Authentication failed")
  }

  /** The decision ladder of `protect`, over the header, the verification oracle and the stored
      users (whose ids are their positions); the user is loaded without its password. */
  function Authenticate(header: Option<string>, verify: string -> Verification, users: seq<User>): Gate {
    if header.None? || !(BearerPrefix <= header.value) then Unauthorized("No authentication token provided")
    else
      var token := Token(header.value);
      if token == "" then Unauthorized("Invalid token format")
      else match verify(token)
        case Threw(name) => Stop(OnError(name))
        case Decoded(id) =>
          if id.None? then Unauthorized("Invalid token payload")
          else if id.value >= |users| then Unauthorized("User not found")
          else Pass(Public(users[id.value]))
  }

  /** The part of a request the middleware reads and writes. */
  class Request {
    var authorization: Option<string>
    var user: Option<PublicUser>

    constructor (authorization: Option<string>)
      ensures this.authorization == authorization && user == None
    {
      this.authorization := authorization;
      user := None;
    }
  }

  /** `protect`: on success it sets `req.user` and calls `next`; otherwise it replies and
      leaves the request alone. */
  method Protect(req: Request, verify: string -> Verification, users: seq<User>)
    returns (reply: Option<Response>, next: bool)
    modifies req`user
    ensures Authenticate(req.authorization, verify, users).Pass? ==>
      next && reply.None? && req.user == Some(Authenticate(req.authorization, verify, users).user)
    ensures Authenticate(req.authorization, verify, users).Stop? ==>
      !next && reply == Some(Authenticate(req.authorization, verify, users).reply)
      && req.user == old(req.user)
  {
    var authHeader := req.authorization;
    if authHeader.None? || !(BearerPrefix <= authHeader.value) {
      return Some(Response(401, "No authentication token provided")), false;
    }
    var token := Token(authHeader.value);
    if token == "" {
      return Some(Response(401, "Invalid token format")), false;
    }
    var decoded := verify(token);
    if decoded.Threw? {
      return Some(OnError(decoded.name)), false;
    }
    if decoded.id.None? {
      return Some(Response(401, "Invalid token payload")), false;
    }
    if decoded.id.value >= |users| {
      return Some(Response(401, "User not found")), false;
    }
    req.user := Some(Public(users[decoded.id.value]));
    reply, next := None, true;
  }

  // ----- Properties -----

  /** The token is the text after "Bearer " up to the next space; it is empty exactly when
      nothing follows the prefix or another space does. */
  lemma TokenIsSecondSegment(header: string)
    requires BearerPrefix <= header
    ensures Token(header) <= header[|BearerPrefix|..] && ' ' !in Token(header)
    ensures Token(header) == "" <==>
      |header| == |BearerPrefix| || header[|BearerPrefix|] == ' '
  {
    var rest := header[|BearerPrefix|..];
    SplitOnFirst(rest, ' ');
    if rest != [] && rest[0] != ' ' {
      assert SplitOn(rest, ' ')[0][0] == rest[0];
    }
  }

  /** A request passes exactly when the header carries a non-empty bearer token whose payload
      names a stored user, and then it carries that user without the password. */
  lemma PassExactlyOnValidToken(header: Option<string>, verify: string -> Verification, users: seq<User>)
    ensures Authenticate(header, verify, users).Pass? <==>
      header.Some? && BearerPrefix <= header.value && Token(header.value) != ""
      && verify(Token(header.value)).Decoded? && verify(Token(header.value)).id.Some?
      && verify(Token(header.value)).id.value < |users|
    ensures Authenticate(header, verify, users).Pass? ==>
      Authenticate(header, verify, users).user == Public(users[verify(Token(header.value)).id.value])
  {
  }

  /** Every refusal is a 401, except an unexpected verification error, which is a 500. */
  lemma StopStatuses(header: Option<string>, verify: string -> Verification, users: seq<User>)
    requires Authenticate(header, verify, users).Stop?
    ensures Authenticate(header, verify, users).reply.status in {401, 500}
    ensures Authenticate(header, verify, users).reply.status == 500 <==>
      header.Some? && BearerPrefix <= header.value && Token(header.value) != ""
      && verify(Token(header.value)) == Threw(OtherError)
  {
  }

  /** A missing header, or one that does not start with exactly "Bearer ", is refused before
      anything is verified. */
  lemma NoBearerHeader(header: Option<string>, verify: string -> Verification, users: seq<User>)
    requires header.None? || !(BearerPrefix <= header.value)
    ensures Authenticate(header, verify, users) == Unauthorized("No authentication token provided")
  {
  }

  /** "Bearer " alone, or followed by a second space, is an empty token. */
  lemma EmptyTokenRefused(rest: string, verify: string -> Verification, users: seq<User>)
    requires rest == [] || rest[0] == ' '
    ensures Authenticate(Some(BearerPrefix + rest), verify, users) == Unauthorized("Invalid token format")
  {
    var header := BearerPrefix + rest;
    assert header[..|BearerPrefix|] == BearerPrefix && header[|BearerPrefix|..] == rest;
    TokenIsSecondSegment(header);
  }

  /** With a usable token, the payload and the user are checked in that order, and the errors
      the verifier throws are told apart by name. */
  lemma TokenOutcomes(header: string, verify: string -> Verification, users: seq<User>)
    requires BearerPrefix <= header && Token(header) != ""
    ensures verify(Token(header)) == Decoded(None) ==>
      Authenticate(Some(header), verify, users) == Unauthorized("Invalid token payload")
    ensures (verify(Token(header)).Decoded? && verify(Token(header)).id.Some?
             && verify(Token(header)).id.value >= |users|) ==>
      Authenticate(Some(header), verify, users) == Unauthorized("User not found")
    ensures verify(Token(header)) == Threw(JsonWebTokenError) ==>
      Authenticate(Some(header), verify, users) == Unauthorized("Invalid token")
    ensures verify(Token(header)) == Threw(TokenExpiredError) ==>
      Authenticate(Some(header), verify, users) == Unauthorized("Token expired")
  {
  }
}
