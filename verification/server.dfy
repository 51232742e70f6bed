/** The request plumbing of the API that decides something: reading the
    bearer token of the `Authorization` header, turning the last error of a
    request into a status and a message, and forwarding server errors to
    Discord in chunks. */
module Server {
  import opened Wrappers
  import opened Text
  import opened Errors

  const StatusUnauthorized: int := 401
  const StatusNotFound: int := 404
  const StatusConflict: int := 409
  const StatusInternalServerError: int := 500

  const HeaderRequired: string := "Authorization header is required"
  const FormatRequired: string := "Authorization header format must be Bearer {token}"

  /** What the header check of `AuthMiddleware` decides: abort with 401 and
      an error text, or go on with the session token. */
  datatype AuthDecision = Rejected(error: string) | Token(sessionId: string)

  /** The header check of `AuthMiddleware`: an empty header is refused first;
      then the header must split on spaces into exactly `Bearer` and a token. */
  function ParseAuthHeader(header: string): AuthDecision {
    if header == "" then Rejected(HeaderRequired)
    else
      var parts := Split(header, ' ');
      if |parts| != 2 || parts[0] != "Bearer" then Rejected(FormatRequired)
      else Token(parts[1])
  }

  /** `Bearer`, one space and a space-free token is accepted, with that token. */
  lemma BearerHeaderAccepted(token: string)
    requires ' ' !in token
    ensures ParseAuthHeader("Bearer " + token) == Token(token)
  {
    assert "Bearer " + token == "Bearer" + [' '] + token;
    SplitCons("Bearer", ' ', token);
  }

  /** An accepted header is `Bearer`, one space and its token, which holds no space. */
  lemma AcceptedHeaderShape(header: string)
    requires ParseAuthHeader(header).Token?
    ensures header == "Bearer " + ParseAuthHeader(header).sessionId
    ensures ' ' !in ParseAuthHeader(header).sessionId
  {
    SplitTwo(header, ' ');
    var i :| 0 <= i < |header| && header[i] == ' ' && ' ' !in header[..i] && ' ' !in header[i + 1..];
    assert Split(header, ' ') == [header[..i], header[i + 1..]];
    assert header == header[..i] + [' '] + header[i + 1..];
  }

  /** A header is accepted exactly when it is `Bearer`, one space and a token
      without spaces; the token is the rest of the header, possibly empty.
      An empty header gets its own error, every other refused one the
      format error. */
  lemma BearerAccepted(header: string)
    ensures ParseAuthHeader(header).Token? <==>
      |header| >= 7 && header[..7] == "Bearer " && ' ' !in header[7..]
    ensures ParseAuthHeader(header).Token? ==> ParseAuthHeader(header).sessionId == header[7..]
    ensures header == "" <==> ParseAuthHeader(header) == Rejected(HeaderRequired)
    ensures header != "" && ParseAuthHeader(header).Rejected? ==> ParseAuthHeader(header).error == FormatRequired
  {
    if |header| >= 7 && header[..7] == "Bearer " && ' ' !in header[7..] {
      assert header == "Bearer " + header[7..];
      BearerHeaderAccepted(header[7..]);
    }
    if ParseAuthHeader(header).Token? {
      AcceptedHeaderShape(header);
    }
  }

  /** The body of an error reply. */
  datatype APIError = APIError(message: string, details: string)

  /** A reply: its status and its body. */
  datatype Reply = Reply(status: int, body: APIError)

  const Unexpected: string := "An unexpected server error encountered"

  /** What `ErrorHandlerMiddleware` answers for an error, stated by the type
      at its root: no rows is 404 "Resource not found"; a common not-found
      or an expired-share error is 404 with that error's text; a taken user
      name is 409; the common password error is 401 with its text; anything
      else is 500. */
  function Classification(err: Error): (int, string) {
    match Root(err)
    case NoRows => (StatusNotFound, "Resource not found")
    case CommonNotFound => (StatusNotFound, RootText(err))
    case SharesExpiredShare => (StatusNotFound, RootText(err))
    case UsersUserAlreadyExists => (StatusConflict, "User already exists")
    case CommonPasswordIncorrect => (StatusUnauthorized, RootText(err))
    case _ => (StatusInternalServerError, Unexpected)
  }

  /** The chain of checks of `ErrorHandlerMiddleware`, in source order, each
      match overriding what an earlier one set. */
  method ClassifyError(err: Error) returns (status: int, message: string)
    ensures (status, message) == Classification(err)
  {
    status := StatusInternalServerError;
    message := Unexpected;
    if Root(err) == CommonPasswordIncorrect {
      status := StatusUnauthorized;
      message := RootText(err);
    }
    if Root(err) == UsersUserAlreadyExists {
      status := StatusConflict;
      message := "User already exists";
    }
    if Root(err) == SharesExpiredShare {
      status := StatusNotFound;
      message := RootText(err);
    }
    if Root(err) == CommonNotFound {
      status := StatusNotFound;
      message := RootText(err);
    }
    if Root(err) == NoRows {
      status := StatusNotFound;
      message := "Resource not found";
    }
  }

  /** The messages posted to Discord, in order, joined back together. */
  function Concat(chunks: seq<string>): string {
    if |chunks| == 0 then "" else Concat(chunks[..|chunks| - 1]) + chunks[|chunks| - 1]
  }

  const DiscordLimit: int := 2000

  /** `sendToDiscord`: the message is posted in consecutive pieces of
      `DiscordLimit` characters, the last one possibly shorter; an empty
      message posts nothing. The posts are returned instead of sent. */
  method SendToDiscord(message: string) returns (posts: seq<string>)
    ensures Concat(posts) == message
    ensures forall i :: 0 <= i < |posts| ==> 0 < |posts[i]| <= DiscordLimit
    ensures forall i :: 0 <= i < |posts| - 1 ==> |posts[i]| == DiscordLimit
    ensures posts == [] <==> message == ""
  {
    posts := [];
    var sentChars := 0;
    while sentChars < |message|
      invariant 0 <= sentChars <= |message|
      invariant Concat(posts) == message[..sentChars]
      invariant forall i :: 0 <= i < |posts| ==> 0 < |posts[i]| <= DiscordLimit
      invariant forall i :: 0 <= i < |posts| ==> |posts[i]| == DiscordLimit || (i == |posts| - 1 && sentChars == |message|)
      invariant posts == [] <==> sentChars == 0
      decreases |message| - sentChars
    {
      var end := if sentChars + DiscordLimit < |message| then sentChars + DiscordLimit else |message|;
      var chunk := message[sentChars..end];
      assert message[..end] == message[..sentChars] + chunk;
      ghost var before := posts;
      posts := posts + [chunk];
      assert posts[..|posts| - 1] == before;
      sentChars := end;
    }
    assert message[..sentChars] == message;
  }

  /** `sendError`: errors with a status of 500 or above are forwarded to
      Discord; the reply carries the message, and the error's own text only
      when the server runs in debug mode. */
  method SendError(statusCode: int, message: string, err: Error, debugging: bool)
    returns (posts: seq<string>, reply: Reply)
    ensures statusCode >= StatusInternalServerError ==> Concat(posts) == Message(err)
    ensures statusCode < StatusInternalServerError ==> posts == []
    ensures forall i :: 0 <= i < |posts| ==> 0 < |posts[i]| <= DiscordLimit
    ensures reply.status == statusCode && reply.body.message == message
    ensures reply.body.details == if debugging then Message(err) else ""
  {
    posts := [];
    if statusCode >= StatusInternalServerError {
      posts := SendToDiscord(Message(err));
    }
    var body := APIError(message, "");
    if debugging {
      body := body.(details := Message(err));
    }
    reply := Reply(statusCode, body);
  }

  /** `ErrorHandlerMiddleware` after the handler ran: with no error nothing
      is answered; otherwise only the last error is classified and sent. */
  method HandleErrors(errs: seq<Error>, debugging: bool) returns (posts: seq<string>, reply: Option<Reply>)
    ensures errs == [] ==> posts == [] && reply == None
    ensures errs != [] ==>
      var (status, message) := Classification(errs[|errs| - 1]);
      reply == Some(Reply(status, APIError(message, if debugging then Message(errs[|errs| - 1]) else "")))
      && (status >= StatusInternalServerError ==> Concat(posts) == Message(errs[|errs| - 1]))
      && (status < StatusInternalServerError ==> posts == [])
  {
    posts := [];
    reply := None;
    if |errs| > 0 {
      var err := errs[|errs| - 1];
      var status, message := ClassifyError(err);
      var sent;
      posts, sent := SendError(status, message, err, debugging);
      reply := Some(sent);
    }
  }

  /** A missing row, however deeply wrapped, is always a 404. */
  lemma NoRowsIsNotFound(err: Error)
    requires Root(err) == NoRows
    ensures Classification(err) == (StatusNotFound, "Resource not found")
  {
  }

  /** Only four statuses come out, and only the unexpected ones are 500. */
  lemma KnownStatuses(err: Error)
    ensures Classification(err).0 in {StatusUnauthorized, StatusNotFound, StatusConflict, StatusInternalServerError}
    ensures Classification(err).0 == StatusInternalServerError <==> Root(err) in {SharesPasswordIncorrect, UsersWrongPassword, Other}
  {
  }

  /** The password errors the handlers actually return are not the type the
      classifier tests for, so a wrong share password and a failed login are
      both reported as unexpected server errors, as is an expired share. */
  lemma PasswordErrorsAreServerErrors()
    ensures Classification(PasswordIncorrect) == (StatusInternalServerError, Unexpected)
    ensures Classification(WrongPassword) == (StatusInternalServerError, Unexpected)
    ensures Classification(Plain("trying to access expired share")) == (StatusInternalServerError, Unexpected)
    ensures Classification(CommonPasswordIncorrectError) == (StatusUnauthorized, "password is incorrect")
    ensures Classification(NotFound) == (StatusNotFound, "resource not found")
    ensures Classification(UserAlreadyExists) == (StatusConflict, "User already exists")
  {
  }
}
