/** Share records: the API's `Share`, the request and response shapes, the
    reading of a stored row, the public view of a share, and the making of
    a new share from a request. */
module Shares {
  import opened Wrappers
  import opened Text
  import opened CivilTime
  import opened Errors
  import opened Common
  import opened Expiry
  import opened Store

  /** `Share`: a share with its nullable columns read as Go zero values. */
  datatype Share = Share(
    id: string,
    content: string,
    title: string,
    expireAt: Time,
    password: string,
    authorId: int,
    hideAuthor: bool)

  datatype GetShareResponse = GetShareResponse(
    id: string,
    content: string,
    title: string,
    expiresIn: string,
    isPasswordProtected: bool,
    authorName: string,
    hideAuthor: bool)

  datatype CreateShareRequest = CreateShareRequest(
    content: string,
    title: string,
    expireIn: string,
    password: string,
    authorId: int,
    hideAuthor: bool)

  datatype EditShareRequest = EditShareRequest(
    title: string,
    content: string,
    setPassword: bool,
    password: string,
    expireIn: string,
    hideAuthor: bool)

  /** The author id a share without an author reads as. */
  const NoAuthor: int := -1

  /** The length of a share id. */
  const ShareIdLength: nat := 7

  /** `convertShareFromDB`: a NULL title or password reads as "", a NULL
      expiry as the zero time, a NULL author as `NoAuthor`; present values
      and the other columns are copied. */
  function ConvertShareFromDB(row: ShareRow): (s: Share)
    ensures s.id == row.id && s.content == row.content && s.hideAuthor == row.hideAuthor
    ensures row.title.None? ==> s.title == ""
    ensures row.title.Some? ==> s.title == row.title.value
    ensures row.expireAt.None? ==> IsZero(s.expireAt)
    ensures row.expireAt.Some? ==> s.expireAt == row.expireAt.value
    ensures row.password.None? ==> s.password == ""
    ensures row.password.Some? ==> s.password == row.password.value
    ensures row.authorId.None? ==> s.authorId == NoAuthor
    ensures row.authorId.Some? ==> s.authorId == row.authorId.value
  {
    Share(row.id, row.content, row.title.GetOr(""), row.expireAt.GetOr(Zero),
          row.password.GetOr(""), row.authorId.GetOr(NoAuthor), row.hideAuthor)
  }

  /** The gate of the public reads: a share with an expiry that `now` is
      strictly past. A zero expiry never expires. */
  predicate Expired(share: Share, now: Instant) {
    !IsZero(share.expireAt) && After(now, share.expireAt)
  }

  const ExpiredShare: Error := Plain("trying to access expired share")

  /** `createGetShareResponse`, with the clock reading `now` passed in. It
      fails only when the share names an author that no user row has, and
      otherwise copies id, content, title and the hide flag, marks password
      protection, describes a non-zero expiry and names the author. */
  function CreateGetShareResponse(share: Share, users: seq<User>, now: Instant): (r: Result<GetShareResponse, Error>)
    ensures r.Failure? <==> share.authorId != NoAuthor && forall u :: u in users ==> u.id != share.authorId
    ensures r.Failure? ==> Root(r.error) == NoRows
    ensures r.Success? ==> r.value.id == share.id && r.value.content == share.content
                           && r.value.title == share.title && r.value.hideAuthor == share.hideAuthor
    ensures r.Success? ==> (r.value.isPasswordProtected <==> share.password != "")
    ensures r.Success? && IsZero(share.expireAt) ==> r.value.expiresIn == ""
    ensures r.Success? && !IsZero(share.expireAt) ==> r.value.expiresIn == ExpiresInText(now, share.expireAt)
    ensures r.Success? && share.authorId == NoAuthor ==> r.value.authorName == ""
    ensures r.Success? && share.authorId != NoAuthor ==>
      exists u :: u in users && u.id == share.authorId && r.value.authorName == u.name
  {
    var expiresIn := if IsZero(share.expireAt) then "" else ExpiresInText(now, share.expireAt);
    var response := GetShareResponse(share.id, share.content, share.title, expiresIn,
                                     share.password != "", "", share.hideAuthor);
    if share.authorId == NoAuthor then Success(response)
    else
      match GetUserById(users, share.authorId)
      case Failure(e) => Failure(e)
      case Success(author) => Success(response.(authorName := author.name))
  }

  /** `createNewShare`, with the random draws of the id, the outcome of bcrypt
      and the clock reading passed in. The password is hashed only when one
      is given, and that happens before the expiry period is read, so a
      hashing error wins over a malformed period. */
  function CreateNewShare(request: CreateShareRequest, draws: seq<int>, hashed: BcryptOutput, now: Instant)
    : (r: Result<Share, Error>)
    requires |draws| == ShareIdLength && Draws(draws, |Letters|)
    ensures request.password != "" && hashed.err.Some? ==> r == Failure(Plain(hashed.err.value))
    ensures r.Success? <==>
      (request.password == "" || hashed.err.None?) &&
      (request.expireIn == "" || CreateExpirationDate(now, request.expireIn).Success?)
    ensures r.Failure? && (request.password == "" || hashed.err.None?) ==>
      r.error == CreateExpirationDate(now, request.expireIn).error
    ensures r.Success? ==> r.value.id == RandomId(draws) && |r.value.id| == ShareIdLength
    ensures r.Success? ==> r.value.content == request.content && r.value.title == request.title
                           && r.value.authorId == request.authorId && r.value.hideAuthor == request.hideAuthor
    ensures r.Success? ==> r.value.password == (if request.password == "" then "" else hashed.hash)
    ensures r.Success? && request.expireIn == "" ==> IsZero(r.value.expireAt)
    ensures r.Success? && request.expireIn != "" ==>
      r.value.expireAt == CreateExpirationDate(now, request.expireIn).value
  {
    var share := Share(RandomId(draws), request.content, request.title, Zero, "",
                       request.authorId, request.hideAuthor);
    var protected :=
      if request.password == "" then Success(share)
      else match CreatePasswordHash(hashed)
        case Failure(e) => Failure(e)
        case Success(hash) => Success(share.(password := hash));
    match protected
    case Failure(e) => Failure(e)
    case Success(s) =>
      if request.expireIn == "" then Success(s)
      else match CreateExpirationDate(now, request.expireIn)
        case Failure(e) => Failure(e)
        case Success(t) => Success(s.(expireAt := t))
  }
}
