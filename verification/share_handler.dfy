/** `ShareDBHandler`: the share operations of the API over the tables of the
    connection it holds. Reads are functions of the tables; the operations
    that execute a statement change `shares` and nothing else. */
module ShareHandlers {
  import opened Wrappers
  import opened Text
  import opened CivilTime
  import opened Errors
  import opened Common
  import opened Expiry
  import opened Store
  import opened Shares
  import opened ShareSql

  /** The error `readShareFromDB` and `readShareFromDBFromUser` report when no row matches. */
  function ReadError(id: string): Error {
    Wrapped("error getting share with id '" + id + "': ", ErrNoRows)
  }

  const CreateFailed: string := "couldn't create new share: "
  /** What PostgreSQL reports for the text `UpdateShare` formats. */
  const UpdateSyntaxError: Error := Plain("ERROR: syntax error at or near \"VALUES\" (SQLSTATE 42601)")
  const QueryFailed: string := "error querying shares: "

  function DeleteFailed(shareId: string, userId: int): string {
    "couldn't delete share with id '" + shareId + "' for user with id '" + FormatInt(userId) + "': "
  }

  /** Whether the row filed under `id` exists and belongs to `userId`. */
  predicate Owns(shares: map<string, ShareRow>, id: string, userId: int) {
    id in shares && shares[id].authorId == Some(userId)
  }

  /** The ids of the shares `readSharesFromDB` returns: the ones whose author
      is `userId`, provided a user with that id exists (the inner side of
      the join). */
  function OwnedIds(shares: map<string, ShareRow>, users: seq<User>, userId: int): (ids: set<string>)
    ensures forall k :: k in ids <==> Owns(shares, k, userId) && exists u :: u in users && u.id == userId
  {
    if FindById(users, userId).Some? then
      assert users[FindById(users, userId).value] in users;
      set k | k in shares && shares[k].authorId == Some(userId)
    else {}
  }

  /** The shares table after a `WHERE id = .. AND author_id = ..` update:
      only the owned row with that id takes the SET list. */
  function Updated(shares: map<string, ShareRow>, id: string, userId: int, assignments: seq<Column>)
    : (r: map<string, ShareRow>)
    ensures r.Keys == shares.Keys
    ensures forall k :: k in r && !(k == id && Owns(shares, id, userId)) ==> r[k] == shares[k]
    ensures Owns(shares, id, userId) ==> r[id] == AssignAll(shares[id], assignments)
  {
    if Owns(shares, id, userId) then shares[id := AssignAll(shares[id], assignments)] else shares
  }

  /** The shares table after a `WHERE id = .. AND author_id = ..` delete:
      the owned row with that id is gone, every other row stays. */
  function Deleted(shares: map<string, ShareRow>, id: string, userId: int): (r: map<string, ShareRow>)
    ensures r.Keys == if Owns(shares, id, userId) then shares.Keys - {id} else shares.Keys
    ensures forall k :: k in r ==> r[k] == shares[k]
  {
    if Owns(shares, id, userId) then shares - {id} else shares
  }

  class ShareHandler {
    const db: Database

    constructor (db: Database)
      ensures this.db == db
    {
      this.db := db;
    }

    /** `readShareFromDB`: the share filed under `id`, read with its NULLs as
        zero values, or a no-rows error naming the id. */
    function ReadShare(id: string): (r: Result<Share, Error>)
      reads db
      ensures r.Success? <==> id in db.shares
      ensures r.Success? ==> r.value == ConvertShareFromDB(db.shares[id])
      ensures db.Valid() && r.Success? ==> r.value.id == id
      ensures r.Failure? ==> r.error == ReadError(id) && Root(r.error) == NoRows
    {
      if id in db.shares then Success(ConvertShareFromDB(db.shares[id])) else Failure(ReadError(id))
    }

    /** `readShareFromDBFromUser`: as `ReadShare`, but a share of another
        author (or of none) is just as missing. */
    function ReadOwnedShare(id: string, userId: int): (r: Result<Share, Error>)
      reads db
      ensures r.Success? <==> Owns(db.shares, id, userId)
      ensures r.Success? ==> r.value == ConvertShareFromDB(db.shares[id]) && r.value.authorId == userId
      ensures r.Failure? ==> r.error == ReadError(id) && Root(r.error) == NoRows
    {
      if Owns(db.shares, id, userId) then Success(ConvertShareFromDB(db.shares[id])) else Failure(ReadError(id))
    }

    /** `GetShare`, the public read, with the clock reading `now` passed in:
        a missing share, then an expired one, then a missing author stop it,
        in that order; a share that hides its author never names it. */
    function GetShare(id: string, now: Instant): (r: Result<GetShareResponse, Error>)
      reads db
      ensures id !in db.shares ==> r == Failure(ReadError(id))
      ensures id in db.shares && Expired(ConvertShareFromDB(db.shares[id]), now) ==> r == Failure(ExpiredShare)
      ensures r.Success? <==> id in db.shares && !Expired(ConvertShareFromDB(db.shares[id]), now)
                              && CreateGetShareResponse(ConvertShareFromDB(db.shares[id]), db.users, now).Success?
      ensures r.Success? ==>
        var view := CreateGetShareResponse(ConvertShareFromDB(db.shares[id]), db.users, now).value;
        r.value == view.(authorName := if view.hideAuthor then "" else view.authorName)
      ensures r.Success? && r.value.hideAuthor ==> r.value.authorName == ""
    {
      match ReadShare(id)
      case Failure(e) => Failure(e)
      case Success(share) =>
        if Expired(share, now) then Failure(ExpiredShare)
        else
          match CreateGetShareResponse(share, db.users, now)
          case Failure(e) => Failure(e)
          case Success(view) =>
            Success(if view.hideAuthor then view.(authorName := "") else view)
    }

    /** `GetShareForEdit`: the owner's view of one of their shares, expired or
        not, with the author named even when hidden. */
    function GetShareForEdit(shareId: string, userId: int, now: Instant): (r: Result<GetShareResponse, Error>)
      reads db
      ensures !Owns(db.shares, shareId, userId) ==> r == Failure(ReadError(shareId))
      ensures r.Success? <==> Owns(db.shares, shareId, userId)
                              && (userId == NoAuthor || exists u :: u in db.users && u.id == userId)
      ensures r.Success? ==> r == CreateGetShareResponse(ConvertShareFromDB(db.shares[shareId]), db.users, now)
    {
      match ReadOwnedShare(shareId, userId)
      case Failure(e) => Failure(e)
      case Success(share) => CreateGetShareResponse(share, db.users, now)
    }

    /** `GetProtectedShare`, with bcrypt's comparison and the clock passed in:
        a missing share, then an expired one, then a wrong password, then a
        missing author stop it, in that order. */
    function GetProtectedShare(id: string, password: string, compare: BcryptCompare, now: Instant)
      : (r: Result<GetShareResponse, Error>)
      reads db
      ensures id !in db.shares ==> r == Failure(ReadError(id))
      ensures id in db.shares && Expired(ConvertShareFromDB(db.shares[id]), now) ==> r == Failure(ExpiredShare)
      ensures id in db.shares && !Expired(ConvertShareFromDB(db.shares[id]), now)
              && compare(ConvertShareFromDB(db.shares[id]).password, password).Some? ==>
              r == Failure(PasswordIncorrect)
      ensures r.Success? <==> id in db.shares && !Expired(ConvertShareFromDB(db.shares[id]), now)
                              && compare(ConvertShareFromDB(db.shares[id]).password, password).None?
                              && CreateGetShareResponse(ConvertShareFromDB(db.shares[id]), db.users, now).Success?
      ensures r.Success? ==> r == CreateGetShareResponse(ConvertShareFromDB(db.shares[id]), db.users, now)
    {
      match ReadShare(id)
      case Failure(e) => Failure(e)
      case Success(share) =>
        if Expired(share, now) then Failure(ExpiredShare)
        else if !IsPasswordCorrect(compare, share.password, password) then Failure(PasswordIncorrect)
        else CreateGetShareResponse(share, db.users, now)
    }

    /** `IsPasswordProtected`: whether the stored password column holds a
        non-empty value; expiry is not consulted. */
    function IsPasswordProtected(id: string): (r: Result<bool, Error>)
      reads db
      ensures r.Success? <==> id in db.shares
      ensures r.Success? ==> (r.value <==> db.shares[id].password.Some? && db.shares[id].password.value != "")
      ensures r.Failure? ==> r == Failure(ReadError(id))
    {
      match ReadShare(id)
      case Failure(e) => Failure(e)
      case Success(share) => Success(share.password != "")
    }

    /** `GetShares` over `readSharesFromDB`, with the failure of the query
        passed in as `fault`: the views of the user's shares, one per share,
        in the order the rows come back (which no ORDER BY fixes). Expired
        shares are listed too, and authors are named even when hidden. */
    method GetShares(userId: int, now: Instant, fault: Option<string>) returns (r: Result<seq<GetShareResponse>, Error>)
      requires db.Valid()
      ensures fault.Some? ==> r == Failure(Wrapped(QueryFailed, Plain(fault.value)))
      ensures fault.None? ==> r.Success?
      ensures r.Success? ==> |r.value| == |OwnedIds(db.shares, db.users, userId)|
      ensures r.Success? ==> forall i :: 0 <= i < |r.value| ==>
        r.value[i].id in OwnedIds(db.shares, db.users, userId)
        && Success(r.value[i]) == CreateGetShareResponse(ConvertShareFromDB(db.shares[r.value[i].id]), db.users, now)
      ensures r.Success? ==> forall k :: k in OwnedIds(db.shares, db.users, userId) ==>
        exists i :: 0 <= i < |r.value| && r.value[i].id == k
    {
      if fault.Some? {
        return Failure(Wrapped(QueryFailed, Plain(fault.value)));
      }
      var owned := OwnedIds(db.shares, db.users, userId);
      var rest := owned;
      var views: seq<GetShareResponse> := [];
      ghost var ids: seq<string> := [];
      while rest != {}
        invariant rest <= owned
        invariant |views| + |rest| == |owned|
        invariant |ids| == |views| && forall i :: 0 <= i < |views| ==> ids[i] == views[i].id
        invariant forall i :: 0 <= i < |views| ==>
          views[i].id in owned - rest
          && Success(views[i]) == CreateGetShareResponse(ConvertShareFromDB(db.shares[views[i].id]), db.users, now)
        invariant forall k :: k in owned - rest ==> k in ids
        decreases |rest|
      {
        var id :| id in rest;
        var share := ConvertShareFromDB(db.shares[id]);
        // The join only yields rows whose author exists, so the lookup succeeds.
        var view := CreateGetShareResponse(share, db.users, now);
        assert view.Success? && view.value.id == id;
        views := views + [view.value];
        ids := ids + [id];
        rest := rest - {id};
      }
      assert owned - rest == owned;
      forall k | k in owned ensures exists i :: 0 <= i < |views| && views[i].id == k {
        var i :| 0 <= i < |ids| && ids[i] == k;
        assert views[i].id == k;
      }
      r := Success(views);
    }

    /** `CreateShare`, with the id draws, the outcome of bcrypt, the clock and
        the failure of the insert passed in. A share is stored only when it
        could be made, its id is new and the insert goes through; it is
        stored as the insert statement writes it. */
    method CreateShare(request: CreateShareRequest, draws: seq<int>, hashed: BcryptOutput, now: Instant,
                       fault: Option<string>) returns (r: Result<string, Error>)
      requires |draws| == ShareIdLength && Draws(draws, |Letters|)
      requires db.Valid()
      modifies db
      ensures db.Valid()
      ensures db.users == old(db.users) && db.sessions == old(db.sessions)
      ensures CreateNewShare(request, draws, hashed, now).Failure? ==>
        r == Failure(CreateNewShare(request, draws, hashed, now).error) && db.shares == old(db.shares)
      ensures CreateNewShare(request, draws, hashed, now).Success? ==>
        var share := CreateNewShare(request, draws, hashed, now).value;
        if share.id in old(db.shares) then
          r == Failure(Wrapped(CreateFailed, DuplicateKey)) && db.shares == old(db.shares)
        else if fault.Some? then
          r == Failure(Wrapped(CreateFailed, Plain(fault.value))) && db.shares == old(db.shares)
        else
          r == Success(share.id) && db.shares == old(db.shares)[share.id := RowOf(InsertStatement(share))]
      ensures r.Success? ==> ReadShare(r.value) == Success(CreateNewShare(request, draws, hashed, now).value)
    {
      var created := CreateNewShare(request, draws, hashed, now);
      if created.Failure? {
        return Failure(created.error);
      }
      var share := created.value;
      var columns := CreateInsertStatement(share);
      if share.id in db.shares {
        return Failure(Wrapped(CreateFailed, DuplicateKey));
      }
      if fault.Some? {
        return Failure(Wrapped(CreateFailed, Plain(fault.value)));
      }
      InsertRoundTrip(share);
      db.shares := db.shares[share.id := RowOf(columns)];
      r := Success(share.id);
    }

    /** The statement `UpdateShare` assembles, column by column, with a
        running placeholder count, or the error that stops it. */
    method BuildUpdate(body: EditShareRequest, hashed: BcryptOutput, now: Instant) returns (r: Result<UpdatePlan, Error>)
      ensures r == PlanUpdate(body, hashed, now)
    {
      var assignments: seq<Column> := [];
      ghost var pairs: seq<(ColumnName, Value)> := [];
      var argCount := 1;
      NumberedSnoc(pairs, (Title, Text(body.title)), 1);
      assignments, pairs := assignments + [Column(Title, argCount, Text(body.title))], pairs + [(Title, Text(body.title))];
      argCount := argCount + 1;
      NumberedSnoc(pairs, (Content, Text(body.content)), 1);
      assignments, pairs := assignments + [Column(Content, argCount, Text(body.content))], pairs + [(Content, Text(body.content))];
      argCount := argCount + 1;
      if body.setPassword {
        match CreatePasswordHash(hashed)
        case Failure(e) =>
          return Failure(e);
        case Success(hash) =>
          NumberedSnoc(pairs, (Password, Text(hash)), 1);
          assignments, pairs := assignments + [Column(Password, argCount, Text(hash))], pairs + [(Password, Text(hash))];
          argCount := argCount + 1;
      }
      ghost var head := [(Title, Text(body.title)), (Content, Text(body.content))];
      ghost var pw := if NewHash(body, hashed).Some? then [(Password, Text(NewHash(body, hashed).value))] else [];
      assert pairs == head + pw;
      assert assignments == Numbered(pairs, 1) && argCount == |pairs| + 1;
      if body.expireIn != NoChange {
        match CreateExpirationDate(now, body.expireIn)
        case Failure(e) =>
          return Failure(e);
        case Success(expireAt) =>
          NumberedSnoc(pairs, (ExpireAt, Moment(expireAt)), 1);
          assignments, pairs := assignments + [Column(ExpireAt, argCount, Moment(expireAt))], pairs + [(ExpireAt, Moment(expireAt))];
          argCount := argCount + 1;
      }
      ghost var ex := if NewExpiry(body, now).Some? then [(ExpireAt, Moment(NewExpiry(body, now).value))] else [];
      assert pairs == head + pw + ex;
      NumberedSnoc(pairs, (HideAuthor, Flag(body.hideAuthor)), 1);
      assignments, pairs := assignments + [Column(HideAuthor, argCount, Flag(body.hideAuthor))], pairs + [(HideAuthor, Flag(body.hideAuthor))];
      argCount := argCount + 1;
      assert pairs == UpdateCandidates(body, NewHash(body, hashed), NewExpiry(body, now));
      var shareIdIndex := argCount;
      argCount := argCount + 1;
      var authorIdIndex := argCount;
      assert PlanUpdate(body, hashed, now) == Success(UpdatePlan(Numbered(pairs, 1), |pairs| + 1, |pairs| + 2));
      r := Success(UpdatePlan(assignments, shareIdIndex, authorIdIndex));
    }

    /** Executing an UPDATE of `text` that carries the SET list
        `assignments`, with the failure of the statement passed in:
        PostgreSQL refuses a text whose column list is not followed by `=`;
        otherwise the user's share with that id takes the SET list and every
        other row stays as it was. */
    method ExecUpdate(text: string, shareId: string, userId: int, assignments: seq<Column>, fault: Option<string>)
      returns (r: Option<Error>)
      requires db.Valid()
      modifies db
      ensures db.Valid()
      ensures db.users == old(db.users) && db.sessions == old(db.sessions)
      ensures !SetListWellFormed(text) ==> r == Some(UpdateSyntaxError) && db.shares == old(db.shares)
      ensures SetListWellFormed(text) && fault.Some? ==> r == Some(Plain(fault.value)) && db.shares == old(db.shares)
      ensures SetListWellFormed(text) && fault.None? ==>
        r == None && db.shares == Updated(old(db.shares), shareId, userId, assignments)
    {
      if !SetListWellFormed(text) {
        return Some(UpdateSyntaxError);
      }
      if fault.Some? {
        return Some(Plain(fault.value));
      }
      db.shares := Updated(db.shares, shareId, userId, assignments);
      r := None;
    }

    /** `UpdateShare` as written, with the outcome of bcrypt, the clock and
        the failure of the statement passed in: whatever the request, once
        the plan is made the statement is refused and nothing changes. */
    method UpdateShareAsWritten(shareId: string, userId: int, body: EditShareRequest, hashed: BcryptOutput,
                                now: Instant, fault: Option<string>) returns (r: Option<Error>)
      requires db.Valid()
      modifies db
      ensures db.Valid()
      ensures db.users == old(db.users) && db.sessions == old(db.sessions) && db.shares == old(db.shares)
      ensures PlanUpdate(body, hashed, now).Failure? ==> r == Some(PlanUpdate(body, hashed, now).error)
      ensures PlanUpdate(body, hashed, now).Success? ==> r == Some(UpdateSyntaxError)
    {
      var plan := BuildUpdate(body, hashed, now);
      if plan.Failure? {
        return Some(plan.error);
      }
      UpdateAsWrittenMalformed(plan.value);
      r := ExecUpdate(UpdateText(plan.value, AsWrittenJoint), shareId, userId, plan.value.assignments, fault);
    }

    /** `UpdateShare` with its statement in the multiple-column form, with
        the outcome of bcrypt, the clock and the failure of the statement
        passed in: when the statement runs, the user's share with that id
        takes the SET list and every other row stays as it was; a share of
        someone else, or none, is silently left alone. */
    method UpdateShare(shareId: string, userId: int, body: EditShareRequest, hashed: BcryptOutput, now: Instant,
                       fault: Option<string>) returns (r: Option<Error>)
      requires db.Valid()
      modifies db
      ensures db.Valid()
      ensures db.users == old(db.users) && db.sessions == old(db.sessions)
      ensures PlanUpdate(body, hashed, now).Failure? ==>
        r == Some(PlanUpdate(body, hashed, now).error) && db.shares == old(db.shares)
      ensures PlanUpdate(body, hashed, now).Success? && fault.Some? ==>
        r == Some(Plain(fault.value)) && db.shares == old(db.shares)
      ensures PlanUpdate(body, hashed, now).Success? && fault.None? ==>
        r == None && db.shares == Updated(old(db.shares), shareId, userId, PlanUpdate(body, hashed, now).value.assignments)
    {
      var plan := BuildUpdate(body, hashed, now);
      if plan.Failure? {
        return Some(plan.error);
      }
      UpdateTextWellFormed(plan.value);
      r := ExecUpdate(UpdateText(plan.value, IntendedJoint), shareId, userId, plan.value.assignments, fault);
    }

    /** `DeleteShare`, with the failure of the statement passed in: the
        user's share with that id is removed, and nothing else. */
    method DeleteShare(shareId: string, userId: int, fault: Option<string>) returns (r: Option<Error>)
      requires db.Valid()
      modifies db
      ensures db.Valid()
      ensures db.users == old(db.users) && db.sessions == old(db.sessions)
      ensures fault.Some? ==>
        r == Some(Wrapped(DeleteFailed(shareId, userId), Plain(fault.value))) && db.shares == old(db.shares)
      ensures fault.None? ==> r == None && db.shares == Deleted(old(db.shares), shareId, userId)
    {
      if fault.Some? {
        return Some(Wrapped(DeleteFailed(shareId, userId), Plain(fault.value)));
      }
      db.shares := Deleted(db.shares, shareId, userId);
      r := None;
    }
  }

  /** The flag `IsPasswordProtected` reports agrees with the one the public
      view carries. */
  lemma ProtectionAgrees(h: ShareHandler, id: string, now: Instant)
    requires h.GetShare(id, now).Success?
    ensures h.IsPasswordProtected(id) == Success(h.GetShare(id, now).value.isPasswordProtected)
  {
  }

  /** The public read hands out the content of a password-protected share
      as well; it only flags the protection. */
  lemma PublicReadShowsProtectedContent(h: ShareHandler, id: string, now: Instant)
    requires h.GetShare(id, now).Success?
    ensures h.GetShare(id, now).value.content == ConvertShareFromDB(h.db.shares[id]).content
    ensures h.GetShare(id, now).value.isPasswordProtected <==> ConvertShareFromDB(h.db.shares[id]).password != ""
  {
  }

  /** The password read is the only one that names a hidden author: it
      returns the author's name whatever the hide flag says. */
  lemma ProtectedReadNamesHiddenAuthor(h: ShareHandler, id: string, password: string, compare: BcryptCompare,
                                       now: Instant)
    requires h.GetProtectedShare(id, password, compare, now).Success?
    requires h.db.shares[id].authorId.Some? && h.db.shares[id].authorId.value != NoAuthor
    ensures exists u :: u in h.db.users && u.id == h.db.shares[id].authorId.value
                        && h.GetProtectedShare(id, password, compare, now).value.authorName == u.name
  {
  }

  /** A share created without an author carries author id 0 (the zero value
      of the request field), which the insert stores rather than NULL; its
      public view then looks up user 0 and fails with no rows unless that
      user exists. */
  lemma ZeroAuthorNeedsUserZero(share: Share, users: seq<User>, now: Instant)
    requires share.authorId == 0
    ensures ConvertShareFromDB(RowOf(InsertStatement(share))).authorId == 0
    ensures var view := CreateGetShareResponse(ConvertShareFromDB(RowOf(InsertStatement(share))), users, now);
      (view.Failure? <==> forall u :: u in users ==> u.id != 0) && (view.Failure? ==> Root(view.error) == NoRows)
  {
    InsertRoundTrip(share);
  }

  /** What an update leaves readable: the new title, content and hide flag,
      the new hash when a password was set, the new expiry unless
      "no-change"; otherwise the stored password and expiry. */
  lemma UpdatedShare(row: ShareRow, body: EditShareRequest, hashed: BcryptOutput, now: Instant)
    requires PlanUpdate(body, hashed, now).Success?
    ensures var s := ConvertShareFromDB(AssignAll(row, PlanUpdate(body, hashed, now).value.assignments));
      s.id == row.id && s.authorId == ConvertShareFromDB(row).authorId
      && s.title == body.title && s.content == body.content && s.hideAuthor == body.hideAuthor
      && s.password == (if body.setPassword then hashed.hash else ConvertShareFromDB(row).password)
      && s.expireAt == (if body.expireIn != NoChange then CreateExpirationDate(now, body.expireIn).value
                        else ConvertShareFromDB(row).expireAt)
  {
    UpdatedRow(row, body, hashed, now);
  }

  /** Setting the password to the empty string does not lift protection: the
      hash of "" is stored, and the share still reads as protected. */
  lemma EmptyPasswordStaysProtected(row: ShareRow, body: EditShareRequest, hashed: BcryptOutput, now: Instant)
    requires PlanUpdate(body, hashed, now).Success?
    requires body.setPassword && body.password == "" && hashed.hash != ""
    ensures ConvertShareFromDB(AssignAll(row, PlanUpdate(body, hashed, now).value.assignments)).password != ""
  {
    UpdatedShare(row, body, hashed, now);
  }
}
