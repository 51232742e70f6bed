# qr-pastebin: a verified model of the API core

This project models the core of the qr-pastebin API (Go) and one helper of its web client (TypeScript). Each piece is modelled as follows:

- **Shares.** A share is a block of text filed under a random 7-character id. It may have a title, a password (stored as a bcrypt hash), an expiry and an author who may be hidden. The model covers:
  - reading a stored row, including its NULL columns;
  - the public view of a share and its English expiry countdown ("Expires in 1 year 2 months and 3 days");
  - the `"<count>_<unit>"` expiry periods;
  - the INSERT and UPDATE statements the handler builds column by column;
  - every handler operation over the `shares` table.
- **Users and sessions.** Registration and login. With the session query corrected, a login either hands out the user's live session again or replaces all of that user's sessions with one new session that runs for seven calendar days. As written, the query always fails, so every accepted login replaces the user's sessions (see "## Findings").
- **Common helpers.** Roles, the user lookups, the bcrypt wrappers and random identifiers.
- **Server plumbing that makes decisions.** The `Authorization: Bearer` header check, turning the last error of a request into a status and a message, and splitting server errors into pieces of at most 2000 characters for Discord (each piece is then posted with the prefix `backend-msg: `, so a full piece goes out as 2013 characters; the prefix is added by the HTTP post, which is left out).
- **`truncateString`** of the web client.

What is not computed here is passed in as a parameter:

- the database is a `Database` object holding `users`, `sessions` and `shares`; the handler classes keep a reference to it;
- the clock reading `now`;
- the draws of `rand.Intn`;
- what bcrypt returned;
- whether a statement failed.

Modules, one per file:

- **`Text`:** `strings.Split`/`Join`, `%d` and `strconv.Atoi`.
- **`StrconvErrors`:** how `strconv.Atoi` fails (fast path, `ParseInt`, `ParseUint`'s digit loop) and `strconv.Quote` for its error message.
- **`CivilTime`:** Go's `time.Date` normalisation, `AddDate`, `Add` and `After` over civil date-times.
- **`Errors`:** Go error values, wrapping and `errors.As`/`Is`.
- **`Common`:** everything modelled from common.go.
- **`Expiry`:** period parsing and the countdown text.
- **`Store`:** the tables.
- **`Shares`:** the records and the pure conversions.
- **`ShareSql`:** the statement builders and what a statement does to a row.
- **`ShareHandlers`:** the `ShareDBHandler` operations.
- **`Users`:** `UserDBHandler`.
- **`Server`:** the parts of main.go listed above.
- **`Helpers`:** `truncateString`.
- **`Wrappers`:** `Option` and `Result`.

Some behaviour of the code is easy to miss. Each case is recorded in a proved member:

- **Expiry periods.** A period is a count, an `_` and one of six units; no period means "never". The count is read by `strconv.Atoi`, so a sign and leading zeros are accepted (`Expiry.ParseAcceptsExactly`, `Text.AtoiPlusSign`, `Text.AtoiLeadingZero`).
- **"Already expired".** The text needs `now` strictly after the expiry (`Expiry.AlreadyExpiredIff`). A count of 0 makes the expiry the creation instant, so any later reading already calls it expired (`Expiry.ZeroCountExpiresAtOnce`).
- **Protected shares in the public read.** The public read returns the content of a protected share (`ShareHandlers.PublicReadShowsProtectedContent`).
- **Hidden authors.** The password read names a hidden author (`ShareHandlers.ProtectedReadNamesHiddenAuthor`).
- **Empty new password.** The SET list that `UpdateShare` builds for an empty new password stores the hash of "", so the share would stay protected (`ShareHandlers.EmptyPasswordStaysProtected`). This describes the statement as intended; as written, no update goes through (see "## Findings").
- **Alphabet.** The id alphabet has 62 symbols; `0` is missing (`Common.LettersAreIdChars`).
- **Status codes.** Expired shares and wrong passwords are reported as server errors, status 500 (`Server.PasswordErrorsAreServerErrors`).

## Model

| member | source | states |
|---|---|---|
| Text.Split | api/shares/share.go:350 | `strings.Split` on one character: at least one piece, none of which holds the separator |
| Text.JoinSplit | api/shares/share.go:350 | joining the pieces of a split with the separator gives back the input |
| Text.SplitTwo | api/main.go:134-135 | a split has exactly two pieces iff the separator occurs exactly once, and then they are the text before and after it |
| Text.FormatInt | api/shares/share.go:463 | `%d` yields a non-empty run of digits with an optional minus sign |
| Text.FormatNatValue | api/shares/share.go:463 | the decimal digits printed for a natural number have that value |
| Text.Atoi | api/shares/share.go:355 | a count is read exactly from an optionally signed run of digits whose value fits in 64 bits, and it is that value |
| Text.AtoiPlusSign | api/shares/share.go:355 | a numeral with a leading `+` is read as its value |
| Text.AtoiLeadingZero | api/shares/share.go:355 | a numeral with a leading zero is read as its value |
| Text.AtoiNegativeZero | api/shares/share.go:355 | `-0` is read as 0 |
| Text.AtoiFormatInt | api/shares/share.go:355 | `Atoi` reads back what `%d` printed, for every 64-bit value |
| StrconvErrors.ScanUintMeaning | api/shares/share.go:355-357 | Go's digit loop reports a range error exactly when the digits before the first non-digit pass 2^64 - 1, a syntax error when a non-digit comes first, and otherwise the value read |
| StrconvErrors.AtoiResultAgrees | api/shares/share.go:355-357 | `Atoi` with its fast and slow paths succeeds exactly when an optionally signed run of digits fits in 64 bits, with that value |
| StrconvErrors.AtoiOutOfRangeIff | api/shares/share.go:355-357 | the reason is "value out of range" iff the leading digits pass 2^64 - 1 or the numeral is outside the signed range; any other failure is "invalid syntax" |
| StrconvErrors.OverflowBeforeBadCharacter | api/shares/share.go:355-357 | digits passing 2^64 - 1 give a range error even when a bad character follows, as in `99999999999999999999x` |
| StrconvErrors.FastPathMeaning | api/shares/share.go:355 | inputs of 1 to 18 bytes never give a range error |
| StrconvErrors.HornerValue | api/shares/share.go:355 | reading digits from the front gives their decimal value |
| StrconvErrors.UnescapeEscapeAll | api/shares/share.go:357 | the quoted input in the error message reads back as the input |
| StrconvErrors.UnescapeRune | api/shares/share.go:357 | each escaped character reads back as itself |
| StrconvErrors.QuotePlain | api/shares/share.go:357 | printable ASCII without `"` or `\` is quoted as it is |
| StrconvErrors.QuoteMessageForQuote | api/shares/share.go:357 | the count `"` is reported as `strconv.Atoi: parsing "\"": invalid syntax` |
| CivilTime.Date | api/shares/share.go:451 | `time.Date` always lands on a real calendar moment |
| CivilTime.DateOfValid | api/shares/share.go:451 | a real moment is its own normal form |
| CivilTime.DayZeroIsLastOfPrevious | api/shares/share.go:451 | day 0 of a month is the last day of the month before |
| CivilTime.AddDate | api/shares/share.go:367-373 | `AddDate` always yields a real calendar moment |
| CivilTime.AddSeconds | api/shares/share.go:378 | `Add` of whole seconds always yields a real calendar moment |
| CivilTime.AddDateNotBefore | api/shares/share.go:367-373 | within a billion years of the instant and of each amount (no 64-bit wrap-around in Go), adding non-negative years, months and days never moves an instant back |
| CivilTime.AddDateAfter | api/shares/share.go:367-373 | within the same range, adding non-negative amounts that are not all zero gives a strictly later instant |
| CivilTime.AddSecondsAfter | api/shares/share.go:378 | adding at least one second gives a strictly later instant |
| CivilTime.AddNothing | api/shares/share.go:367-378 | adding zero calendar amounts or zero seconds leaves an instant as it is |
| CivilTime.AddSecondsNotBefore | api/shares/share.go:378 | adding non-negative seconds never moves an instant back |
| CivilTime.AddDateWithoutCarry | api/shares/share_test.go:9 | when no month or day overflows, `AddDate` adds the fields as they are |
| CivilTime.AddDaysAfter | api/users/users.go:106 | adding at least one day gives a strictly later instant |
| Common.RoleName | api/common/common.go:26-28 | a role in the table gets its name, any other role the empty string |
| Common.RoleNames | api/common/common.go:14-28 | exactly roles 0 and 1 have a name, "user" and "admin" |
| Common.CreatePasswordHash | api/common/common.go:58-64 | either the hash bcrypt produced or its error, never both |
| Common.IsPasswordCorrect | api/common/common.go:66-69 | a verdict, never an error: true iff the comparison reports no error |
| Common.FindByName | api/common/common.go:73 | the first row with that name, or none when no row has it |
| Common.FindById | api/common/common.go:82 | the first row with that id, or none when no row has it |
| Common.GetUserByName | api/common/common.go:71-78 | a user with exactly that name, or a no-rows error iff no user has it |
| Common.GetUserById | api/common/common.go:80-87 | a user with exactly that id, or a no-rows error iff no user has it |
| Common.LettersAreIdChars | api/common/common.go:89 | the alphabet has 62 symbols, all from a-z, A-Z, 1-9 and `_` |
| Common.RandomId | api/common/common.go:91-97 | as many symbols as draws, each from the alphabet, never `0` |
| Common.CreateRandomId | api/common/common.go:91-97 | the buffer filled index by index holds the identifier the draws pick |
| Expiry.Wrap64 | api/shares/share.go:363-369 | 64-bit wrap-around: always in range, and the identity on values in range |
| Expiry.UnitOffset | api/shares/share.go:361-376 | an offset exists exactly for the six known unit names |
| Expiry.CreateExpirationDate | api/shares/share.go:349-379 | succeeds iff the period parses, and then moves `now` by the parsed offset |
| Expiry.ParseAcceptsExactly | api/shares/share.go:350-376 | a period is accepted iff it holds exactly one `_`, with an `Atoi` count before it and a known unit after it |
| Expiry.PeriodSplits | api/shares/share.go:350 | a printed period splits into its count and its unit |
| Expiry.ParsePeriod | api/shares/share.go:349-378 | every 64-bit count with every unit parses back to its offset; days, weeks, months and years are calendar amounts |
| Expiry.ClockWithoutWrap | api/shares/share.go:362-365 | without overflow, minutes and hours are 60 and 3600 seconds each |
| Expiry.ApplyNotBefore | api/shares/share.go:360-378 | for an instant and calendar amounts within a billion years (where Go does not wrap), a non-negative offset never gives an instant before `now` |
| Expiry.HoursPastMaxWrap | api/shares/share.go:364-366 | an hour count of 2562048 overflows the 64-bit duration and gives an offset of -9223371274 seconds |
| Expiry.SmallCountsNonNegative | api/shares/share.go:361-373 | counts up to 2562047 give non-negative offsets with every unit |
| Expiry.AddComponent | api/shares/share.go:462-476 | one step appends the singular form at 1, the plural above 1, nothing otherwise |
| Expiry.Components | api/shares/share.go:460-476 | "Expires in", then the positive years, months and days in that order |
| Expiry.JoinComponents | api/shares/share.go:478-483 | one component is joined with a space; with more, the last is attached by " and " |
| Expiry.CreateExpireInTextFromDate | api/shares/share.go:437-484 | the step-by-step borrowing and joining computes the countdown text |
| Expiry.SentencePrefix | api/shares/share.go:461 | every countdown with components starts with "Expires in" |
| Expiry.AlreadyExpiredIff | api/shares/share.go:438-441 | "Already expired" iff `now` is strictly after the expiry |
| Expiry.ExpiresTodayIff | api/shares/share.go:443-449 | before expiry, "Expires today" iff year, month and day all agree before any borrowing |
| Expiry.SomeComponentNamed | api/shares/share.go:450-476 | before expiry on another day, at least one component is named |
| Expiry.DescribesAddedAmounts | api/shares/share.go:443-483 | when `AddDate` needs no carrying, the text names exactly the amounts added |
| Expiry.ThreePartSentence | api/shares/share.go:482-483 | three components read "Expires in a b and c" |
| Expiry.TwoPartSentence | api/shares/share.go:482-483 | two components read "Expires in a and b" |
| Expiry.SmallNumerals | api/shares/share.go:463 | 1, 2 and 3 print as single digits |
| Expiry.ThreeComponentParts | api/shares/share_test.go:8-33 | the components of the three-part test differences |
| Expiry.TwoComponentParts | api/shares/share_test.go:35-60 | the components of the two-part test differences |
| Expiry.OneComponentParts | api/shares/share_test.go:62-87 | the components of the one-part test differences |
| Expiry.SentenceOf123 | api/shares/share_test.go:8-15 | 1 year, 2 months, 3 days read as the test expects |
| Expiry.SentenceOf213 | api/shares/share_test.go:17-24 | 2 years, 1 month, 3 days read as the test expects |
| Expiry.SentenceOf321 | api/shares/share_test.go:26-33 | 3 years, 2 months, 1 day read as the test expects |
| Expiry.SentenceOf012 | api/shares/share_test.go:35-42 | 1 month, 2 days read as the test expects |
| Expiry.SentenceOf102 | api/shares/share_test.go:44-51 | 1 year, 2 days read as the test expects |
| Expiry.SentenceOf120 | api/shares/share_test.go:53-60 | 1 year, 2 months read as the test expects |
| Expiry.OneComponentSentences | api/shares/share_test.go:62-87 | a single year, month or day reads as the tests expect |
| Expiry.ShareTestThreeComponents | api/shares/share_test.go:8-33 | the three-component tests hold at every valid `now` from January to October on day 25 or earlier |
| Expiry.ShareTestFewerComponents | api/shares/share_test.go:35-87 | the one- and two-component tests hold at every valid `now` from January to October on day 25 or earlier |
| Expiry.ShareTestSameDay | api/shares/share_test.go:89-105 | one second ahead is "Expires today", one second behind is "Already expired", away from midnight |
| Expiry.OneSecondApart | api/shares/share_test.go:89-105 | away from midnight, adding or subtracting a second stays on the same day |
| Expiry.FreshExpiryNotExpired | api/shares/share.go:349-379 | an expiry computed at a `now` within a billion years of year 0, from a count of 1 to 2562047 of any unit, lies strictly after `now`, so no reading from `now` up to the expiry calls it "Already expired" |
| Expiry.ZeroCountExpiresAtOnce | api/shares/share.go:349-379 | a count of 0 gives `now` itself as the expiry, which every later reading calls "Already expired" |
| Shares.ConvertShareFromDB | api/shares/share.go:381-410 | NULL title and password read as "", NULL expiry as the zero time, NULL author as -1; the rest is copied |
| Shares.CreateGetShareResponse | api/shares/share.go:412-435 | fails with no rows iff a named author is missing; protection flag iff a password; countdown iff an expiry; author named iff one is set |
| Shares.CreateNewShare | api/shares/share.go:296-319 | a random 7-symbol id; the hash only for a non-empty password, and its error first; the expiry only for a non-empty period, and its error otherwise |
| ShareSql.Present | api/shares/share.go:338-347 | dropping empty strings never lengthens the candidate list |
| ShareSql.TryAddExtends | api/shares/share.go:338-347 | one `tryAddColumnToQuery` step keeps the statement equal to the kept candidates numbered from `$1` |
| ShareSql.CreateInsertStatement | api/shares/share.go:321-336 | the seven steps build exactly the kept candidates, in their fixed order, numbered from `$1` |
| ShareSql.InsertLookup | api/shares/share.go:327-333 | each candidate column is bound to its value exactly when the value is not the empty string |
| ShareSql.InsertedRow | api/shares/share.go:321-336 | the insert stores NULL for an empty title or password and every other field as given, zero values included |
| ShareSql.InsertRoundTrip | api/shares/share.go:321-410 | reading back an inserted share gives that share |
| ShareSql.InsertPlaceholders | api/shares/share.go:338-346 | placeholders run `$1`, `$2`, ... with no gaps |
| ShareSql.InsertAlwaysColumns | api/shares/share.go:330-332 | `expire_at`, `author_id` and `hide_author` are always bound, even to zero values |
| ShareSql.InsertTextColumns | api/shares/share.go:327-333 | id, content, title and password are bound iff not empty |
| ShareSql.InsertFullOrder | api/shares/share.go:327-333 | with every text filled in, all seven columns appear in the order id, content, title, expire_at, author_id, hide_author, password |
| ShareSql.UpdatePlanErrors | api/shares/share.go:150-165 | an update stops iff hashing fails when a password is set or the period is malformed when the expiry changes; the hashing error wins |
| ShareSql.UpdatePlanColumns | api/shares/share.go:140-186 | SET list title, content, password iff asked, expire_at iff not "no-change", hide_author; `$1` onwards, then share id and user id |
| ShareSql.Assign | api/shares/share.go:188 | a SET column never changes a row's id or author |
| ShareSql.AssignAll | api/shares/share.go:188 | a SET list never changes a row's id or author |
| ShareSql.AssignCandidates | api/shares/share.go:140-175 | the SET list sets title, content and the hide flag, and the password and expiry only when given |
| ShareSql.UpdateAsWrittenMalformed | api/shares/share.go:176-188 | the text `UpdateShare` formats is never a well-formed UPDATE: `VALUES`, not `=`, follows its column list |
| ShareSql.UpdateTextWellFormed | api/shares/share.go:176-188 | the same SET list in the form `SET (..) = (..)` is well formed for every plan |
| ShareSql.UpdatedRow | api/shares/share.go:134-189 | the row the SET list leaves, once the statement is in the form `SET (..) = (..)`: new title (empty stays empty, not NULL), content, hide flag; new hash iff set; new expiry unless "no-change"; id and author kept |
| ShareHandlers.OwnedIds | api/shares/share.go:273 | the join returns exactly the shares authored by `userId`, and none when no such user exists |
| ShareHandlers.Updated | api/shares/share.go:188-189 | only the owned row with that id takes the SET list; every other row and the key set stay |
| ShareHandlers.Deleted | api/shares/share.go:234-235 | only the owned row with that id is removed; every other row stays |
| ShareHandlers.ShareHandler.constructor | api/shares/share.go:80-82 | the handler works on the connection it is given |
| ShareHandlers.ShareHandler.ReadShare | api/shares/share.go:254-261 | the share filed under the id, read with its NULLs, or a no-rows error naming the id |
| ShareHandlers.ShareHandler.ReadOwnedShare | api/shares/share.go:263-270 | as the plain read, but a share of another author is just as missing |
| ShareHandlers.ShareHandler.GetShare | api/shares/share.go:98-118 | missing, then expired, then missing author, in that order; succeeds iff none applies; a hidden author is never named |
| ShareHandlers.ShareHandler.GetShareForEdit | api/shares/share.go:120-132 | succeeds iff the user owns the share and exists, expired or not, with the author named even when hidden |
| ShareHandlers.ShareHandler.GetProtectedShare | api/shares/share.go:211-231 | missing, then expired, then wrong password, then missing author; on success the full view, author included |
| ShareHandlers.ShareHandler.IsPasswordProtected | api/shares/share.go:242-252 | true iff the stored password is non-empty; missing share is an error; expiry not consulted |
| ShareHandlers.ShareHandler.GetShares | api/shares/share.go:193-209 | one view per owned share, each equal to its response, every owned share listed, expired ones too; a query failure is wrapped |
| ShareHandlers.ShareHandler.CreateShare | api/shares/share.go:84-96 | stored only when it could be made, its id is new and the insert succeeds; what is stored reads back as the made share |
| ShareHandlers.ShareHandler.BuildUpdate | api/shares/share.go:134-187 | the step-by-step SET list with its running placeholder count is the planned update, or its first error |
| ShareHandlers.ShareHandler.ExecUpdate | api/shares/share.go:188-190 | a malformed text is refused with a syntax error and changes nothing; a well-formed one fails as the store says or updates only the owned row |
| ShareHandlers.ShareHandler.UpdateShareAsWritten | api/shares/share.go:134-191 | as written: a hash or period error is returned; otherwise the statement is always refused and nothing changes |
| ShareHandlers.ShareHandler.UpdateShare | api/shares/share.go:134-191 | with the statement in the form `SET (..) = (..)`: a hash or period error, or a statement failure, changes nothing; otherwise only the owned row takes the SET list |
| ShareHandlers.ShareHandler.DeleteShare | api/shares/share.go:233-240 | removes only the user's share with that id; a failure is wrapped and changes nothing |
| ShareHandlers.ProtectionAgrees | api/shares/share.go:242-252 | the protection flag agrees with the flag of the public view |
| ShareHandlers.PublicReadShowsProtectedContent | api/shares/share.go:412-422 | the public read returns the content of a protected share and only flags it |
| ShareHandlers.ProtectedReadNamesHiddenAuthor | api/shares/share.go:226-230 | the password read names the author whatever the hide flag says |
| ShareHandlers.ZeroAuthorNeedsUserZero | api/shares/share.go:296-336 | a share made without an author stores author 0, not NULL, and its view fails unless user 0 exists |
| ShareHandlers.UpdatedShare | api/shares/share.go:140-189 | what a share reads back as after the SET list, once the statement is in the form `SET (..) = (..)` |
| ShareHandlers.EmptyPasswordStaysProtected | api/shares/share.go:150-159 | setting the empty password stores its hash, so the share stays protected |
| Users.FindLive | api/users/users.go:87 | the first session of the user still running at `now`, or none |
| Users.ActiveSession | api/users/users.go:85-92 | the intended lookup succeeds iff the user has a live session, with its id; otherwise a wrapped no-rows error |
| Users.ActiveSessionAsWritten | api/users/users.go:85-92 | the written lookup always fails, and never with no rows |
| Users.AsWrittenMissesLiveSession | api/users/users.go:87 | a live session that the written lookup misses and the intended one finds |
| Users.WithoutUser | api/users/users.go:94-100 | exactly the sessions of other users remain |
| Users.WithoutUserKeepsOnePerUser | api/users/users.go:94-100 | deleting a user's sessions keeps at most one session per user |
| Users.LoginRejects | api/users/users.go:55-63 | the one wrong-credentials error iff the name is unknown or the password wrong, and then sessions untouched |
| Users.LoginReuses | api/users/users.go:65-69 | with the corrected session query: with a live session, its id is returned and nothing changes |
| Users.LoginReplaces | api/users/users.go:71-82 | otherwise the user ends with exactly one session, the new live one for seven days; other users' sessions unchanged |
| Users.LoginAsWrittenAlwaysReplaces | api/users/users.go:54-92 | as written, an accepted login without faults always ends with the user holding exactly one new live session with the drawn id; other users' sessions unchanged |
| Users.LoginAsWrittenDropsLiveSession | api/users/users.go:54-92 | as written, a live session that the corrected login keeps is deleted and a new id handed out |
| Users.FailedInsertLosesSessions | api/users/users.go:72-81 | an insert failure after the delete leaves the user with no session |
| Users.FindLiveAt | api/users/users.go:87 | the lookup stops at the first live row |
| Users.StaysExpired | api/users/users.go:87 | a session not live at one reading is not live at any later one |
| Users.LoginTwice | api/users/users.go:54-82 | with the corrected session query: a second login at any later reading, while the session handed out is still running, returns the same id and changes nothing |
| Users.LoginLeavesOneLiveSession | api/users/users.go:54-82 | with the corrected session query and one session per user, a successful login leaves the user exactly one session, live and carrying the id handed out |
| Users.LoginKeepsOnePerUser | api/users/users.go:54-83 | logins keep at most one session per user |
| Users.UserHandler.constructor | api/users/users.go:31-33 | the handler works on the connection it is given |
| Users.UserHandler.CreateUser | api/users/users.go:35-52 | a taken name is refused before hashing; otherwise a hash error, a taken id or an insert failure changes nothing; success appends one plain user; names stay unique |
| Users.UserHandler.DeleteSessions | api/users/users.go:94-100 | removes exactly the user's sessions, or wraps the failure and changes nothing |
| Users.UserHandler.CreateNewSession | api/users/users.go:102-111 | appends one session with the drawn 10-symbol id, running seven days, or wraps the failure |
| Users.UserHandler.CreateSession | api/users/users.go:54-83 | with the corrected session query: the method's answer and new sessions table are those of the login transition |
| Server.BearerHeaderAccepted | api/main.go:134-140 | "Bearer ", then a space-free token, is accepted with that token |
| Server.AcceptedHeaderShape | api/main.go:134-140 | an accepted header is "Bearer ", then its token, which holds no space |
| Server.BearerAccepted | api/main.go:128-140 | accepted iff "Bearer " plus a space-free, possibly empty, token; empty header gets its own error, others the format error |
| Server.ClassifyError | api/main.go:93-119 | the override chain equals classification by the root error: no rows 404, not found or expired 404, taken name 409, common password 401, else 500 |
| Server.SendToDiscord | api/main.go:42-50 | chunks of 1 to 2000 characters, all but the last full, joining to the message; none for an empty message |
| Server.SendError | api/main.go:30-40 | forwards to Discord iff status is at least 500; details only in debug mode |
| Server.HandleErrors | api/main.go:90-121 | nothing without errors; otherwise only the last error is classified and sent |
| Server.NoRowsIsNotFound | api/main.go:116-119 | a missing row, however wrapped, ends as 404 "Resource not found" |
| Server.KnownStatuses | api/main.go:93-119 | only 401, 404, 409 and 500 come out, and 500 exactly for the unmatched kinds |
| Server.PasswordErrorsAreServerErrors | api/main.go:96-99 | the share password error, the login error and the expired-share error all end as 500 |
| Helpers.Prefix | web/src/lib/helpers.ts:17 | `substring(0, end)`, clamped, is a prefix of the text |
| Helpers.ShortTextUnchanged | web/src/lib/helpers.ts:14-16 | text that fits is returned unchanged |
| Helpers.LongTextTruncated | web/src/lib/helpers.ts:17 | longer text keeps its first `maxLength` units and gains "...": length `maxLength + 3` |
| Helpers.NegativeLimit | web/src/lib/helpers.ts:13-17 | a negative limit turns every text into "..." |
| Helpers.TruncateIdempotent | web/src/lib/helpers.ts:13-18 | truncating twice with the same limit is truncating once |

## Left out

- **The database.** SQL execution, connection setup and row scanning are not modelled. The tables are fields of `Database`, and each statement is its filter or its update. A failing statement is an `Option<string>` parameter, and the driver error for a duplicate primary key is one fixed error value.
- **SQL text.** Statements are lists of (column, placeholder, argument). Only the UPDATE text is rendered, and of PostgreSQL's grammar only the token after the `SET (..)` column list is checked (`ShareSql.SetListWellFormed`), which is where the written text goes wrong (see "## Findings").
- **Outside services.** bcrypt, `math/rand` and `time.Now` are parameters:
  - bcrypt's output and comparison;
  - the draws of `rand.Intn`;
  - one `now` per call, although the Go code reads the clock more than once (`Expiry.ZeroCountExpiresAtOnce` shows where this matters);
  - no time zones, and a resolution of whole seconds.
- **Concurrency.** The check-then-act races between a lookup and the insert that follows it are not modelled; the model is sequential.
- **HTTP and routing.** The HTTP POST of `sendDiscordMessage` is left out; the chunks are returned instead. Gin routing, CORS, JSON binding and the route handlers are left out too. Those handlers call `GetShareForPublic`, `GetShareForOwner`, `HasAccessToShare` and `GetUserFromSession`, which the shown files do not define.
- **Type not shown.** The declaration of `shares.ExpiredShareError` is not shown. It appears only as the error kind `SharesExpiredShare`, which `Server.Classification` and `Server.ClassifyError` map to 404 with its root text. No modelled handler returns it: an expired share comes back as the plain error "trying to access expired share" (api/shares/share.go:105, :218).
- **`users` schema.** The schema of `users` is not modelled:
  - the insert names a `password` column while the lookups read `passwordHash`, and the model takes both to be the same field;
  - a new user takes role `USER` and no OAuth;
  - the driver's `ErrNoRows` is taken to match `sql.ErrNoRows`.
- **Session ids.** Nothing makes a session id unique. Two users may draw the same id, and the model does not exclude this.
- **`CivilTime.AddDate`:** computes with unbounded integers. Go's `AddDate` and `time.Date` compute `year+years`, `month+months`, `day+days` and the seconds since their epoch in 64 bits, and a `time.Time` spans only about 292 billion years either way. For a period such as `9223372036854775807_days` or `300000000000_years`, the program gets an unrelated instant, possibly in the past, where the model gets one far in the future.
- **`CivilTime.AddDateNotBefore`** and **`CivilTime.AddDateAfter`:** stated only for an instant and amounts within a billion years (`WithinGoRange`), where Go does not wrap; beyond it the program's result can lie before `now`.
- **`Expiry.ApplyNotBefore`:** stated only within the same range (`OffsetWithinGoRange`), for the same reason.
- **`ShareSql.InsertRoundTrip`:** the insert leaves out `content` when it is empty, and `RowOf` reads the missing column back as "". This takes the `content` column to default to the empty string; the schema is not part of the repository's Go source. With no such default, the insert of an empty share fails, or its read fails on the NULL. `ShareSql.InsertedRow` and `ShareHandlers.ShareHandler.CreateShare` rest on the same assumption.
- **`StrconvErrors.AtoiErrorMessage`:** a character stands for a Go rune; invalid UTF-8, which `strconv.Quote` writes as `\xHH`, is not modelled, and every character from U+0100 up is taken to be printable, whereas `strconv.IsPrint` also escapes some of them (for example U+2028 and unassigned code points).
- **`Server.SendToDiscord`:** a character stands for a Go rune. The conversion of invalid UTF-8 to U+FFFD is not modelled.
- **`Helpers.TruncateIdempotent`:** a JavaScript string is a sequence of UTF-16 code units, and `maxLength` is an integer. Fractional and NaN limits are not modelled.
- **`ShareHandlers.ShareHandler.GetShares`:**
  - the order of the views is not stated, because the query has no ORDER BY;
  - a row-scan or iteration failure is not modelled separately from the query failure;
  - the author lookup is shown to succeed from the join, which requires the primary keys (`Valid`).
- **`Users.UserHandler.CreateUser`:**
  - a lookup failure other than a missing row is not modelled (the source treats any failure as "name free").
- **`Shares.CreateNewShare`:** the author id of `CreateShareRequest` is an unbounded integer, not an `int32`.
- **`ShareHandlers.ShareHandler.UpdateShare`:** an update of no row is silent success, as in the source; it does not report not-found.
- **`Expiry.FreshExpiryNotExpired`:** stated only for counts from 1 to 2562047 (`MaxHours`) and a `now` within a billion years of year 0. Beyond 2562047, an hour count overflows Go's 64-bit nanosecond `time.Duration` (`Wrap64` in `ClockSeconds`): `2562048_hours` gives an offset of -9223371274 seconds, about 292 years back (`Expiry.HoursPastMaxWrap`), so the expiry lies before `now`.
- **`Expiry.UnitOffset`:**
  - minutes and hours wrap in 64-bit nanoseconds, then move by whole seconds;
  - the sub-second rest of a wrapped duration is dropped;
  - days after one borrow can stay negative (for example from January 31 to March 1), and the model keeps this.
- **`GetHostname`, the toasts and the rest of the web client** lie outside the core.

## Findings

| source | as written | input that shows it | evidently intended | confidence | as-written member | corrected member |
|---|---|---|---|---|---|---|
| api/users/users.go:87 | the query compares both `userId` and `expireAt` with `$1` and is passed two arguments, so the driver rejects it and no live session is ever found; every login deletes the user's sessions and issues a new one | user 1 with session "abcdefghij" expiring 2024-01-08, login at 2024-01-01 | `userId = $1 AND expireAt > $2`: the live session is handed out again | not executed | Users.ActiveSessionAsWritten, Users.AsWrittenMissesLiveSession, Users.LoginAsWrittenAlwaysReplaces, Users.LoginAsWrittenDropsLiveSession | Users.ActiveSession, Users.LoginReuses, Users.UserHandler.CreateSession |
| api/shares/share.go:187-188 | the UPDATE text reads `UPDATE shares SET (<columns>) VALUES (<placeholders>) WHERE ...`, which PostgreSQL's grammar rejects, so every update that gets past hashing and period parsing returns a syntax error and changes nothing | any update, e.g. title "a", content "b", no password, expiry "no-change", on a share the user owns | `SET (<columns>) = (<placeholders>)`: the owned share takes the new values | not executed | ShareHandlers.ShareHandler.UpdateShareAsWritten, ShareSql.UpdateAsWrittenMalformed | ShareHandlers.ShareHandler.UpdateShare, ShareSql.UpdateTextWellFormed |
