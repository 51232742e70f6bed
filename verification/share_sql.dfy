/** The statements the share handler sends to the database, as parallel
    lists of column name, `$n` placeholder and argument (one `Column` per
    entry), and what executing them does to a `shares` row. */
module ShareSql {
  import opened Wrappers
  import opened Text
  import opened CivilTime
  import opened Errors
  import opened Common
  import opened Expiry
  import opened Store
  import opened Shares

  /** A statement argument, by the Go type it has. */
  datatype Value = Text(s: string) | Moment(t: Time) | Number(n: int) | Flag(b: bool)

  /** The columns of the `shares` table. */
  datatype ColumnName = Id | Content | Title | ExpireAt | AuthorId | HideAuthor | Password

  /** The name a column has in the statement text. */
  function SqlName(c: ColumnName): string {
    match c
    case Id => "id"
    case Content => "content"
    case Title => "title"
    case ExpireAt => "expire_at"
    case AuthorId => "author_id"
    case HideAuthor => "hide_author"
    case Password => "password"
  }

  /** One column of a statement: its name, the number of its `$n`
      placeholder and the argument bound to that placeholder. */
  datatype Column = Column(name: ColumnName, placeholder: int, arg: Value)

  /** The candidates that are kept: Go compares the argument, held as `any`,
      with `""`, and only a string can be equal to it. */
  function Present(pairs: seq<(ColumnName, Value)>): (r: seq<(ColumnName, Value)>)
    ensures |r| <= |pairs|
  {
    if |pairs| == 0 then []
    else (if pairs[0].1 == Text("") then [] else [pairs[0]]) + Present(pairs[1..])
  }

  /** Columns for the pairs, with placeholders counting up from `first`. */
  function Numbered(pairs: seq<(ColumnName, Value)>, first: int): seq<Column> {
    seq(|pairs|, i requires 0 <= i < |pairs| => Column(pairs[i].0, first + i, pairs[i].1))
  }

  /** The lists a statement is being built in, with the next placeholder. */
  datatype Builder = Builder(columns: seq<Column>, argPos: int)

  /** `tryAddColumnToQuery`: the column is skipped when its argument is the
      empty string, otherwise appended with the next placeholder. */
  function TryAddColumn(name: ColumnName, value: Value, b: Builder): Builder {
    if value == Text("") then b
    else Builder(b.columns + [Column(name, b.argPos, value)], b.argPos + 1)
  }

  lemma {:induction false} PresentSnoc(pairs: seq<(ColumnName, Value)>, p: (ColumnName, Value))
    ensures Present(pairs + [p]) == Present(pairs) + (if p.1 == Text("") then [] else [p])
    decreases |pairs|
  {
    if |pairs| > 0 {
      assert (pairs + [p])[1..] == pairs[1..] + [p];
      PresentSnoc(pairs[1..], p);
    } else {
      assert [p][1..] == [];
    }
  }

  /** One `tryAddColumnToQuery` step extends the statement built from `done`
      to the one built from `done` and the new candidate. */
  lemma TryAddExtends(done: seq<(ColumnName, Value)>, name: ColumnName, value: Value, b: Builder)
    requires b.columns == Numbered(Present(done), 1) && b.argPos == |b.columns| + 1
    ensures TryAddColumn(name, value, b).columns == Numbered(Present(done + [(name, value)]), 1)
    ensures TryAddColumn(name, value, b).argPos == |TryAddColumn(name, value, b).columns| + 1
  {
    PresentSnoc(done, (name, value));
    var kept := Present(done);
    if value != Text("") {
      assert Numbered(kept + [(name, value)], 1) == Numbered(kept, 1) + [Column(name, |kept| + 1, value)];
    }
  }

  /** The columns `createInsertStatement` offers, in its order. */
  function InsertCandidates(share: Share): seq<(ColumnName, Value)> {
    [(Id, Text(share.id)), (Content, Text(share.content)), (Title, Text(share.title)),
     (ExpireAt, Moment(share.expireAt)), (AuthorId, Number(share.authorId)),
     (HideAuthor, Flag(share.hideAuthor)), (Password, Text(share.password))]
  }

  /** `createInsertStatement`: the columns are offered in a fixed order and
      the statement holds those that survive, numbered from `$1`. */
  method CreateInsertStatement(share: Share) returns (columns: seq<Column>)
    ensures columns == InsertStatement(share)
  {
    var b := Builder([], 1);
    ghost var done: seq<(ColumnName, Value)> := [];
    TryAddExtends(done, Id, Text(share.id), b);
    b := TryAddColumn(Id, Text(share.id), b);
    done := done + [(Id, Text(share.id))];
    TryAddExtends(done, Content, Text(share.content), b);
    b := TryAddColumn(Content, Text(share.content), b);
    done := done + [(Content, Text(share.content))];
    TryAddExtends(done, Title, Text(share.title), b);
    b := TryAddColumn(Title, Text(share.title), b);
    done := done + [(Title, Text(share.title))];
    TryAddExtends(done, ExpireAt, Moment(share.expireAt), b);
    b := TryAddColumn(ExpireAt, Moment(share.expireAt), b);
    done := done + [(ExpireAt, Moment(share.expireAt))];
    TryAddExtends(done, AuthorId, Number(share.authorId), b);
    b := TryAddColumn(AuthorId, Number(share.authorId), b);
    done := done + [(AuthorId, Number(share.authorId))];
    TryAddExtends(done, HideAuthor, Flag(share.hideAuthor), b);
    b := TryAddColumn(HideAuthor, Flag(share.hideAuthor), b);
    done := done + [(HideAuthor, Flag(share.hideAuthor))];
    TryAddExtends(done, Password, Text(share.password), b);
    b := TryAddColumn(Password, Text(share.password), b);
    done := done + [(Password, Text(share.password))];
    assert done == InsertCandidates(share);
    columns := b.columns;
  }

  /** The argument bound to the first column called `name`, if any. */
  function Lookup(columns: seq<Column>, name: ColumnName): (r: Option<Value>)
    ensures r.Some? ==> exists i :: 0 <= i < |columns| && columns[i].name == name && columns[i].arg == r.value
    ensures r.None? ==> forall i :: 0 <= i < |columns| ==> columns[i].name != name
  {
    if |columns| == 0 then None
    else if columns[0].name == name then Some(columns[0].arg)
    else Lookup(columns[1..], name)
  }

  /** The argument of the first candidate called `name` that survives. */
  function LookupPresent(pairs: seq<(ColumnName, Value)>, name: ColumnName): Option<Value> {
    if |pairs| == 0 then None
    else if pairs[0].0 == name && pairs[0].1 != Text("") then Some(pairs[0].1)
    else LookupPresent(pairs[1..], name)
  }

  lemma {:induction false} LookupNumberedPresent(pairs: seq<(ColumnName, Value)>, first: int, name: ColumnName)
    ensures Lookup(Numbered(Present(pairs), first), name) == LookupPresent(pairs, name)
    decreases |pairs|
  {
    if |pairs| > 0 {
      var rest := Present(pairs[1..]);
      if pairs[0].1 == Text("") {
        assert Present(pairs) == rest;
        LookupNumberedPresent(pairs[1..], first, name);
      } else {
        assert Present(pairs) == [pairs[0]] + rest;
        var cols := Numbered(Present(pairs), first);
        assert cols[0] == Column(pairs[0].0, first, pairs[0].1);
        assert cols[1..] == Numbered(rest, first + 1);
        LookupNumberedPresent(pairs[1..], first + 1, name);
      }
    }
  }

  function TextColumn(v: Option<Value>): Option<string> {
    if v.Some? && v.value.Text? then Some(v.value.s) else None
  }

  function TimeColumn(v: Option<Value>): Option<Time> {
    if v.Some? && v.value.Moment? then Some(v.value.t) else None
  }

  function NumberColumn(v: Option<Value>): Option<int> {
    if v.Some? && v.value.Number? then Some(v.value.n) else None
  }

  /** The row an `INSERT INTO shares` of these columns stores: a column that
      is left out is NULL, and a left-out `content` or `hide_author` takes
      the empty string and false. */
  function RowOf(columns: seq<Column>): ShareRow {
    var hidden := Lookup(columns, HideAuthor);
    ShareRow(TextColumn(Lookup(columns, Id)).GetOr(""),
             TextColumn(Lookup(columns, Content)).GetOr(""),
             TextColumn(Lookup(columns, Title)),
             TimeColumn(Lookup(columns, ExpireAt)),
             TextColumn(Lookup(columns, Password)),
             NumberColumn(Lookup(columns, AuthorId)),
             hidden.Some? && hidden.value.Flag? && hidden.value.b)
  }

  /** No two candidates name the same column. */
  predicate DistinctNames(pairs: seq<(ColumnName, Value)>) {
    forall i, j :: 0 <= i < j < |pairs| ==> pairs[i].0 != pairs[j].0
  }

  lemma {:induction false} LookupPresentAbsent(pairs: seq<(ColumnName, Value)>, name: ColumnName)
    requires forall i :: 0 <= i < |pairs| ==> pairs[i].0 != name
    ensures LookupPresent(pairs, name) == None
    decreases |pairs|
  {
    if |pairs| > 0 {
      assert forall i :: 0 <= i < |pairs[1..]| ==> pairs[1..][i] == pairs[i + 1];
      LookupPresentAbsent(pairs[1..], name);
    }
  }

  /** Among distinct names, a candidate's column is found exactly when it survives. */
  lemma {:induction false} LookupPresentAt(pairs: seq<(ColumnName, Value)>, k: int)
    requires 0 <= k < |pairs| && DistinctNames(pairs)
    ensures LookupPresent(pairs, pairs[k].0) == if pairs[k].1 == Text("") then None else Some(pairs[k].1)
    decreases k
  {
    var rest := pairs[1..];
    assert forall i :: 0 <= i < |rest| ==> rest[i] == pairs[i + 1];
    if k == 0 {
      if pairs[0].1 == Text("") {
        LookupPresentAbsent(rest, pairs[0].0);
      }
    } else {
      assert rest[k - 1] == pairs[k];
      LookupPresentAt(rest, k - 1);
    }
  }

  /** The statement `createInsertStatement` builds for a share. */
  function InsertStatement(share: Share): seq<Column> {
    Numbered(Present(InsertCandidates(share)), 1)
  }

  /** The insert statement binds each candidate column's value exactly when
      it is kept. */
  lemma InsertLookup(share: Share, k: int)
    requires 0 <= k < 7
    ensures Lookup(InsertStatement(share), InsertCandidates(share)[k].0) ==
      if InsertCandidates(share)[k].1 == Text("") then None else Some(InsertCandidates(share)[k].1)
  {
    var cands := InsertCandidates(share);
    assert DistinctNames(cands);
    LookupNumberedPresent(cands, 1, cands[k].0);
    LookupPresentAt(cands, k);
  }

  /** What the insert statement of a share stores: a NULL for an empty title
      or password, and every other field as given, the zero expiry and the
      author id included. */
  lemma InsertedRow(share: Share)
    ensures RowOf(InsertStatement(share)) ==
      ShareRow(share.id, share.content,
               if share.title == "" then None else Some(share.title),
               Some(share.expireAt),
               if share.password == "" then None else Some(share.password),
               Some(share.authorId), share.hideAuthor)
  {
    InsertLookup(share, 0);
    InsertLookup(share, 1);
    InsertLookup(share, 2);
    InsertLookup(share, 3);
    InsertLookup(share, 4);
    InsertLookup(share, 5);
    InsertLookup(share, 6);
  }

  /** Reading back the row a share was inserted as gives that share again. */
  lemma InsertRoundTrip(share: Share)
    ensures ConvertShareFromDB(RowOf(InsertStatement(share))) == share
  {
    InsertedRow(share);
  }

  /** The insert statement binds `$1`, `$2`, ... in order, with no gaps. */
  lemma InsertPlaceholders(share: Share)
    ensures forall i :: 0 <= i < |InsertStatement(share)| ==> InsertStatement(share)[i].placeholder == i + 1
  {
  }

  /** The insert statement always holds `expire_at`, `author_id` and
      `hide_author`, even for zero values. */
  lemma InsertAlwaysColumns(share: Share)
    ensures Lookup(InsertStatement(share), ExpireAt) == Some(Moment(share.expireAt))
    ensures Lookup(InsertStatement(share), AuthorId) == Some(Number(share.authorId))
    ensures Lookup(InsertStatement(share), HideAuthor) == Some(Flag(share.hideAuthor))
  {
    InsertLookup(share, 3);
    InsertLookup(share, 4);
    InsertLookup(share, 5);
  }

  /** Each text column of the insert statement is there exactly when its
      value is not empty. */
  lemma InsertTextColumns(share: Share)
    ensures Lookup(InsertStatement(share), Title).Some? <==> share.title != ""
    ensures Lookup(InsertStatement(share), Password).Some? <==> share.password != ""
    ensures Lookup(InsertStatement(share), Content).Some? <==> share.content != ""
    ensures Lookup(InsertStatement(share), Id).Some? <==> share.id != ""
  {
    InsertLookup(share, 0);
    InsertLookup(share, 1);
    InsertLookup(share, 2);
    InsertLookup(share, 6);
  }

  lemma {:induction false} PresentAll(pairs: seq<(ColumnName, Value)>)
    requires forall i :: 0 <= i < |pairs| ==> pairs[i].1 != Text("")
    ensures Present(pairs) == pairs
    decreases |pairs|
  {
    if |pairs| > 0 {
      assert forall i :: 0 <= i < |pairs[1..]| ==> pairs[1..][i] == pairs[i + 1];
      PresentAll(pairs[1..]);
    }
  }

  /** With every text filled in, all seven columns appear, in the fixed order. */
  lemma InsertFullOrder(share: Share)
    requires share.id != "" && share.content != "" && share.title != "" && share.password != ""
    ensures |InsertStatement(share)| == 7
    ensures forall i :: 0 <= i < 7 ==>
      (InsertStatement(share)[i].name == [Id, Content, Title, ExpireAt, AuthorId, HideAuthor, Password][i])
  {
    PresentAll(InsertCandidates(share));
  }

  /** The SET list `UpdateShare` offers, given the hash it made (if asked to
      set a password) and the expiry it computed (unless told "no-change"). */
  function UpdateCandidates(body: EditShareRequest, hash: Option<string>, expireAt: Option<Time>): seq<(ColumnName, Value)> {
    [(Title, Text(body.title)), (Content, Text(body.content))]
    + (if hash.Some? then [(Password, Text(hash.value))] else [])
    + (if expireAt.Some? then [(ExpireAt, Moment(expireAt.value))] else [])
    + [(HideAuthor, Flag(body.hideAuthor))]
  }

  /** The SET list of an update and the placeholders of its WHERE clause. */
  datatype UpdatePlan = UpdatePlan(assignments: seq<Column>, shareIdIndex: int, authorIdIndex: int)

  const NoChange: string := "no-change"

  /** The hash an update stores, when it sets a password. */
  function NewHash(body: EditShareRequest, hashed: BcryptOutput): Option<string> {
    if body.setPassword then Some(hashed.hash) else None
  }

  /** The expiry an update stores, unless it is told "no-change". */
  function NewExpiry(body: EditShareRequest, now: Instant): Option<Time>
    requires body.expireIn != NoChange ==> CreateExpirationDate(now, body.expireIn).Success?
  {
    if body.expireIn != NoChange then Some(CreateExpirationDate(now, body.expireIn).value) else None
  }

  /** The statement `UpdateShare` prepares, or the error that stops it first:
      a hashing failure (when a password is set) before a malformed period
      (when the expiry changes). */
  function PlanUpdate(body: EditShareRequest, hashed: BcryptOutput, now: Instant): Result<UpdatePlan, Error> {
    if body.setPassword && hashed.err.Some? then Failure(Plain(hashed.err.value))
    else if body.expireIn != NoChange && CreateExpirationDate(now, body.expireIn).Failure? then
      Failure(CreateExpirationDate(now, body.expireIn).error)
    else
      var assignments := Numbered(UpdateCandidates(body, NewHash(body, hashed), NewExpiry(body, now)), 1);
      Success(UpdatePlan(assignments, |assignments| + 1, |assignments| + 2))
  }

  function Names(columns: seq<Column>): seq<ColumnName> {
    seq(|columns|, i requires 0 <= i < |columns| => columns[i].name)
  }

  /** An update fails only on a hashing error when a password is set or on a
      malformed period when the expiry changes, and the hashing error is the
      one reported when both happen. */
  lemma UpdatePlanErrors(body: EditShareRequest, hashed: BcryptOutput, now: Instant)
    ensures PlanUpdate(body, hashed, now).Failure? <==>
      (body.setPassword && hashed.err.Some?) ||
      (body.expireIn != NoChange && CreateExpirationDate(now, body.expireIn).Failure?)
    ensures body.setPassword && hashed.err.Some? ==> PlanUpdate(body, hashed, now) == Failure(Plain(hashed.err.value))
  {
  }

  /** An update sets title and content first and the hide flag last; it
      sets the password in between exactly when asked to (whatever the
      password, the empty one included) and then the expiry exactly when it
      is not "no-change". The SET list binds `$1` onwards, and the share id
      and the user id take the two placeholders after it. */
  lemma UpdatePlanColumns(body: EditShareRequest, hashed: BcryptOutput, now: Instant)
    requires PlanUpdate(body, hashed, now).Success?
    ensures Names(PlanUpdate(body, hashed, now).value.assignments) ==
      [Title, Content] + (if body.setPassword then [Password] else [])
      + (if body.expireIn != NoChange then [ExpireAt] else []) + [HideAuthor]
    ensures var plan := PlanUpdate(body, hashed, now).value;
      (forall i :: 0 <= i < |plan.assignments| ==> plan.assignments[i].placeholder == i + 1)
      && plan.shareIdIndex == |plan.assignments| + 1 && plan.authorIdIndex == |plan.assignments| + 2
  {
    var plan := PlanUpdate(body, hashed, now).value;
    var cands := UpdateCandidates(body, NewHash(body, hashed), NewExpiry(body, now));
    assert forall i :: 0 <= i < |cands| ==> Names(plan.assignments)[i] == cands[i].0;
  }

  /** `fmt.Sprintf("$%d", n)`. */
  function Placeholder(n: int): string {
    "$" + FormatInt(n)
  }

  function SqlNames(columns: seq<Column>): seq<string> {
    seq(|columns|, i requires 0 <= i < |columns| => SqlName(columns[i].name))
  }

  function PlaceholderTexts(columns: seq<Column>): seq<string> {
    seq(|columns|, i requires 0 <= i < |columns| => Placeholder(columns[i].placeholder))
  }

  const UpdateHead: string := "UPDATE shares SET ("

  /** What follows the column list in the text `UpdateShare` formats. */
  const AsWrittenJoint: string := ") VALUES ("
  /** What follows it in PostgreSQL's multiple-column form `SET (..) = (..)`. */
  const IntendedJoint: string := ") = ("

  /** The placeholders of the SET list and the WHERE clause. */
  function UpdateTail(plan: UpdatePlan): string {
    Join(PlaceholderTexts(plan.assignments), ", ") + ") WHERE id = " + Placeholder(plan.shareIdIndex)
    + " AND author_id = " + Placeholder(plan.authorIdIndex) + ";"
  }

  /** `UPDATE shares SET (<columns>` + joint + `<placeholders>) WHERE id = $n AND author_id = $m;`. */
  function UpdateText(plan: UpdatePlan, joint: string): string {
    UpdateHead + Join(SqlNames(plan.assignments), ", ") + (joint + UpdateTail(plan))
  }

  /** PostgreSQL's UPDATE grammar where the two texts part: after
      `SET (column, ...)` the next token must be `=`. Only this point of the
      grammar is modelled. */
  predicate SetListWellFormed(text: string) {
    |UpdateHead| <= |text| && text[..|UpdateHead|] == UpdateHead
    && exists k :: |UpdateHead| <= k && k + 4 <= |text| && text[k] == ')' && ')' !in text[|UpdateHead|..k]
                   && text[k..k + 4] == ") = "
  }

  /** After the head and a column list without `)`, the text is well formed
      exactly when the closing `)` is followed by ` = `. */
  lemma FirstCloseAfter(cols: string, rest: string)
    requires ')' !in cols && |rest| >= 4 && rest[0] == ')'
    ensures SetListWellFormed(UpdateHead + cols + rest) <==> rest[..4] == ") = "
  {
    var text := UpdateHead + cols + rest;
    var p := |UpdateHead|;
    var close := p + |cols|;
    assert text[..p] == UpdateHead;
    assert text[p..close] == cols;
    assert text[close..close + 4] == rest[..4];
    forall k | p <= k && k + 4 <= |text| && text[k] == ')' && ')' !in text[p..k] ensures k == close {
    }
    if rest[..4] == ") = " {
      assert text[close] == ')';
    }
  }

  /** No column name holds a `)`, and neither does the list of them. */
  lemma ColumnListCloseFree(columns: seq<Column>)
    ensures ')' !in Join(SqlNames(columns), ", ")
  {
    var names := SqlNames(columns);
    forall i | 0 <= i < |names| ensures ')' !in names[i] {
      match columns[i].name
      case Id =>
      case Content =>
      case Title =>
      case ExpireAt =>
      case AuthorId =>
      case HideAuthor =>
      case Password =>
    }
    JoinAvoids(names, ", ", ')');
  }

  /** The text `UpdateShare` sends is never a well-formed UPDATE: its
      column list is followed by `VALUES`, not `=`. */
  lemma UpdateAsWrittenMalformed(plan: UpdatePlan)
    ensures !SetListWellFormed(UpdateText(plan, AsWrittenJoint))
  {
    ColumnListCloseFree(plan.assignments);
    FirstCloseAfter(Join(SqlNames(plan.assignments), ", "), AsWrittenJoint + UpdateTail(plan));
    assert (AsWrittenJoint + UpdateTail(plan))[..4] == ") VA";
  }

  /** The multiple-column form is well formed for every plan. */
  lemma UpdateTextWellFormed(plan: UpdatePlan)
    ensures SetListWellFormed(UpdateText(plan, IntendedJoint))
  {
    ColumnListCloseFree(plan.assignments);
    FirstCloseAfter(Join(SqlNames(plan.assignments), ", "), IntendedJoint + UpdateTail(plan));
    assert (IntendedJoint + UpdateTail(plan))[..4] == ") = ";
  }

  /** What one SET column does to a row. */
  function Assign(row: ShareRow, column: Column): (r: ShareRow)
    ensures r.id == row.id && r.authorId == row.authorId
  {
    match column.arg
    case Text(s) =>
      if column.name == Title then row.(title := Some(s))
      else if column.name == Content then row.(content := s)
      else if column.name == Password then row.(password := Some(s))
      else row
    case Moment(t) => if column.name == ExpireAt then row.(expireAt := Some(t)) else row
    case Number(_) => row
    case Flag(b) => if column.name == HideAuthor then row.(hideAuthor := b) else row
  }

  /** A row after its SET list, column by column. */
  function AssignAll(row: ShareRow, assignments: seq<Column>): (r: ShareRow)
    ensures r.id == row.id && r.authorId == row.authorId
    decreases |assignments|
  {
    if |assignments| == 0 then row else AssignAll(Assign(row, assignments[0]), assignments[1..])
  }

  lemma NumberedSnoc(pairs: seq<(ColumnName, Value)>, p: (ColumnName, Value), first: int)
    ensures Numbered(pairs + [p], first) == Numbered(pairs, first) + [Column(p.0, first + |pairs|, p.1)]
  {
  }

  lemma NumberedConcat(a: seq<(ColumnName, Value)>, b: seq<(ColumnName, Value)>, first: int)
    ensures Numbered(a + b, first) == Numbered(a, first) + Numbered(b, first + |a|)
  {
    assert forall i :: 0 <= i < |b| ==> (a + b)[|a| + i] == b[i];
  }

  lemma {:induction false} AssignAllConcat(row: ShareRow, a: seq<Column>, b: seq<Column>)
    ensures AssignAll(row, a + b) == AssignAll(AssignAll(row, a), b)
    decreases |a|
  {
    if |a| > 0 {
      assert (a + b)[1..] == a[1..] + b;
      AssignAllConcat(Assign(row, a[0]), a[1..], b);
    } else {
      assert a + b == b;
    }
  }

  lemma AssignAllShort(row: ShareRow, columns: seq<Column>)
    requires |columns| <= 2
    ensures |columns| == 0 ==> AssignAll(row, columns) == row
    ensures |columns| == 1 ==> AssignAll(row, columns) == Assign(row, columns[0])
    ensures |columns| == 2 ==> AssignAll(row, columns) == Assign(Assign(row, columns[0]), columns[1])
  {
    if |columns| == 2 {
      assert AssignAll(Assign(row, columns[0]), columns[1..]) == Assign(Assign(row, columns[0]), columns[1]);
    }
  }

  /** A numbered list of four runs assigns run by run. */
  lemma AssignNumberedFour(row: ShareRow, a: seq<(ColumnName, Value)>, b: seq<(ColumnName, Value)>,
                           c: seq<(ColumnName, Value)>, d: seq<(ColumnName, Value)>)
    ensures AssignAll(row, Numbered(a + b + c + d, 1)) ==
      AssignAll(AssignAll(AssignAll(AssignAll(row, Numbered(a, 1)), Numbered(b, 1 + |a|)),
                          Numbered(c, 1 + |a| + |b|)), Numbered(d, 1 + |a| + |b| + |c|))
  {
    NumberedConcat(a + b + c, d, 1);
    NumberedConcat(a + b, c, 1);
    NumberedConcat(a, b, 1);
    var n1, n2, n3, n4 := Numbered(a, 1), Numbered(b, 1 + |a|), Numbered(c, 1 + |a| + |b|), Numbered(d, 1 + |a| + |b| + |c|);
    AssignAllConcat(row, n1 + n2 + n3, n4);
    AssignAllConcat(row, n1 + n2, n3);
    AssignAllConcat(row, n1, n2);
  }

  /** The SET list of candidates assigns title, content and the hide flag,
      and the password and the expiry when they are given. */
  lemma AssignCandidates(row: ShareRow, body: EditShareRequest, hash: Option<string>, expireAt: Option<Time>)
    ensures AssignAll(row, Numbered(UpdateCandidates(body, hash, expireAt), 1)) ==
      row.(title := Some(body.title), content := body.content,
           password := if hash.Some? then hash else row.password,
           expireAt := if expireAt.Some? then expireAt else row.expireAt,
           hideAuthor := body.hideAuthor)
  {
    var texts := [(Title, Text(body.title)), (Content, Text(body.content))];
    var pw := if hash.Some? then [(Password, Text(hash.value))] else [];
    var ex := if expireAt.Some? then [(ExpireAt, Moment(expireAt.value))] else [];
    var hiding := [(HideAuthor, Flag(body.hideAuthor))];
    assert UpdateCandidates(body, hash, expireAt) == texts + pw + ex + hiding;
    AssignNumberedFour(row, texts, pw, ex, hiding);
    var n1, n2, n3, n4 := Numbered(texts, 1), Numbered(pw, 3), Numbered(ex, 3 + |pw|), Numbered(hiding, 3 + |pw| + |ex|);
    AssignAllShort(row, n1);
    var r1 := AssignAll(row, n1);
    AssignAllShort(r1, n2);
    var r2 := AssignAll(r1, n2);
    AssignAllShort(r2, n3);
    var r3 := AssignAll(r2, n3);
    AssignAllShort(r3, n4);
  }

  /** The row an update leaves: title, content and the hide flag as given
      (an empty title is stored as the empty string, not NULL), the new hash
      when a password was set, the new expiry unless "no-change", and the id
      and author untouched. */
  lemma UpdatedRow(row: ShareRow, body: EditShareRequest, hashed: BcryptOutput, now: Instant)
    requires PlanUpdate(body, hashed, now).Success?
    ensures AssignAll(row, PlanUpdate(body, hashed, now).value.assignments) ==
      row.(title := Some(body.title), content := body.content,
           password := if body.setPassword then Some(hashed.hash) else row.password,
           expireAt := if body.expireIn != NoChange then Some(CreateExpirationDate(now, body.expireIn).value) else row.expireAt,
           hideAuthor := body.hideAuthor)
  {
    AssignCandidates(row, body, NewHash(body, hashed), NewExpiry(body, now));
  }
}
