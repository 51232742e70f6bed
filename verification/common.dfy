/** Shared helpers of the API: roles, the user record and its lookups,
    password hashing and checking around bcrypt, and random identifiers. */
module Common {
  import opened Wrappers
  import opened Text
  import opened Errors

  const USER: int := 0
  const ADMIN: int := 1

  /** The `roles` table behind `Role.String`. */
  const Roles: map<int, string> := map[USER := "user", ADMIN := "admin"]

  /** `Role.String`: the name in the roles table, or `""` (Go's zero value
      for a missing map key). */
  function RoleName(role: int): (name: string)
    ensures role in Roles ==> name == Roles[role]
    ensures role !in Roles ==> name == ""
  {
    if role in Roles then Roles[role] else ""
  }

  /** Exactly the two declared roles have a name, and the names differ. */
  lemma RoleNames(role: int)
    ensures RoleName(role) != "" <==> role == USER || role == ADMIN
    ensures RoleName(USER) == "user" && RoleName(ADMIN) == "admin"
  {
  }

  datatype User = User(id: int, name: string, passwordHash: string, role: int, isOauth: bool)

  /** What one call of `bcrypt.GenerateFromPassword` returned: hash text and,
      possibly, an error message. The salt is random, so the caller supplies it. */
  datatype BcryptOutput = BcryptOutput(hash: string, err: Option<string>)

  /** `bcrypt.CompareHashAndPassword`: `None` when the password matches the hash,
      otherwise the error it reports. */
  type BcryptCompare = (string, string) -> Option<string>

  /** `CreatePasswordHash`: the hash when bcrypt succeeded, its error otherwise;
      never both, and never an empty-string stand-in for a hash. */
  function CreatePasswordHash(out: BcryptOutput): (r: Result<string, Error>)
    ensures r.Success? <==> out.err.None?
    ensures r.Success? ==> r.value == out.hash
    ensures r.Failure? ==> r.error == Plain(out.err.value)
  {
    match out.err
    case None => Success(out.hash)
    case Some(msg) => Failure(Plain(msg))
  }

  /** `IsPasswordCorrect`: never an error, only a verdict, true iff the
      comparison reported no error. */
  function IsPasswordCorrect(compare: BcryptCompare, passwordHash: string, password: string): (ok: bool)
    ensures ok <==> compare(passwordHash, password) == None
  {
    compare(passwordHash, password).None?
  }

  /** The first row of `users` whose name is `name`: the row `QueryRow` scans. */
  function FindByName(users: seq<User>, name: string): (r: Option<nat>)
    ensures r.Some? ==> r.value < |users| && users[r.value].name == name
    ensures r.Some? ==> forall j :: 0 <= j < r.value ==> users[j].name != name
    ensures r.None? ==> forall j :: 0 <= j < |users| ==> users[j].name != name
  {
    if |users| == 0 then None
    else if users[0].name == name then Some(0)
    else
      match FindByName(users[1..], name)
      case None => None
      case Some(i) => Some(i + 1)
  }

  /** The first row of `users` whose id is `id`. */
  function FindById(users: seq<User>, id: int): (r: Option<nat>)
    ensures r.Some? ==> r.value < |users| && users[r.value].id == id
    ensures r.Some? ==> forall j :: 0 <= j < r.value ==> users[j].id != id
    ensures r.None? ==> forall j :: 0 <= j < |users| ==> users[j].id != id
  {
    if |users| == 0 then None
    else if users[0].id == id then Some(0)
    else
      match FindById(users[1..], id)
      case None => None
      case Some(i) => Some(i + 1)
  }

  /** `GetUserByName`: a user with exactly that name, or a no-rows error when
      there is none; never a different user. */
  function GetUserByName(users: seq<User>, name: string): (r: Result<User, Error>)
    ensures r.Success? ==> r.value in users && r.value.name == name
    ensures r.Failure? <==> forall u :: u in users ==> u.name != name
    ensures r.Failure? ==> Root(r.error) == NoRows
  {
    match FindByName(users, name)
    case Some(i) => Success(users[i])
    case None => Failure(Wrapped("error getting user with name '" + name + "': ", ErrNoRows))
  }

  /** `GetUserById`: a user with exactly that id, or a no-rows error when
      there is none; never a different user. */
  function GetUserById(users: seq<User>, id: int): (r: Result<User, Error>)
    ensures r.Success? ==> r.value in users && r.value.id == id
    ensures r.Failure? <==> forall u :: u in users ==> u.id != id
    ensures r.Failure? ==> Root(r.error) == NoRows
  {
    match FindById(users, id)
    case Some(i) => Success(users[i])
    case None => Failure(Wrapped("error getting user with id '" + FormatInt(id) + "': ", ErrNoRows))
  }

  /** The ASCII characters from `lo` to `hi`, in code order. */
  function Span(lo: char, hi: char): (s: string)
    requires lo <= hi && hi as int < 128
    ensures |s| == hi as int - lo as int + 1
    ensures forall i :: 0 <= i < |s| ==> s[i] as int == lo as int + i
    decreases hi as int - lo as int
  {
    if lo == hi then [lo] else [lo] + Span((lo as int + 1) as char, hi)
  }

  /** The identifier alphabet `letters`: a-z, A-Z, 1-9 and `_`, in that order;
      62 symbols, with no digit `0`. */
  const Letters: string := Span('a', 'z') + Span('A', 'Z') + Span('1', '9') + "_"

  /** The symbols an identifier may hold. */
  predicate IsIdChar(c: char) {
    ('a' <= c <= 'z') || ('A' <= c <= 'Z') || ('1' <= c <= '9') || c == '_'
  }

  lemma LettersAreIdChars()
    ensures |Letters| == 62
    ensures forall i :: 0 <= i < |Letters| ==> IsIdChar(Letters[i])
  {
    var lower, upper, digits := Span('a', 'z'), Span('A', 'Z'), Span('1', '9');
    forall i | 0 <= i < |Letters| ensures IsIdChar(Letters[i]) {
      if i < 26 {
        assert Letters[i] == lower[i];
      } else if i < 52 {
        assert Letters[i] == upper[i - 26];
      } else if i < 61 {
        assert Letters[i] == digits[i - 52];
      }
    }
  }

  /** Results of `rand.Intn(bound)`: each in `[0, bound)`. */
  predicate Draws(draws: seq<int>, bound: int) {
    forall i :: 0 <= i < |draws| ==> 0 <= draws[i] < bound
  }

  /** The identifier picked by the draws `draws`, one alphabet symbol per draw:
      as many symbols as draws, each from the alphabet, never `0`. */
  function RandomId(draws: seq<int>): (id: string)
    requires Draws(draws, |Letters|)
    ensures |id| == |draws|
    ensures forall i :: 0 <= i < |id| ==> IsIdChar(id[i]) && id[i] != '0'
  {
    LettersAreIdChars();
    seq(|draws|, i requires 0 <= i < |draws| => Letters[draws[i]])
  }

  /** `CreateRandomId(length)`: `draws` are the successive results of
      `rand.Intn(len(letters))`, one per position, filled into a buffer of
      `length` symbols. */
  method CreateRandomId(length: nat, draws: seq<int>) returns (id: string)
    requires |draws| == length && Draws(draws, |Letters|)
    ensures id == RandomId(draws)
  {
    var b := new char[length];
    for i := 0 to length
      invariant forall j :: 0 <= j < i ==> b[j] == Letters[draws[j]]
    {
      b[i] := Letters[draws[i]];
    }
    id := b[..];
  }
}
