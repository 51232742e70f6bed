/** The three tables the API keeps in its database, as one mutable store
    that the share and user handlers share through their connection. */
module Store {
  import opened Wrappers
  import opened CivilTime
  import opened Errors
  import opened Common

  /** A row of `sessions`. */
  datatype SessionRow = SessionRow(sessionId: string, userId: int, expireAt: Time)

  /** A row of `shares` as `DBShare` scans it: the nullable columns are options. */
  datatype ShareRow = ShareRow(
    id: string,
    content: string,
    title: Option<string>,
    expireAt: Option<Time>,
    password: Option<string>,
    authorId: Option<int>,
    hideAuthor: bool)

  /** What a driver reports when an insert repeats a primary key. */
  const DuplicateKey: Error := Plain("duplicate key value violates unique constraint")

  /** No two users share an id: `id` is the primary key of `users`. */
  predicate UniqueIds(users: seq<User>) {
    forall i, j :: 0 <= i < j < |users| ==> users[i].id != users[j].id
  }

  /** Each share is filed under its own id: `id` is the primary key of `shares`. */
  predicate KeyedById(shares: map<string, ShareRow>) {
    forall k :: k in shares ==> shares[k].id == k
  }

  class Database {
    var users: seq<User>
    var sessions: seq<SessionRow>
    var shares: map<string, ShareRow>

    /** The primary keys hold. */
    predicate Valid()
      reads this
    {
      UniqueIds(users) && KeyedById(shares)
    }

    constructor ()
      ensures users == [] && sessions == [] && shares == map[]
      ensures Valid()
    {
      users := [];
      sessions := [];
      shares := map[];
    }
  }

  /** Appending a user with a fresh id keeps the ids unique. */
  lemma AddFreshId(users: seq<User>, u: User)
    requires UniqueIds(users) && forall v :: v in users ==> v.id != u.id
    ensures UniqueIds(users + [u])
  {
    var all := users + [u];
    forall i, j | 0 <= i < j < |all| ensures all[i].id != all[j].id {
      if j == |users| {
        assert all[i] in users;
      } else {
        assert all[i] == users[i] && all[j] == users[j];
      }
    }
  }
}
