/** The in-memory user record store: its state, the five request handlers
    as functions from the old state to the new state and the response, and
    what each handler guarantees. */
module UserDb {
  import opened Json

  /** One user record. `name` and `email` hold whatever JSON value the
      client sent; `createdAt` is fixed when the record is created. */
  datatype User = User(id: int, name: Value, email: Value, createdAt: string)

  /** The store: the records by id, the ids in insertion order (the order in
      which a Python dict yields its values) and the next id to hand out. */
  datatype Db = Db(users: map<int, User>, order: seq<int>, nextId: int)

  /** What a handler answers: a record with its HTTP status and message, or
      one of the three error envelopes. */
  datatype Response =
    | Ok(status: int, message: string, user: User)
    | NotFound
    | NotJson
    | MissingFields
  {
    /** The HTTP status code sent with the envelope. */
    function Status(): int
    {
      match this
      case Ok(status, _, _) => status
      case NotFound => 404
      case NotJson => 400
      case MissingFields => 400
    }

    /** The `error` string of a failed envelope. */
    function Error(): string
    {
      match this
      case Ok(_, _, _) => ""
      case NotFound => "User not found"
      case NotJson => "Request must be JSON"
      case MissingFields => "Missing required fields: name and email"
    }
  }

  /** A handler's effect: the state afterwards and the response. */
  datatype Transition = Transition(after: Db, response: Response)

  /** The envelope of the list endpoint. */
  datatype Listing = Listing(count: int, users: seq<User>)

  /** The envelope of the health endpoint. */
  datatype HealthReport = HealthReport(status: string, timestamp: string, totalUsers: int)

  ghost predicate Increasing(s: seq<int>)
  {
    forall i, j :: 0 <= i < j < |s| ==> s[i] < s[j]
  }

  /** The store invariant: every id is positive and below the counter, every
      record carries its own key as its id, and the insertion order lists
      exactly the stored ids, in strictly ascending order. */
  ghost predicate Valid(db: Db)
  {
    && 1 <= db.nextId
    && (forall k :: k in db.users ==> 1 <= k < db.nextId && db.users[k].id == k)
    && Increasing(db.order)
    && (forall k :: k in db.order <==> k in db.users)
  }

  /** The three records the service starts with, and the counter after them. */
  function Seed(): (db: Db)
    ensures Valid(db)
    ensures db.nextId == 4 && db.users.Keys == {1, 2, 3} && db.order == [1, 2, 3]
  {
    Db(map[
         1 := User(1, Str("Alice Johnson"), Str("alice@example.com"), "2026-01-01T10:00:00Z"),
         2 := User(2, Str("Bob Smith"), Str("bob@example.com"), "2026-01-02T11:30:00Z"),
         3 := User(3, Str("Charlie Brown"), Str("charlie@example.com"), "2026-01-03T09:15:00Z")],
       [1, 2, 3], 4)
  }

  // ---------------------------------------------------------------------
  // Read-only handlers
  // ---------------------------------------------------------------------

  /** The stored records taken in the order of `ks`, skipping ids with no record. */
  function Values(users: map<int, User>, ks: seq<int>): seq<User>
  {
    if ks == [] then []
    else (if ks[0] in users then [users[ks[0]]] else []) + Values(users, ks[1..])
  }

  /** `list(users_db.values())`: every record, in insertion order. */
  function List(db: Db): seq<User>
  {
    Values(db.users, db.order)
  }

  /** The list endpoint: the number of records and the records themselves. */
  function ListUsers(db: Db): Listing
  {
    Listing(|db.users|, List(db))
  }

  /** The health endpoint; `clock` is the UTC time in ISO format. */
  function Health(db: Db, clock: string): HealthReport
  {
    HealthReport("healthy", clock + "Z", |db.users|)
  }

  /** The get endpoint: the stored record, or NotFound. */
  function Get(db: Db, id: int): (r: Response)
    ensures r.Ok? <==> id in db.users
    ensures r.Ok? ==> r.user == db.users[id] && r.Status() == 200
    ensures !r.Ok? ==> r == NotFound && r.Status() == 404
  {
    if id !in db.users then NotFound
    else Ok(200, "", db.users[id])
  }

  // ---------------------------------------------------------------------
  // Mutating handlers
  // ---------------------------------------------------------------------

  /** The create endpoint; `clock` is the UTC time in ISO format. The body is
      checked for being a non-empty object first, then for the presence of
      both fields; only then is a record built and inserted under the
      counter, which is incremented. */
  function Create(db: Db, body: Body, clock: string): Transition
  {
    if !IsTruthy(body) then Transition(db, NotJson)
    else if "name" !in body.value || "email" !in body.value then Transition(db, MissingFields)
    else
      var user := User(db.nextId, body.value["name"], body.value["email"], clock + "Z");
      var order := if db.nextId in db.users then db.order else db.order + [db.nextId];
      Transition(Db(db.users[db.nextId := user], order, db.nextId + 1),
                 Ok(201, "User created successfully", user))
  }

  /** The update endpoint: existence is checked before the body; then each of
      `name` and `email` present in the body overwrites the stored field. The
      record keeps its place in the insertion order. */
  function Update(db: Db, id: int, body: Body): Transition
  {
    if id !in db.users then Transition(db, NotFound)
    else if !IsTruthy(body) then Transition(db, NotJson)
    else
      var stored := db.users[id];
      var named := if "name" in body.value then stored.(name := body.value["name"]) else stored;
      var user := if "email" in body.value then named.(email := body.value["email"]) else named;
      Transition(db.(users := db.users[id := user]), Ok(200, "User updated successfully", user))
  }

  /** `s` with every occurrence of `x` removed. */
  function Without(s: seq<int>, x: int): (r: seq<int>)
    ensures forall y :: y in r <==> y in s && y != x
    ensures Increasing(s) ==> Increasing(r)
  {
    if s == [] then []
    else if s[0] == x then Without(s[1..], x)
    else
      var rest := Without(s[1..], x);
      assert Increasing(s) ==> forall j :: 0 <= j < |rest| ==> s[0] < rest[j] by {
        if Increasing(s) {
          forall j | 0 <= j < |rest|
            ensures s[0] < rest[j]
          {
            assert rest[j] in s[1..];
          }
        }
      }
      [s[0]] + rest
  }

  /** The delete endpoint: the record is popped from the store and returned;
      the counter is left alone. */
  function Delete(db: Db, id: int): Transition
  {
    if id !in db.users then Transition(db, NotFound)
    else Transition(db.(users := db.users - {id}, order := Without(db.order, id)),
                    Ok(200, "User deleted successfully", db.users[id]))
  }

  // ---------------------------------------------------------------------
  // Properties of the list
  // ---------------------------------------------------------------------

  /** When every id in `ks` has a record, Values picks exactly those records. */
  lemma {:induction false} ValuesExact(users: map<int, User>, ks: seq<int>)
    requires forall i :: 0 <= i < |ks| ==> ks[i] in users
    ensures |Values(users, ks)| == |ks|
    ensures forall i :: 0 <= i < |ks| ==> Values(users, ks)[i] == users[ks[i]]
  {
    if ks != [] {
      ValuesExact(users, ks[1..]);
    }
  }

  /** A strictly increasing sequence has as many elements as distinct values. */
  lemma {:induction false} IncreasingCard(s: seq<int>)
    requires Increasing(s)
    ensures |set k | k in s| == |s|
  {
    if s != [] {
      IncreasingCard(s[1..]);
      assert (set k | k in s) == {s[0]} + (set k | k in s[1..]);
      assert s[0] !in s[1..];
    }
  }

  /** On a valid store the list holds exactly one entry per stored record:
      it has as many entries as the store, every entry is the stored record
      under its own id, every stored record appears, and the ids are in
      strictly ascending order (ids are allocated increasingly and an update
      never moves a record). */
  lemma ListInOrder(db: Db)
    requires Valid(db)
    ensures |List(db)| == |db.users|
    ensures forall i :: 0 <= i < |List(db)| ==>
              List(db)[i].id in db.users && db.users[List(db)[i].id] == List(db)[i]
    ensures forall k :: k in db.users ==> db.users[k] in List(db)
    ensures forall i, j :: 0 <= i < j < |List(db)| ==> List(db)[i].id < List(db)[j].id
  {
    assert forall i :: 0 <= i < |db.order| ==> db.order[i] in db.order;
    ValuesExact(db.users, db.order);
    IncreasingCard(db.order);
    forall k
      ensures k in (set k | k in db.order) <==> k in db.users.Keys
    {
    }
    assert (set k | k in db.order) == db.users.Keys;
    var r := List(db);
    forall k | k in db.users
      ensures db.users[k] in r
    {
      var i :| 0 <= i < |db.order| && db.order[i] == k;
      assert r[i] == db.users[k];
    }
  }

  /** On a freshly started store the list holds the three seed records in
      the order 1, 2, 3, and id 999 is not found. */
  lemma SeedListing()
    ensures ListUsers(Seed()).count == 3 && |ListUsers(Seed()).users| == 3
    ensures List(Seed())[0].id == 1 && List(Seed())[1].id == 2 && List(Seed())[2].id == 3
    ensures Get(Seed(), 999) == NotFound
  {
  }

  /** The list's `count`, its number of records and the health endpoint's
      `total_users` are all the size of the store. */
  lemma CountsAgree(db: Db, clock: string)
    requires Valid(db)
    ensures ListUsers(db).count == |ListUsers(db).users| == Health(db, clock).totalUsers == |db.users|
  {
    ListInOrder(db);
  }

  // ---------------------------------------------------------------------
  // Properties of create
  // ---------------------------------------------------------------------

  /** Create succeeds exactly when the body is a non-empty object holding
      both `name` and `email` (their values are not inspected). On success
      the new record gets the old counter as id, the payload's name and
      email and the stamped time; it is inserted under a fresh key, the
      counter grows by one and no other record changes. */
  lemma CreateSucceeds(db: Db, body: Body, clock: string)
    requires Valid(db)
    ensures Create(db, body, clock).response.Ok? <==> IsTruthy(body) && Has(body, "name") && Has(body, "email")
    ensures var t := Create(db, body, clock);
      t.response.Ok? ==>
        && t.response.Status() == 201
        && t.response.user == User(db.nextId, body.value["name"], body.value["email"], clock + "Z")
        && db.nextId !in db.users
        && t.after.users == db.users[db.nextId := t.response.user]
        && |t.after.users| == |db.users| + 1
        && t.after.order == db.order + [db.nextId]
        && t.after.nextId == db.nextId + 1
  {
  }

  /** Create fails with "Request must be JSON" for a missing or empty body,
      and otherwise with "Missing required fields" when either field is
      absent; in both cases the store and the counter are unchanged. */
  lemma CreateRejects(db: Db, body: Body, clock: string)
    ensures !IsTruthy(body) ==> Create(db, body, clock) == Transition(db, NotJson)
    ensures IsTruthy(body) && !(Has(body, "name") && Has(body, "email")) ==>
              Create(db, body, clock) == Transition(db, MissingFields)
    ensures !Create(db, body, clock).response.Ok? ==> Create(db, body, clock).after == db
  {
  }

  /** Create keeps the store invariant. */
  lemma CreatePreservesValid(db: Db, body: Body, clock: string)
    requires Valid(db)
    ensures Valid(Create(db, body, clock).after)
  {
    var t := Create(db, body, clock);
    if t.response.Ok? {
      var o := t.after.order;
      forall i, j | 0 <= i < j < |o|
        ensures o[i] < o[j]
      {
        if j == |o| - 1 {
          assert o[i] == db.order[i] && o[i] in db.users;
        }
      }
    }
  }

  /** A record just created is what a following get returns. */
  lemma GetAfterCreate(db: Db, body: Body, clock: string)
    requires Valid(db)
    requires Create(db, body, clock).response.Ok?
    ensures var t := Create(db, body, clock);
      Get(t.after, t.response.user.id) == Ok(200, "", t.response.user)
  {
  }

  // ---------------------------------------------------------------------
  // Properties of update
  // ---------------------------------------------------------------------

  /** Update answers NotFound for an absent id whatever the body (existence
      is checked first), and otherwise NotJson for a missing or empty body;
      in both cases nothing changes. */
  lemma UpdateRejects(db: Db, id: int, body: Body)
    ensures id !in db.users ==> Update(db, id, body) == Transition(db, NotFound)
    ensures id in db.users && !IsTruthy(body) ==> Update(db, id, body) == Transition(db, NotJson)
    ensures Update(db, id, body).response.Ok? <==> id in db.users && IsTruthy(body)
  {
  }

  /** A successful update overwrites exactly the fields the body carries:
      id and creation time are kept, an absent field keeps its old value,
      every other record, the order and the counter stay the same. */
  lemma UpdateOverwritesPresentFields(db: Db, id: int, body: Body)
    requires Update(db, id, body).response.Ok?
    ensures var t := Update(db, id, body); var was := db.users[id]; var u := t.response.user;
      && t.response.Status() == 200
      && u.id == was.id && u.createdAt == was.createdAt
      && u.name == (if Has(body, "name") then body.value["name"] else was.name)
      && u.email == (if Has(body, "email") then body.value["email"] else was.email)
      && t.after.users.Keys == db.users.Keys
      && t.after.users[id] == u
      && (forall k :: k in db.users && k != id ==> t.after.users[k] == db.users[k])
      && t.after.order == db.order && t.after.nextId == db.nextId
  {
  }

  /** An update whose non-empty body names neither field succeeds and leaves
      the store exactly as it was, returning the unchanged record. */
  lemma UpdateWithoutFieldsIsNoop(db: Db, id: int, body: Body)
    requires id in db.users && IsTruthy(body) && !Has(body, "name") && !Has(body, "email")
    ensures Update(db, id, body) == Transition(db, Ok(200, "User updated successfully", db.users[id]))
  {
  }

  /** Update keeps the store invariant. */
  lemma UpdatePreservesValid(db: Db, id: int, body: Body)
    requires Valid(db)
    ensures Valid(Update(db, id, body).after)
  {
  }

  // ---------------------------------------------------------------------
  // Properties of delete
  // ---------------------------------------------------------------------

  /** Delete on a present id removes exactly that key and answers with the
      removed record; a following get answers NotFound, the other records
      and the counter are untouched. On an absent id nothing changes. */
  lemma DeleteRemoves(db: Db, id: int)
    ensures id !in db.users ==> Delete(db, id) == Transition(db, NotFound)
    ensures var t := Delete(db, id);
      id in db.users ==>
        && t.response == Ok(200, "User deleted successfully", db.users[id])
        && t.after.users == db.users - {id}
        && Get(t.after, id) == NotFound
        && t.after.nextId == db.nextId
        && (forall k :: k in t.after.order <==> k in db.order && k != id)
  {
  }

  /** Delete keeps the store invariant. */
  lemma DeletePreservesValid(db: Db, id: int)
    requires Valid(db)
    ensures Valid(Delete(db, id).after)
  {
  }
}
