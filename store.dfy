/** The store as the service holds it: one object whose fields the create,
    update and delete handlers change in place. Each handler is proved to
    leave the object in the state, and to give the response, that the
    corresponding function of UserDb prescribes. */
module Store {
  import opened Json
  import opened UserDb

  class UserStore {
    /** The records by id (`users_db`). */
    var users: map<int, User>
    /** The ids in insertion order: the order `users_db` iterates in. */
    var order: seq<int>
    /** The next id to hand out (`next_user_id`). */
    var nextId: int

    /** The store's current contents as a value. */
    function State(): Db
      reads this
    {
      Db(users, order, nextId)
    }

    ghost predicate Valid()
      reads this
    {
      UserDb.Valid(State())
    }

    /** The store at start-up: the three seed records and counter 4. */
    constructor ()
      ensures Valid() && State() == Seed()
    {
      var seed := Seed();
      users := seed.users;
      order := seed.order;
      nextId := seed.nextId;
    }

    /** The create handler. */
    method CreateUser(body: Body, clock: string) returns (r: Response)
      requires Valid()
      modifies this
      ensures Valid()
      ensures Transition(State(), r) == Create(old(State()), body, clock)
    {
      if !IsTruthy(body) {
        return NotJson;
      }
      if "name" !in body.value || "email" !in body.value {
        return MissingFields;
      }
      var user := User(nextId, body.value["name"], body.value["email"], clock + "Z");
      if nextId !in users {
        order := order + [nextId];
      }
      users := users[nextId := user];
      nextId := nextId + 1;
      r := Ok(201, "User created successfully", user);
      CreatePreservesValid(old(State()), body, clock);
    }

    /** The update handler: the stored record is changed field by field. */
    method UpdateUser(id: int, body: Body) returns (r: Response)
      requires Valid()
      modifies this
      ensures Valid()
      ensures Transition(State(), r) == Update(old(State()), id, body)
    {
      if id !in users {
        return NotFound;
      }
      if !IsTruthy(body) {
        return NotJson;
      }
      var user := users[id];
      if "name" in body.value {
        user := user.(name := body.value["name"]);
      }
      if "email" in body.value {
        user := user.(email := body.value["email"]);
      }
      users := users[id := user];
      r := Ok(200, "User updated successfully", user);
      UpdatePreservesValid(old(State()), id, body);
    }

    /** The delete handler: the record is popped and returned. */
    method DeleteUser(id: int) returns (r: Response)
      requires Valid()
      modifies this
      ensures Valid()
      ensures Transition(State(), r) == Delete(old(State()), id)
    {
      if id !in users {
        return NotFound;
      }
      var deleted := users[id];
      users := users - {id};
      order := Without(order, id);
      r := Ok(200, "User deleted successfully", deleted);
      DeletePreservesValid(old(State()), id);
    }
  }

  /** A session against a freshly started store: create Dana, read her back,
      change her email, delete her, read again, create someone else. */
  method DanaSession() returns (created: Response, fetched: Response, updated: Response,
                                deleted: Response, gone: Response, next: Response)
    ensures created.Ok? && created.Status() == 201 && created.user.id == 4
    ensures created.user.name == Str("Dana") && created.user.email == Str("dana@example.com")
    ensures fetched == Ok(200, "", created.user)
    ensures updated.Ok? && updated.user == created.user.(email := Str("d2@example.com"))
    ensures deleted.Ok? && deleted.user == updated.user
    ensures gone == NotFound && gone.Error() == "User not found"
    ensures next.Ok? && next.user.id == 5
  {
    var store := new UserStore();
    created := store.CreateUser(Some(map["name" := Str("Dana"), "email" := Str("dana@example.com")]),
                                "2026-02-01T08:00:00");
    fetched := Get(store.State(), 4);
    updated := store.UpdateUser(4, Some(map["email" := Str("d2@example.com")]));
    deleted := store.DeleteUser(4);
    gone := Get(store.State(), 4);
    next := store.CreateUser(Some(map["name" := Str("Eve"), "email" := Str("eve@example.com")]),
                             "2026-02-01T08:05:00");
  }

  /** A create whose body lacks `email` is refused and leaves the store as it was. */
  method MissingEmailSession() returns (r: Response, count: int, counter: int)
    ensures r == MissingFields && r.Status() == 400
    ensures count == 3 && counter == 4
  {
    var store := new UserStore();
    r := store.CreateUser(Some(map["name" := Str("Dana")]), "2026-02-01T08:00:00");
    count := |store.users|;
    counter := store.nextId;
  }
}
