/** Sequences of requests against the store, served one after another, and
    what holds across them: the invariant is kept, the counter never goes
    down, and an id once handed out (or deleted) is never handed out again. */
module History {
  import opened Json
  import opened UserDb

  /** One request to a record endpoint, with its arguments. */
  datatype Call =
    | GetCall(id: int)
    | CreateCall(body: Body, clock: string)
    | UpdateCall(id: int, body: Body)
    | DeleteCall(id: int)

  /** Serving one request. A get leaves the store as it is. */
  function Step(db: Db, call: Call): Transition
  {
    match call
    case GetCall(id) => Transition(db, Get(db, id))
    case CreateCall(body, clock) => Create(db, body, clock)
    case UpdateCall(id, body) => Update(db, id, body)
    case DeleteCall(id) => Delete(db, id)
  }

  /** The store after a run of requests and the response to each. */
  datatype Trace = Trace(after: Db, responses: seq<Response>)

  /** Serving `calls` in order, starting from `db`. */
  function Run(db: Db, calls: seq<Call>): (t: Trace)
    ensures |t.responses| == |calls|
    decreases calls
  {
    if calls == [] then Trace(db, [])
    else
      var first := Step(db, calls[0]);
      var rest := Run(first.after, calls[1..]);
      Trace(rest.after, [first.response] + rest.responses)
  }

  /** A create that succeeded within a run. */
  ghost predicate CreatedAt(calls: seq<Call>, responses: seq<Response>, i: int)
  {
    0 <= i < |calls| && i < |responses| && calls[i].CreateCall? && responses[i].Ok?
  }

  /** Every request keeps the store invariant. */
  lemma StepPreservesValid(db: Db, call: Call)
    requires Valid(db)
    ensures Valid(Step(db, call).after)
  {
    match call
    case GetCall(_) =>
    case CreateCall(body, clock) => CreatePreservesValid(db, body, clock);
    case UpdateCall(id, body) => UpdatePreservesValid(db, id, body);
    case DeleteCall(id) => DeletePreservesValid(db, id);
  }

  /** Any run keeps the store invariant. */
  lemma {:induction false} RunPreservesValid(db: Db, calls: seq<Call>)
    requires Valid(db)
    ensures Valid(Run(db, calls).after)
    decreases calls
  {
    if calls != [] {
      StepPreservesValid(db, calls[0]);
      RunPreservesValid(Step(db, calls[0]).after, calls[1..]);
    }
  }

  /** Only a successful create moves the counter, and then by exactly one;
      get, update and delete never touch it. */
  lemma StepCounter(db: Db, call: Call)
    ensures Step(db, call).after.nextId ==
              if call.CreateCall? && Step(db, call).response.Ok? then db.nextId + 1 else db.nextId
  {
  }

  /** Over any run the counter never decreases, and each create that
      succeeds hands out an id at or above the starting counter and below
      the final one, larger than every id handed out before it. */
  lemma {:induction false} CreatedIdsIncrease(db: Db, calls: seq<Call>)
    ensures var t := Run(db, calls);
      && db.nextId <= t.after.nextId
      && (forall i :: CreatedAt(calls, t.responses, i) ==>
            db.nextId <= t.responses[i].user.id < t.after.nextId)
      && (forall i, j :: CreatedAt(calls, t.responses, i) && CreatedAt(calls, t.responses, j) && i < j ==>
            t.responses[i].user.id < t.responses[j].user.id)
    decreases calls
  {
    if calls != [] {
      var first := Step(db, calls[0]);
      var rest := Run(first.after, calls[1..]);
      var t := Run(db, calls);
      StepCounter(db, calls[0]);
      CreatedIdsIncrease(first.after, calls[1..]);
      assert t.responses == [first.response] + rest.responses;
      forall i | 1 <= i < |calls|
        ensures CreatedAt(calls, t.responses, i) == CreatedAt(calls[1..], rest.responses, i - 1)
        ensures t.responses[i] == rest.responses[i - 1]
      {
      }
      if CreatedAt(calls, t.responses, 0) {
        assert t.responses[0].user.id == db.nextId;
      }
    }
  }

  /** Once an id has been deleted, no later create hands it out again. */
  lemma DeletedIdNeverReissued(db: Db, id: int, calls: seq<Call>)
    requires Valid(db)
    requires Delete(db, id).response.Ok?
    ensures var t := Run(Delete(db, id).after, calls);
      forall i :: CreatedAt(calls, t.responses, i) ==> t.responses[i].user.id != id
  {
    CreatedIdsIncrease(Delete(db, id).after, calls);
  }
}
