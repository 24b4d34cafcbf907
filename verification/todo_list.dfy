/** The todo-list endpoints of the resource service over a store of todo
    items keyed by id. GET by id, DELETE and POST run the step-up check
    first; listing all items and PATCH do not. */
module TodoList {
  import opened Wrappers
  import opened Models
  import opened AuthCheck

  /** The Todo table: items by id, and the next value of the identity column. */
  datatype TodoDb = TodoDb(items: map<int, Todo>, nextId: int)

  /** Every item is stored under its own id, and ids are identity values
      already handed out (identity values start at 1). */
  predicate Valid(db: TodoDb) {
    && 1 <= db.nextId
    && forall k :: k in db.items ==> db.items[k].id == k && 1 <= k < db.nextId
  }

  /** Configuration and stored requirements the check reads. */
  datatype Env = Env(authContexts: seq<AuthContext>, tenantId: Option<string>, clientId: Option<string>)

  /** The caller: token claims and identity name. */
  datatype Caller = Caller(claims: seq<Claim>, identityName: Option<string>)

  /** The request method of each checked endpoint, fixed by its route
      attribute (`HttpGet`, `HttpDelete`, `HttpPost`) and passed to the check
      as `Request.Method`. */
  const GetMethod := "GET"
  const DeleteMethod := "DELETE"
  const PostMethod := "POST"

  /** Why an endpoint did not complete. `CheckFailed` carries the exception
      the step-up check threw; `ConcurrencyConflict` is the failure of an
      update whose row does not exist; `NullBody` is the null dereference of
      a request body that bound to `null` (the JSON literal `null` or an
      empty body, which nothing rejects before the action runs). */
  datatype Failure = CheckFailed(verdict: Verdict) | NotFound | ConcurrencyConflict | NullBody

  /** An endpoint's outcome together with the store and response after it. */
  datatype Reply<T> = Reply(result: Result<T, Failure>, db: TodoDb, response: Response)

  function Check(env: Env, httpMethod: string, caller: Caller, resp: Response): CheckResult {
    CheckForRequiredAuthContext(env.authContexts, env.tenantId, env.clientId, httpMethod, caller.claims, resp)
  }

  /** `GET api/TodoList`: every stored item, with no step-up check. */
  function GetAll(db: TodoDb): (r: set<Todo>)
    requires Valid(db)
    ensures forall t :: t in r <==> t.id in db.items && db.items[t.id] == t
    ensures |r| == |db.items|
  {
    ValuesOfKeyed(db);
    set k | k in db.items :: db.items[k]
  }

  lemma ValuesOfKeyed(db: TodoDb)
    requires Valid(db)
    ensures |set k | k in db.items :: db.items[k]| == |db.items|
    ensures forall t :: t in (set k | k in db.items :: db.items[k]) <==> t.id in db.items && db.items[t.id] == t
  {
    var vs := set k | k in db.items :: db.items[k];
    var ids := set t | t in vs :: t.id;
    forall k | k in db.items
      ensures k in ids
    {
      assert db.items[k] in vs;
    }
    assert ids == db.items.Keys;
    CardinalityOfInjectiveImage(vs);
  }

  /** Distinct stored items have distinct ids, so there are as many ids as items. */
  lemma {:induction false} CardinalityOfInjectiveImage(s: set<Todo>)
    requires forall a, b :: a in s && b in s && a.id == b.id ==> a == b
    ensures |set t | t in s :: t.id| == |s|
    decreases |s|
  {
    if s != {} {
      var x :| x in s;
      var rest := s - {x};
      CardinalityOfInjectiveImage(rest);
      assert (set t | t in s :: t.id) == (set t | t in rest :: t.id) + {x.id};
      assert x.id !in (set t | t in rest :: t.id);
    }
  }

  /** `GET api/TodoList/{id}`: check, then the item with that id or `null`. */
  function GetById(env: Env, caller: Caller, db: TodoDb, resp: Response, id: int): (r: Reply<Option<Todo>>)
    ensures r.db == db
    ensures Check(env, GetMethod, caller, resp).verdict != Allowed ==>
      r.result == Failure(CheckFailed(Check(env, GetMethod, caller, resp).verdict)) && r.response == Check(env, GetMethod, caller, resp).response
    ensures Check(env, GetMethod, caller, resp).verdict == Allowed ==>
      && r.response == resp && r.result.Success?
      && (r.result.value.Some? <==> id in db.items)
      && (r.result.value.Some? ==> r.result.value.value == db.items[id])
  {
    var c := Check(env, GetMethod, caller, resp);
    if c.verdict != Allowed then Reply(Failure(CheckFailed(c.verdict)), db, c.response)
    else Reply(Success(if id in db.items then Some(db.items[id]) else None), db, c.response)
  }

  /** `DELETE api/TodoList/{id}`: check, then remove the item if it exists. */
  function Delete(env: Env, caller: Caller, db: TodoDb, resp: Response, id: int): (r: Reply<()>)
    requires Valid(db)
    ensures Valid(r.db)
    ensures Check(env, DeleteMethod, caller, resp).verdict != Allowed ==>
      r.result == Failure(CheckFailed(Check(env, DeleteMethod, caller, resp).verdict)) && r.db == db
      && r.response == Check(env, DeleteMethod, caller, resp).response
    ensures Check(env, DeleteMethod, caller, resp).verdict == Allowed ==>
      && r.result.Success? && r.response == resp
      && r.db.nextId == db.nextId
      && (forall k :: k in r.db.items <==> k in db.items && k != id)
      && (forall k :: k in r.db.items ==> r.db.items[k] == db.items[k])
  {
    var c := Check(env, DeleteMethod, caller, resp);
    if c.verdict != Allowed then Reply(Failure(CheckFailed(c.verdict)), db, c.response)
    else if id in db.items then Reply(Success(()), TodoDb(db.items - {id}, db.nextId), c.response)
    else Reply(Success(()), db, c.response)
  }

  /** The body of a POST or PATCH request. */
  datatype TodoBody = TodoBody(id: int, title: Option<string>, owner: Option<string>)

  /** `POST api/TodoList`: check, then store a new item that takes its owner
      from the caller's identity and only its title from the body. A null
      body passes the check and then fails when its title is read, before
      anything is stored. */
  function Post(env: Env, caller: Caller, db: TodoDb, resp: Response, body: Option<TodoBody>): (r: Reply<Todo>)
    requires Valid(db)
    ensures Valid(r.db)
    ensures Check(env, PostMethod, caller, resp).verdict != Allowed ==>
      r.result == Failure(CheckFailed(Check(env, PostMethod, caller, resp).verdict)) && r.db == db
      && r.response == Check(env, PostMethod, caller, resp).response
    ensures Check(env, PostMethod, caller, resp).verdict == Allowed && body.None? ==>
      r.result == Failure(NullBody) && r.db == db && r.response == resp
    ensures Check(env, PostMethod, caller, resp).verdict == Allowed && body.Some? ==>
      && r.result.Success? && r.response == resp
      && var t := r.result.value;
      && t.id !in db.items
      && t.title == body.value.title && t.owner == caller.identityName
      && r.db.items == db.items[t.id := t]
  {
    var c := Check(env, PostMethod, caller, resp);
    if c.verdict != Allowed then Reply(Failure(CheckFailed(c.verdict)), db, c.response)
    else if body.None? then Reply(Failure(NullBody), db, c.response)
    else
      var t := Todo(db.nextId, body.value.title, caller.identityName);
      Reply(Success(t), TodoDb(db.items[t.id := t], db.nextId + 1), c.response)
  }

  /** `PATCH api/TodoList/{id}`: no step-up check. A body id other than the
      route id is answered with NotFound. Otherwise the body replaces the
      stored item with that id, owner included; a body id of 0 (no key set)
      is stored as a new item instead, and an id with no stored item fails
      as an update that affected no row. A null body fails when its id is
      read, before the id guard. */
  function Patch(db: TodoDb, id: int, body: Option<TodoBody>): (r: Result<(Todo, TodoDb), Failure>)
    requires Valid(db)
    ensures r.Success? ==> Valid(r.value.1)
    ensures body.None? ==> r == Failure(NullBody)
    ensures body.Some? && id != body.value.id ==> r == Failure(NotFound)
    ensures body.Some? && id == body.value.id && id != 0 && id !in db.items ==> r == Failure(ConcurrencyConflict)
    ensures body.Some? && id == body.value.id && id != 0 && id in db.items ==>
      r.Success? && r.value.0 == Todo(id, body.value.title, body.value.owner)
      && r.value.1 == TodoDb(db.items[id := r.value.0], db.nextId)
    ensures body.Some? && id == body.value.id && id == 0 ==>
      r.Success? && r.value.0.id !in db.items
      && r.value.0.title == body.value.title && r.value.0.owner == body.value.owner
      && r.value.1.items == db.items[r.value.0.id := r.value.0]
  {
    if body.None? then Failure(NullBody)
    else
      var b := body.value;
      if id != b.id then Failure(NotFound)
      else if id == 0 then
        var t := Todo(db.nextId, b.title, b.owner);
        Success((t, TodoDb(db.items[t.id := t], db.nextId + 1)))
      else if id in db.items then
        var t := Todo(id, b.title, b.owner);
        Success((t, TodoDb(db.items[id := t], db.nextId)))
      else Failure(ConcurrencyConflict)
  }

  /** The body's owner and id never reach the store on POST. */
  lemma PostIgnoresBodyOwnerAndId(env: Env, caller: Caller, db: TodoDb, resp: Response, b1: TodoBody, b2: TodoBody)
    requires Valid(db) && b1.title == b2.title
    ensures Post(env, caller, db, resp, Some(b1)) == Post(env, caller, db, resp, Some(b2))
  {
  }

  /** Round trip: an item created by POST reads back by its id, when the
      GET passes the check, with the posted title and the poster as owner. */
  lemma PostThenGet(env: Env, poster: Caller, reader: Caller, db: TodoDb, resp: Response, body: TodoBody)
    requires Valid(db)
    requires Check(env, PostMethod, poster, resp).verdict == Allowed
    requires Check(env, GetMethod, reader, resp).verdict == Allowed
    ensures var p := Post(env, poster, db, resp, Some(body));
      var g := GetById(env, reader, p.db, resp, p.result.value.id);
      g.result == Success(Some(Todo(p.result.value.id, body.title, poster.identityName)))
  {
  }

  /** Deleting twice is the same as deleting once. */
  lemma DeleteIdempotent(env: Env, caller: Caller, db: TodoDb, resp: Response, id: int)
    requires Valid(db)
    requires Check(env, DeleteMethod, caller, resp).verdict == Allowed
    ensures var d := Delete(env, caller, db, resp, id);
      Delete(env, caller, d.db, resp, id).db == d.db
  {
  }

  /** Neither DELETE nor PATCH looks at the stored owner: any caller that
      passes the check removes any item. */
  lemma DeleteIgnoresOwner(env: Env, caller: Caller, db: TodoDb, resp: Response, id: int)
    requires Valid(db) && id in db.items && db.items[id].owner != caller.identityName
    requires Check(env, DeleteMethod, caller, resp).verdict == Allowed
    ensures id !in Delete(env, caller, db, resp, id).db.items
  {
  }

  /** The endpoints look rows up by the request method compared exactly, so
      rows stored under the spellings the admin page offers (`Get`, `Post`,
      `Delete`) gate none of them. */
  lemma AdminSpellingsGateNothing(env: Env, caller: Caller, resp: Response)
    requires forall i :: 0 <= i < |env.authContexts| ==>
      env.authContexts[i].operation in {None, Some("Get"), Some("Post"), Some("Delete")}
    ensures Check(env, GetMethod, caller, resp) == CheckResult(Allowed, resp)
    ensures Check(env, DeleteMethod, caller, resp) == CheckResult(Allowed, resp)
    ensures Check(env, PostMethod, caller, resp) == CheckResult(Allowed, resp)
  {
  }
}
