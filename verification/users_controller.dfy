/** `UsersController`: maps the user service's answers to HTTP results (route `users`). */
module UsersController {
  import opened Common
  import opened Http
  import opened UserService

  const UpdateFailedMessage: string := "Failed to update user"

  /** `GET users`. */
  method GetAll(store: UserStore) returns (r: ActionResult<seq<User>>)
    ensures r.Ok?
    ensures |r.value| == |store|
    ensures forall u :: u in store.Values <==> u in r.value
  {
    var all := GetAllUsers(store);
    r := Ok(all);
  }

  /** `GET users/{id}`: 404 for an unknown id, otherwise 200 with the record. */
  function GetById(store: UserStore, id: Id): (r: ActionResult<User>)
    ensures StatusOf(r) == 404 <==> id !in store
    ensures StatusOf(r) == 200 <==> id in store
    ensures r.Ok? ==> r.value == store[id]
    ensures r.Ok? || r.NotFound?
  {
    match GetUserById(store, id)
    case None => NotFound
    case Some(user) => Ok(user)
  }

  /** `POST users`: 201 pointing at `GetById` for the new id, with the created record. */
  method Create(store: UserStore, user: User, now: Instant)
    returns (r: ActionResult<User>, store': UserStore)
    ensures r.CreatedAtAction? && StatusOf(r) == 201
    ensures r.actionName == "GetById"
    ensures r.routeId == r.value.id && r.routeId !in store
    ensures r.routeId in store' && store'[r.routeId] == r.value
    ensures r.value.username == user.username && r.value.email == user.email
    ensures GetById(store', r.routeId) == Ok(r.value)
  {
    var created;
    created, store' := CreateUser(store, user, now);
    r := CreatedAtAction("GetById", created.id, created);
  }

  /** `PUT users/{id}`: 404 when the update reports false, 204 when it reports true. */
  function Update(store: UserStore, id: Id, updated: User): (r: (ActionResult<string>, UserStore))
    ensures StatusOf(r.0) == 404 <==> id !in store
    ensures StatusOf(r.0) == 204 <==> id in store
    ensures r.0.NotFound? ==> r.1 == store
    ensures r.0.NoContent? ==> id in r.1 && r.1[id].username == updated.username
  {
    var (found, store') := UpdateUser(store, id, updated);
    if !found then (NotFound, store') else (NoContent, store')
  }

  /** `DELETE users/{id}`: 404 when the delete reports false, 204 when it reports true. */
  function Delete(store: UserStore, id: Id): (r: (ActionResult<string>, UserStore))
    ensures StatusOf(r.0) == 404 <==> id !in store
    ensures StatusOf(r.0) == 204 <==> id in store
    ensures r.0.NotFound? ==> r.1 == store
    ensures r.1.Keys == store.Keys - {id}
  {
    var (found, store') := DeleteUser(store, id);
    if !found then (NotFound, store') else (NoContent, store')
  }

  /** `PATCH users/{id}/lastcontentupdated`, as written: look the user up (404 if
      unknown, no update call), set the marker on the copy that was read, then hand
      that copy to `UpdateUserAsync` (500 if it reports false, 204 otherwise).
      `UpdateUserAsync` copies only Username, Email and FullName, so the marker
      set on the copy never reaches the store. */
  function UpdateLastContentUpdated(store: UserStore, id: Id, marker: Option<Instant>)
    : (r: (ActionResult<string>, UserStore))
    ensures StatusOf(r.0) == 404 <==> id !in store
    ensures StatusOf(r.0) == 204 <==> id in store
    ensures StatusOf(r.0) in {404, 204}
    ensures r.0.NotFound? ==> r.1 == store
  {
    match GetUserById(store, id)
    case None => (NotFound, store)
    case Some(user) =>
      var (success, store') := UpdateUser(store, id, user.(lastContentUpdated := marker));
      if !success then (StatusCode(500, UpdateFailedMessage), store') else (NoContent, store')
  }

  /** The as-written endpoint answers 204 yet stores nothing: the whole user
      store is unchanged, whatever marker was sent. */
  lemma MarkerNeverStored(store: UserStore, id: Id, marker: Option<Instant>)
    ensures UpdateLastContentUpdated(store, id, marker).1 == store
    ensures id in store ==> UpdateLastContentUpdated(store, id, marker).0.NoContent?
  {
    if id in store {
      var user := store[id];
      var copy := user.(lastContentUpdated := marker);
      var updated := user.(username := copy.username, email := copy.email, fullName := copy.fullName);
      assert updated == user;
      assert store[id := updated] == store;
    }
  }

  /** A concrete user for which the 204 answer and the stored record disagree. */
  lemma MarkerLostExample()
    ensures var store := map[7 := User(7, "ana", "ana@example.org", "Ana", 0, None)];
            var r := UpdateLastContentUpdated(store, 7, Some(100));
            StatusOf(r.0) == 204 && r.1[7].lastContentUpdated == None
  {
    var store := map[7 := User(7, "ana", "ana@example.org", "Ana", 0, None)];
    MarkerNeverStored(store, 7, Some(100));
  }

  /** The endpoint as evidently intended: a 204 means the marker is now stored
      on that user, and nothing else about any user changed. */
  function UpdateLastContentUpdatedFixed(store: UserStore, id: Id, marker: Option<Instant>)
    : (r: (ActionResult<string>, UserStore))
    ensures StatusOf(r.0) == 404 <==> id !in store
    ensures StatusOf(r.0) == 204 <==> id in store
    ensures r.0.NotFound? ==> r.1 == store
    ensures r.0.NoContent? ==> id in r.1 && r.1[id].lastContentUpdated == marker
    ensures r.0.NoContent? ==> r.1[id] == store[id].(lastContentUpdated := marker)
    ensures r.0.NoContent? ==> forall k :: k in store && k != id ==> k in r.1 && r.1[k] == store[k]
  {
    match GetUserById(store, id)
    case None => (NotFound, store)
    case Some(_) =>
      var (success, store') := UpdateLastContentMarker(store, id, marker);
      if !success then (StatusCode(500, UpdateFailedMessage), store') else (NoContent, store')
  }

  /** The fix differs from the original exactly on the marker: on a known user
      the two stores hold the same ids, agree on every other user, and agree on
      every field of that user but the marker. */
  lemma FixedDiffersOnlyInMarker(store: UserStore, id: Id, marker: Option<Instant>)
    requires id in store
    ensures var fixed := UpdateLastContentUpdatedFixed(store, id, marker).1;
            var asWritten := UpdateLastContentUpdated(store, id, marker).1;
            && fixed.Keys == asWritten.Keys
            && fixed[id] == asWritten[id].(lastContentUpdated := marker)
            && forall k :: k in fixed && k != id ==> fixed[k] == asWritten[k]
  {
    MarkerNeverStored(store, id, marker);
  }
}
