/** The user-owning service: CRUD over an id-keyed table of users. */
module UserService {
  import opened Common
  import Table

  /** A user record (`Models/User.cs`). `lastContentUpdated` is nullable. */
  datatype User = User(
    id: Id,
    username: string,
    email: string,
    fullName: string,
    createdAt: Instant,
    lastContentUpdated: Option<Instant>)

  type UserStore = map<Id, User>

  /** Every record sits under its own id. */
  ghost predicate WellKeyed(store: UserStore)
  {
    forall id :: id in store ==> store[id].id == id
  }

  /** `GetAllUsersAsync`: the list of stored records. */
  method GetAllUsers(store: UserStore) returns (all: seq<User>)
    ensures |all| == |store|
    ensures forall i :: 0 <= i < |all| ==> all[i] in store.Values
    ensures forall u :: u in store.Values ==> u in all
    ensures WellKeyed(store) ==> forall i, j :: 0 <= i < j < |all| ==> all[i].id != all[j].id
  {
    var ks;
    ks, all := Table.Enumerate(store);
  }

  /** `GetUserByIdAsync`: the record stored under `id`, or null. */
  function GetUserById(store: UserStore, id: Id): (r: Option<User>)
    ensures r.Some? <==> id in store
    ensures r.Some? ==> r.value == store[id]
  {
    Table.Lookup(store, id)
  }

  /** `CreateUserAsync`: stamps a fresh id and the creation time onto the given
      record and adds it; the other fields are kept as given. */
  method CreateUser(store: UserStore, user: User, now: Instant)
    returns (created: User, store': UserStore)
    ensures created.id != EmptyId && created.id !in store
    ensures created.createdAt == now
    ensures created.username == user.username && created.email == user.email
    ensures created.fullName == user.fullName
    ensures created.lastContentUpdated == user.lastContentUpdated
    ensures store'.Keys == store.Keys + {created.id}
    ensures store'[created.id] == created
    ensures forall k :: k in store ==> store'[k] == store[k]
    ensures WellKeyed(store) ==> WellKeyed(store')
  {
    var id := Table.FreshKey(store);
    created := user.(id := id, createdAt := now);
    store' := store[id := created];
  }

  /** `UpdateUserAsync`: on a known id, overwrites Username, Email and FullName
      from `updated` and reports true; on an unknown id reports false.
      Id, CreatedAt and LastContentUpdated of the stored record are kept. */
  function UpdateUser(store: UserStore, id: Id, updated: User): (r: (bool, UserStore))
    ensures r.0 <==> id in store
    ensures !r.0 ==> r.1 == store
    ensures r.0 ==> Table.AgreeExcept(store, r.1, id)
    ensures r.0 ==> && r.1[id].username == updated.username
                    && r.1[id].email == updated.email
                    && r.1[id].fullName == updated.fullName
    ensures r.0 ==> && r.1[id].id == store[id].id
                    && r.1[id].createdAt == store[id].createdAt
                    && r.1[id].lastContentUpdated == store[id].lastContentUpdated
    ensures WellKeyed(store) ==> WellKeyed(r.1)
  {
    if id !in store then (false, store)
    else
      var existing := store[id];
      (true, store[id := existing.(username := updated.username, email := updated.email,
                                    fullName := updated.fullName)])
  }

  /** `DeleteUserAsync`: removes the record under a known id and reports true;
      on an unknown id reports false. */
  function DeleteUser(store: UserStore, id: Id): (r: (bool, UserStore))
    ensures r.0 <==> id in store
    ensures r.1.Keys == store.Keys - {id}
    ensures forall k :: k in r.1 ==> r.1[k] == store[k]
    ensures WellKeyed(store) ==> WellKeyed(r.1)
  {
    if id !in store then (false, store) else (true, store - {id})
  }

  /** Not in the source: the update the last-content marker endpoint needs.
      On a known id it stores `marker` as LastContentUpdated and keeps every other field. */
  function UpdateLastContentMarker(store: UserStore, id: Id, marker: Option<Instant>): (r: (bool, UserStore))
    ensures r.0 <==> id in store
    ensures !r.0 ==> r.1 == store
    ensures r.0 ==> Table.AgreeExcept(store, r.1, id)
    ensures r.0 ==> r.1[id] == store[id].(lastContentUpdated := marker)
    ensures WellKeyed(store) ==> WellKeyed(r.1)
  {
    if id !in store then (false, store)
    else (true, store[id := store[id].(lastContentUpdated := marker)])
  }
}
