/** The content-owning service: CRUD over an id-keyed table of contents, and the
    two-step "update content, then notify the user service" orchestration.

    The database is an immutable map from id to record; every operation returns
    the new map. The clock and the user service's answer are parameters. */
module ContentService {
  import opened Common
  import opened Http
  import Table

  /** A content record (`Models/Content.cs`). */
  datatype Content = Content(
    id: Id,
    title: string,
    body: string,
    createdByUserId: Id,
    createdAt: Instant)

  type ContentStore = map<Id, Content>

  /** The request body of the orchestration endpoint (`ContentUpdateDto`). */
  datatype ContentUpdateDto = ContentUpdateDto(title: string, body: string)

  /** The message sent to the user service (`UserUpdateDto` to `PATCH .../lastcontentupdated`). */
  datatype UserUpdateSignal = UserUpdateSignal(userId: Id, lastContentUpdated: Instant)

  /** Why the orchestration threw. */
  datatype OrchestrationError =
    | ContentNotFound(contentId: Id)     // "Content with id {id} not found."
    | NotifyFailed(response: HttpOutcome) // EnsureSuccessStatusCode threw, or the request did

  /** The store as EF Core keeps it: every record sits under its own id. */
  ghost predicate WellKeyed(store: ContentStore)
  {
    forall id :: id in store ==> store[id].id == id
  }

  /** `GetAllContentsAsync`: the list of stored records. */
  method GetAllContents(store: ContentStore) returns (all: seq<Content>)
    ensures |all| == |store|
    ensures forall i :: 0 <= i < |all| ==> all[i] in store.Values
    ensures forall c :: c in store.Values ==> c in all
    ensures WellKeyed(store) ==> forall i, j :: 0 <= i < j < |all| ==> all[i].id != all[j].id
  {
    var ks;
    ks, all := Table.Enumerate(store);
  }

  /** `GetContentByIdAsync`: the record stored under `id`, or null. */
  function GetContentById(store: ContentStore, id: Id): (r: Option<Content>)
    ensures r.Some? <==> id in store
    ensures r.Some? ==> r.value == store[id]
  {
    Table.Lookup(store, id)
  }

  /** `CreateContentAsync`: stamps a fresh id and the creation time onto the
      given record and adds it. */
  method CreateContent(store: ContentStore, content: Content, now: Instant)
    returns (created: Content, store': ContentStore)
    ensures created.id != EmptyId && created.id !in store
    ensures created.createdAt == now
    ensures created.title == content.title && created.body == content.body
    ensures created.createdByUserId == content.createdByUserId
    ensures store'.Keys == store.Keys + {created.id}
    ensures store'[created.id] == created
    ensures forall k :: k in store ==> store'[k] == store[k]
    ensures WellKeyed(store) ==> WellKeyed(store')
  {
    var id := Table.FreshKey(store);
    created := content.(id := id, createdAt := now);
    store' := store[id := created];
  }

  /** `UpdateContentAsync`: on a known id, overwrites Title, Body and CreatedByUserId
      from `updated` and reports true; on an unknown id reports false. */
  function UpdateContent(store: ContentStore, id: Id, updated: Content): (r: (bool, ContentStore))
    ensures r.0 <==> id in store
    ensures !r.0 ==> r.1 == store
    ensures r.0 ==> Table.AgreeExcept(store, r.1, id)
    ensures r.0 ==> r.1[id].id == store[id].id && r.1[id].createdAt == store[id].createdAt
    ensures r.0 ==> r.1[id].title == updated.title && r.1[id].body == updated.body
    ensures r.0 ==> r.1[id].createdByUserId == updated.createdByUserId
    ensures WellKeyed(store) ==> WellKeyed(r.1)
  {
    if id !in store then (false, store)
    else
      var existing := store[id];
      (true, store[id := existing.(title := updated.title, body := updated.body,
                                    createdByUserId := updated.createdByUserId)])
  }

  /** `DeleteContentAsync`: removes the record under a known id and reports true;
      on an unknown id reports false. */
  function DeleteContent(store: ContentStore, id: Id): (r: (bool, ContentStore))
    ensures r.0 <==> id in store
    ensures r.1.Keys == store.Keys - {id}
    ensures forall k :: k in r.1 ==> r.1[k] == store[k]
    ensures WellKeyed(store) ==> WellKeyed(r.1)
  {
    if id !in store then (false, store) else (true, store - {id})
  }

  /** What one run of `UpdateContentAndUserAsync` leaves behind: the store, the
      signals sent to the user service (in order), and the error it threw, if any. */
  datatype Orchestration = Orchestration(
    store: ContentStore,
    sent: seq<UserUpdateSignal>,
    error: Option<OrchestrationError>)

  /** `UpdateContentAndUserAsync`: load the content, abort if missing, overwrite
      Title and Body, commit, then notify the user service that `userId` has new
      content as of `now`. `response` is what the user service answers.
      The commit is never rolled back. */
  function UpdateContentAndUser(store: ContentStore, contentId: Id, dto: ContentUpdateDto,
                                userId: Id, now: Instant, response: HttpOutcome): (o: Orchestration)
    ensures contentId !in store ==>
              o.store == store && o.sent == [] && o.error == Some(ContentNotFound(contentId))
    ensures contentId in store ==> o.sent == [UserUpdateSignal(userId, now)]
    ensures contentId in store ==> Table.AgreeExcept(store, o.store, contentId)
    ensures contentId in store ==>
              && o.store[contentId].title == dto.title
              && o.store[contentId].body == dto.body
              && o.store[contentId].id == store[contentId].id
              && o.store[contentId].createdByUserId == store[contentId].createdByUserId
              && o.store[contentId].createdAt == store[contentId].createdAt
    ensures o.error.None? <==> contentId in store && Succeeded(response)
    ensures o.error.Some? && contentId in store ==> o.error == Some(NotifyFailed(response))
    ensures WellKeyed(store) ==> WellKeyed(o.store)
  {
    if contentId !in store then
      Orchestration(store, [], Some(ContentNotFound(contentId)))
    else
      var content := store[contentId];
      var committed := store[contentId := content.(title := dto.title, body := dto.body)];
      var signal := UserUpdateSignal(userId, now);
      if Succeeded(response) then Orchestration(committed, [signal], None)
      else Orchestration(committed, [signal], Some(NotifyFailed(response)))
  }

  /** The commit does not depend on the user service: whatever it answers, the
      content store ends up the same, and a failed notification is not rolled back. */
  lemma CommitSurvivesNotifyFailure(store: ContentStore, contentId: Id, dto: ContentUpdateDto,
                                    userId: Id, now: Instant, ok: HttpOutcome, failed: HttpOutcome)
    requires Succeeded(ok) && !Succeeded(failed)
    ensures UpdateContentAndUser(store, contentId, dto, userId, now, failed).store
         == UpdateContentAndUser(store, contentId, dto, userId, now, ok).store
    ensures contentId in store ==>
              UpdateContentAndUser(store, contentId, dto, userId, now, failed).error.Some?
              && UpdateContentAndUser(store, contentId, dto, userId, now, failed).store[contentId].title == dto.title
  {
  }

  /** The orchestration's commit is the plain update with the record's own owner
      kept: it is `UpdateContentAsync` restricted to Title and Body. */
  lemma OrchestrationCommitIsUpdate(store: ContentStore, contentId: Id, dto: ContentUpdateDto,
                                    userId: Id, now: Instant, response: HttpOutcome)
    requires contentId in store
    ensures var existing := store[contentId];
            var asUpdate := existing.(title := dto.title, body := dto.body);
            UpdateContentAndUser(store, contentId, dto, userId, now, response).store
              == UpdateContent(store, contentId, asUpdate).1
  {
  }
}
