/** `ContentsController`: maps the content service's answers to HTTP results
    (route `contents`). */
module ContentsController {
  import opened Common
  import opened Http
  import opened ContentService

  const UpdatedMessage: string := "Content and user updated successfully."
  const FailedMessage: string := "An error occurred while updating content and user."

  /** The anonymous reply object of the orchestration endpoint:
      `{ Message }` on success, `{ Message, Details }` on failure. */
  datatype Reply = Reply(message: string, details: Option<OrchestrationError>)

  /** `GET contents`. */
  method GetAll(store: ContentStore) returns (r: ActionResult<seq<Content>>)
    ensures r.Ok?
    ensures |r.value| == |store|
    ensures forall c :: c in store.Values <==> c in r.value
  {
    var all := GetAllContents(store);
    r := Ok(all);
  }

  /** `GET contents/{id}`: 404 for an unknown id, otherwise 200 with the record. */
  function GetById(store: ContentStore, id: Id): (r: ActionResult<Content>)
    ensures StatusOf(r) == 404 <==> id !in store
    ensures StatusOf(r) == 200 <==> id in store
    ensures r.Ok? ==> r.value == store[id]
    ensures r.Ok? || r.NotFound?
  {
    match GetContentById(store, id)
    case None => NotFound
    case Some(content) => Ok(content)
  }

  /** `POST contents`: 201 pointing at `GetById` for the new id, with the created record. */
  method Create(store: ContentStore, content: Content, now: Instant)
    returns (r: ActionResult<Content>, store': ContentStore)
    ensures r.CreatedAtAction? && StatusOf(r) == 201
    ensures r.actionName == "GetById"
    ensures r.routeId == r.value.id && r.routeId !in store
    ensures r.routeId in store' && store'[r.routeId] == r.value
    ensures r.value.title == content.title && r.value.body == content.body
    ensures GetById(store', r.routeId) == Ok(r.value)
  {
    var created;
    created, store' := CreateContent(store, content, now);
    r := CreatedAtAction("GetById", created.id, created);
  }

  /** `PUT contents/{id}`: 404 when the update reports false, 204 when it reports true. */
  function Update(store: ContentStore, id: Id, updated: Content): (r: (ActionResult<Content>, ContentStore))
    ensures StatusOf(r.0) == 404 <==> id !in store
    ensures StatusOf(r.0) == 204 <==> id in store
    ensures r.0.NotFound? ==> r.1 == store
    ensures r.0.NoContent? ==> id in r.1 && r.1[id].title == updated.title && r.1[id].body == updated.body
  {
    var (found, store') := UpdateContent(store, id, updated);
    if !found then (NotFound, store') else (NoContent, store')
  }

  /** `DELETE contents/{id}`: 404 when the delete reports false, 204 when it reports true. */
  function Delete(store: ContentStore, id: Id): (r: (ActionResult<Content>, ContentStore))
    ensures StatusOf(r.0) == 404 <==> id !in store
    ensures StatusOf(r.0) == 204 <==> id in store
    ensures r.0.NotFound? ==> r.1 == store
    ensures r.1.Keys == store.Keys - {id}
  {
    var (found, store') := DeleteContent(store, id);
    if !found then (NotFound, store') else (NoContent, store')
  }

  /** `PATCH contents/{contentId}/update-and-notify-user/{userId}`: 200 with the
      success message exactly when the orchestration completes; any exception it
      throws, a missing content included, becomes 500 with the failure message and
      the error as detail. This endpoint never answers 404. */
  function UpdateContentAndNotifyUser(store: ContentStore, contentId: Id, userId: Id,
                                      dto: ContentUpdateDto, now: Instant, response: HttpOutcome)
    : (r: (ActionResult<Reply>, ContentStore))
    ensures StatusOf(r.0) == 200 <==> contentId in store && Succeeded(response)
    ensures StatusOf(r.0) == 200 ==> r.0 == Ok(Reply(UpdatedMessage, None))
    ensures StatusOf(r.0) != 200 ==>
              && r.0.StatusCode? && r.0.code == 500
              && r.0.value.message == FailedMessage
              && r.0.value.details.Some?
    ensures r.0.StatusCode? ==>
              r.0.value.details == ContentService.UpdateContentAndUser(store, contentId, dto, userId, now, response).error
    ensures contentId in store && !Succeeded(response) ==>
              r.0 == StatusCode(500, Reply(FailedMessage, Some(NotifyFailed(response))))
    ensures contentId !in store ==>
              r.0 == StatusCode(500, Reply(FailedMessage, Some(ContentNotFound(contentId)))) && r.1 == store
    ensures StatusOf(r.0) != 404
    ensures contentId in store ==> contentId in r.1 && r.1[contentId].title == dto.title
  {
    var o := ContentService.UpdateContentAndUser(store, contentId, dto, userId, now, response);
    match o.error
    case None => (Ok(Reply(UpdatedMessage, None)), o.store)
    case Some(e) => (StatusCode(500, Reply(FailedMessage, Some(e))), o.store)
  }
}
