# CMS microservices: a verified model of the core

The system is two ASP.NET services. The **content service** stores content records and
can update a content and then tell the **user service** that one of its users has new
content. The **user service** stores users behind an API-key gate. This project models,
in Dafny, the logic these two services have of their own:

- **The two record stores** (`ContentService`, `UserService`). Each is an immutable
  `map<Id, Record>` with create, read, update and delete. A GUID is a `nat` and
  `Guid.Empty` is 0. `DateTime.UtcNow` is a parameter. `Guid.NewGuid()` is replaced by
  `Table.FreshKey`, which picks a key above every key in use.
- **The update-then-notify orchestration** (`ContentService.UpdateContentAndUser`). It
  loads the content and aborts if it is missing. Otherwise it overwrites Title and Body,
  commits, and then notifies the user service. The user service's answer is an input
  (`Http.HttpOutcome`). The controllers' mapping of each result to an HTTP status is in
  `ContentsController` and `UsersController`.
- **The resilience policy** (`PolicyHelper`): a 10 s timeout around a retry (3 retries,
  2^n s apart) around a circuit breaker (opens after 2 transient failures, for 30 s).
  The model uses pure step functions over an integer clock. The outcome and duration of
  each network attempt are inputs. The policy semantics are Polly's, modelled abstractly
  (the module's doc comment lists the rules).
- **The API-key gate** (`ApiKeyMiddleware.Invoke`): a pure decision on the path, the
  `X-Api-Key` header and the configured key.

Module layout, one module per source file plus shared helpers: `Common` (ids, instants,
`Option`), `Table` (the id-keyed table both stores use), `Http` (outbound outcomes,
action results, status codes), `ContentService`, `ContentsController`, `PolicyHelper`,
`UserService`, `UsersController`, `ApiKeyMiddleware`.

Points where the code's behaviour is easy to misread, and which the model follows as written:
- The retry count 3 allows up to 4 attempts, not 3. The model then proves that the
  timeout allows at most 3 attempts, and the breaker at most 2 when every attempt
  fails transiently.
- A missing content makes the orchestration throw a plain exception. The controller
  answers 500 for it, never 404.
- The orchestration's notify call is not modelled as going through the policy. The
  client builds an unconfigured named `HttpClient`, while the policy is attached to the
  typed-client registration.

## Model

| member | source | states |
|---|---|---|
| Table.FreshKey | src/ContentService/Services/ContentService.cs:34 | the new id is not `Guid.Empty` and not already in the store |
| Table.Enumerate | src/ContentService/Services/ContentService.cs:24 | enumerating a table yields every key exactly once, each paired with its record |
| Table.Lookup | src/ContentService/Services/ContentService.cs:29 | lookup finds a record exactly when the id is stored, and finds the stored record |
| ContentService.GetAllContents | src/ContentService/Services/ContentService.cs:22-25 | the list has one entry per stored record, holds every stored record and nothing else, and its ids are distinct |
| ContentService.GetContentById | src/ContentService/Services/ContentService.cs:27-30 | returns the record stored under the id, or null exactly when the id is absent |
| ContentService.CreateContent | src/ContentService/Services/ContentService.cs:32-39 | the created record has a fresh non-empty id and CreatedAt = now, keeps the given Title, Body and owner; the store grows by exactly that record and keeps its invariant |
| ContentService.UpdateContent | src/ContentService/Services/ContentService.cs:41-55 | missing id: false and the store unchanged; otherwise true, Title, Body and CreatedByUserId overwritten, Id and CreatedAt kept, other records unchanged |
| ContentService.DeleteContent | src/ContentService/Services/ContentService.cs:57-70 | true exactly when the id was stored; exactly that id is removed and every other record is kept |
| ContentService.UpdateContentAndUser | src/ContentService/Services/ContentService.cs:75-104 | missing content: error, no mutation, no notify; otherwise only Title and Body overwritten, owner and CreatedAt kept, exactly one signal to the `userId` argument; success exactly when the content exists and the user service answers 2xx |
| ContentService.CommitSurvivesNotifyFailure | src/ContentService/Services/ContentService.cs:88-103 | the committed store is the same whether the notify succeeds or fails; a failed notify reports an error but the new Title stays stored |
| ContentService.OrchestrationCommitIsUpdate | src/ContentService/Services/ContentService.cs:88-91 | the orchestration's commit equals the plain update with the record's own owner kept |
| ContentsController.GetAll | src/ContentService/Controllers/ContentsController.cs:19-20 | 200 with a list holding exactly the stored records |
| ContentsController.GetById | src/ContentService/Controllers/ContentsController.cs:22-27 | 404 exactly when the id is absent, otherwise 200 with the stored record |
| ContentsController.Create | src/ContentService/Controllers/ContentsController.cs:29-34 | 201 pointing at `GetById` with a fresh route id equal to the created record's Id; `GetById` on that id then answers 200 with the record |
| ContentsController.Update | src/ContentService/Controllers/ContentsController.cs:36-42 | 404 exactly when the id is absent (store unchanged), 204 exactly when present |
| ContentsController.Delete | src/ContentService/Controllers/ContentsController.cs:44-50 | 404 exactly when the id is absent, 204 exactly when present; the id is gone afterwards |
| ContentsController.UpdateContentAndNotifyUser | src/ContentService/Controllers/ContentsController.cs:51-63 | 200 with the success message exactly when the orchestration succeeds; otherwise 500 with the failure message and, as detail, exactly the orchestration's error (a missing content, or the failed notify answer); never 404 |
| PolicyHelper.Classify | src/ContentService/Helpers/PolicyHelper.cs:12 | no response, 5xx and 408 are transient; 2xx is success; anything else is a permanent outcome |
| PolicyHelper.DelaysDouble | src/ContentService/Helpers/PolicyHelper.cs:15 | each retry delay is twice the previous one |
| PolicyHelper.BackoffClosedForm | src/ContentService/Helpers/PolicyHelper.cs:13-15 | the total sleep before retry n+1 is 2^(n+1) - 2 seconds |
| PolicyHelper.ConfiguredBackoff | src/ContentService/Helpers/PolicyHelper.cs:14-15 | the delays are 2, 4 and 8 s; sleeps before retry 3 total 6 s, all three total 14 s, past the 10 s budget |
| PolicyHelper.Admit | src/ContentService/Helpers/PolicyHelper.cs:27-29 | an open breaker refuses exactly until its break elapses; afterwards it admits one trial and blocks the next for another 30 s; Closed admits unchanged; only legal transitions |
| PolicyHelper.Record | src/ContentService/Helpers/PolicyHelper.cs:25-38 | only transient outcomes count; the second consecutive one opens the circuit for 30 s and fires the break callback; a failed trial re-opens; a successful trial closes and fires the reset callback; the Closed counter stays below 2 |
| PolicyHelper.RetryLoop | src/ContentService/Helpers/PolicyHelper.cs:11-20 | at most 4 attempts; every retry callback names retry 1..3 with delay 2^n and a transient cause; a returned response is the last attempt's; a timeout ends exactly at the deadline |
| PolicyHelper.Execute | src/ContentService/Helpers/PolicyHelper.cs:52-59 | one call under timeout, retry and breaker: at most 4 attempts, returns within 10 s, keeps the breaker invariant |
| PolicyHelper.OpenRejectsWithoutNetwork | src/ContentService/Helpers/PolicyHelper.cs:27-29 | while open, a call fails at once with "circuit open", makes no attempt and leaves the breaker untouched |
| PolicyHelper.NonTransientNotRetried | src/ContentService/Helpers/PolicyHelper.cs:11-13 | a non-transient outcome is returned after one attempt with no retry, leaves the circuit closed, and a successful trial fires the reset callback |
| PolicyHelper.FailedTrialReopens | src/ContentService/Helpers/PolicyHelper.cs:27-34 | a failed trial re-opens the circuit for 30 s from the failure, fires the break callback and is the call's only attempt |
| PolicyHelper.TransientStepAllowance | src/ContentService/Helpers/PolicyHelper.cs:26-29 | a transient failure recorded within one break duration of the deadline uses up one attempt of the breaker's allowance: a Closed counter climbs, any other state opens past the deadline |
| PolicyHelper.BreakerCapsTransientLoop | src/ContentService/Helpers/PolicyHelper.cs:28 | within a window shorter than the break, a transiently failing retry loop makes no more attempts than the breaker's remaining allowance |
| PolicyHelper.BreakerCapsTransientAttempts | src/ContentService/Helpers/PolicyHelper.cs:54-58 | with the breaker inside the retry, a call that keeps failing transiently reaches the network at most twice |
| PolicyHelper.TimeoutTruncatesLoop | src/ContentService/Helpers/PolicyHelper.cs:44 | from retry n at or after the backoff so far, the loop makes at most 3 - n more attempts and never returns an exhausted transient result |
| PolicyHelper.TimeoutTruncatesRetries | src/ContentService/Helpers/PolicyHelper.cs:41-58 | the 10 s budget allows at most 3 attempts, and a call never ends by exhausting its retries |
| PolicyHelper.SharedBreakerScenario | src/ContentService/Helpers/PolicyHelper.cs:23-38 | successive calls share the breaker: two instant failures open it; a call 5 s later is refused without network; a call 31 s later is a trial |
| UserService.GetAllUsers | src/UserService/Services/UserService.cs:15-18 | the list has one entry per stored user, holds every stored user and nothing else, and its ids are distinct |
| UserService.GetUserById | src/UserService/Services/UserService.cs:20-23 | returns the user stored under the id, or null exactly when it is absent |
| UserService.CreateUser | src/UserService/Services/UserService.cs:25-32 | fresh non-empty id, CreatedAt = now, other fields as given; the store grows by exactly that user |
| UserService.UpdateUser | src/UserService/Services/UserService.cs:34-45 | missing id: false, store unchanged; otherwise true, only Username, Email and FullName overwritten, Id, CreatedAt and LastContentUpdated kept, other users unchanged |
| UserService.DeleteUser | src/UserService/Services/UserService.cs:47-55 | true exactly when the id was stored; exactly that id is removed |
| UserService.UpdateLastContentMarker | src/UserService/Controllers/UsersController.cs:57 | the corrected update: on a known user it stores the marker and keeps every other field and user |
| UsersController.GetAll | src/UserService/Controllers/UsersController.cs:19-20 | 200 with a list holding exactly the stored users |
| UsersController.GetById | src/UserService/Controllers/UsersController.cs:22-27 | 404 exactly when the id is absent, otherwise 200 with the stored user |
| UsersController.Create | src/UserService/Controllers/UsersController.cs:29-34 | 201 pointing at `GetById` with the created user's fresh id, which `GetById` then finds |
| UsersController.Update | src/UserService/Controllers/UsersController.cs:36-42 | 404 exactly when the id is absent (store unchanged), 204 exactly when present |
| UsersController.Delete | src/UserService/Controllers/UsersController.cs:44-50 | 404 exactly when the id is absent, 204 exactly when present |
| UsersController.UpdateLastContentUpdated | src/UserService/Controllers/UsersController.cs:51-64 | 404 for an unknown user (no update call); otherwise the update reports true and the answer is 204 |
| UsersController.MarkerNeverStored | src/UserService/Controllers/UsersController.cs:57-59 | composed with the update, the endpoint leaves the whole user store unchanged whatever marker is sent, while answering 204 |
| UsersController.MarkerLostExample | src/UserService/Services/UserService.cs:39-41 | a concrete user whose marker stays null after a 204 for marker 100 |
| UsersController.UpdateLastContentUpdatedFixed | src/UserService/Controllers/UsersController.cs:51-64 | as intended: 404 for an unknown user; a 204 means the marker is stored and nothing else changed |
| UsersController.FixedDiffersOnlyInMarker | src/UserService/Controllers/UsersController.cs:57 | on a known user the corrected and as-written endpoints leave the same ids, the same records for every other user, and the same record for that user except its marker |
| ApiKeyMiddleware.ConfiguredKey | src/UserService/Middlewares/ApiKeyMiddleware.cs:12 | the key is the `ApiKey` setting, or "supersecretkey" when it is not set |
| ApiKeyMiddleware.EqualsIgnoreCaseIsPointwise | src/UserService/Middlewares/ApiKeyMiddleware.cs:17 | the ignore-case comparison holds exactly for equal lengths and equal upper-cased characters |
| ApiKeyMiddleware.SegmentPrefix | src/UserService/Middlewares/ApiKeyMiddleware.cs:17 | a path spelling out the prefix and then `rest` starts with the prefix's segments exactly when `rest` is empty or begins with '/' |
| ApiKeyMiddleware.Invoke | src/UserService/Middlewares/ApiKeyMiddleware.cs:15-30 | passes on exactly when the path is under `/health` or the header is exactly the key; otherwise 401 "Unauthorized client"; a missing header on a non-health path is 401 |
| ApiKeyMiddleware.HealthSegments | src/UserService/Middlewares/ApiKeyMiddleware.cs:17 | `/health`, `/health/ready` and `/HEALTH` are health paths; `/healthz`, `/healthcheck`, `/api/health` and `/` are not |
| ApiKeyMiddleware.HealthPathShape | src/UserService/Middlewares/ApiKeyMiddleware.cs:17 | `/health` followed by `rest` is a health path exactly when `rest` is empty or starts a new segment |
| ApiKeyMiddleware.DefaultKeyAdmits | src/UserService/Middlewares/ApiKeyMiddleware.cs:12-29 | with no key configured, the default key passes any path and a missing header is refused on non-health paths |

## Left out

- Process start-up in both `Program.cs` files: dependency injection, OpenTelemetry, Serilog, Swagger, EF migrations. This is framework wiring with no logic of its own.
- Consul registration and deregistration are calls into a foreign client. Only the content service wraps them in try/catch.
- `UserClientService` is an HTTP client. Its PATCH outcome is the `HttpOutcome` input of the orchestration, and success means a 2xx answer.
- The user-service client, its HTTP transport and the service wiring are not modelled. The notify answer is the parameter `response` (`NoResponse` when nothing comes back), and the model does not claim that the `PolicyHelper` policy wraps that client. A reading of the wiring, not executed: the only registration is the typed client `AddHttpClient<IUserClientService, UserClientService>` (src/ContentService/Program.cs:53-57), while the only constructor of `UserClientService` takes an `IHttpClientFactory` and asks it for a client named `UserServiceClient` (src/ContentService/ClientServices/UserClientService.cs:9-12). So activating the class may fail, and the base address and policy configured at Program.cs:53-57 may not reach the client it uses. The client's path `api/users/{id}/lastcontentupdated` also differs from the user service's route `users/{id}/lastcontentupdated`.
- `UserClientService.GetUserByIdAsync` is not used by the core and is left out.
- UsersController.UpdateLastContentUpdated: the 500 "Failed to update user" answer (src/UserService/Controllers/UsersController.cs:61) cannot occur in the model. It needs the user to be deleted between the read and the update, or a database failure, and the model runs calls one at a time over a store that does not fail.
- EF Core change tracking, `AsNoTracking` and `SaveChangesAsync` are replaced by a plain map. Database failures are left out.
- Logging is left out: the error and information logs of the services, and `ErrorLoggingMiddleware`, which only logs and rethrows. The policy's callbacks are kept as an event trace.
- Exception messages are kept as an error value (`OrchestrationError`), not as text. This includes the "Content with id ... not found." message and the HTTP exception's message.
- Time is whole seconds, and a GUID is a natural number.
- `Table.FreshKey` stands in for `Guid.NewGuid()`. It is deterministic, where a real GUID is random.
- Concurrency is left out. That covers async/await, cancellation tokens, and concurrent calls sharing the breaker. The breaker is modelled sequentially, so a HalfOpen trial completes before the next call starts.
- Polly internals beyond the rules stated in `PolicyHelper` are left out.
- ApiKeyMiddleware.StartsWithSegments: folds case for ASCII letters only. The ordinal ignore-case comparison also folds non-ASCII letters, which the model does not.
- The interfaces `IContentService` and `IUserService` are signatures only. Their DTO files are not part of this model.
- The DTO type of `UpdateLastContentUpdated` is not part of this model, so its marker is modelled as a nullable instant.

## Findings

| source | as written | input that shows it | evidently intended | confidence | as-written member | corrected member |
|---|---|---|---|---|---|---|
| src/UserService/Controllers/UsersController.cs:57-59 | the endpoint sets `LastContentUpdated` on the user it read, then passes that user to `UpdateUserAsync`. The user was read with `AsNoTracking` (src/UserService/Services/UserService.cs:22), so the `FindAsync` in `UpdateUserAsync` (:36) loads a separate copy, and the update copies only Username, Email and FullName (src/UserService/Services/UserService.cs:39-41); the marker is never stored, yet the answer is 204 | a stored user 7 with a null marker, and `PATCH users/7/lastcontentupdated` with marker 100: the answer is 204 and the stored marker is still null | a 204 means the user's LastContentUpdated now holds the sent marker (the column was added by migration `AddLastContentUpdatedField` for this purpose) | high (not executed) | UsersController.MarkerNeverStored | UsersController.UpdateLastContentUpdatedFixed |
