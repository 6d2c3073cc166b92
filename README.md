# Task Master to-do service: a Dafny model

This project models the core of a small to-do application and proves its rules in Dafny.
The model has three parts, one module per source file:

- `TaskModel` (`task_model.dfy`) is the task document schema. A task has a required `text`, the optional legacy aliases `title`, `done` and `status`, a `completed` flag that defaults to false, and a `createdAt` time that defaults to "now". The schema is non-strict, so other fields are kept in an `extra` map. `MkTask` is the validating constructor. The module also holds the by-id operations on a collection that the server and the client share: find, remove and replace.
- `TaskServer` (`task_server.dfy`) is the REST service. The class `TaskStore` holds the collection as a `seq<Task>` plus a fresh-id counter. Its methods `List`, `Create`, `Toggle` and `Delete` are the GET, POST, PUT and DELETE `/tasks` handlers. Each returns a `Reply` holding the HTTP status code and an abstract body.
- `TaskApp` (`task_app.dfy`) is the browser client. It has the pure derived values: the `checkCompleted` compatibility test, the search-and-filter pipeline, the counts and the summary message. The class `TodoApp` holds the component state (`tasks`, `text`, `search`, `filter`). Its methods call the `TaskStore` directly in place of HTTP requests and then reconcile local state from the reply.

The result that ties the parts together:
- A task built by the create handler satisfies `checkCompleted == completed` (`NewTaskAgrees`).
- So does a task rewritten by the toggle handler (`ToggledAgrees`).
- Each client action keeps the local list holding exactly the stored tasks (`Mirrors`), whatever their order.

The method `TaskLifecycle` walks one task through the client's actions against a fresh store. The task is created, toggled to completed, toggled back, and deleted twice. The method checks the state of both sides after each step.

Modelling decisions:

- Identifiers are naturals from a counter that only goes up. `Valid()` says stored identifiers are unique and all below the counter.
- The clock is a parameter `now` of `Create` and `AddTask`.
- The mapper fills in schema defaults when it loads a document. So a stored `Task` always has `completed` and `createdAt`, but `text` is `Option<string>`, because a legacy document may lack it.
- The toggle handler saves the document. Saving runs the schema's validation, and validation includes the `required` rule on `text`. So toggling a stored document that has no text, or empty text, goes to the catch branch: the reply is 400 and the store is unchanged. `Toggle` models this. The source shows this only through the schema and the `catch` at `backend/server.js:71-72`. It is an inference from the mapper's validate-on-save behaviour, not something the handler code says outright.
- A reply outside the 2xx range is the request library's rejection. The client's `catch` leaves its state unchanged in that case.
- The summary percentages are integer comparisons: `completed * 100 > 70 * total` and `completed * 100 > 40 * total`.
- The filter stays a string, as in the source. `"all"` keeps everything, `"active"` keeps unfinished tasks, and any other value keeps finished tasks.

## Model

| member | source | states |
|---|---|---|
| `TaskModel.HasText` | backend/models/Task.js:4 | The `required` check on a string: a missing value and the empty string fail, and any non-empty string passes. |
| `TaskModel.MkTask` | backend/models/Task.js:3-10 | Refused exactly when `text` is missing or empty. On success: `completed` holds only if it was given as true; `createdAt` is the given time, or else `now`; `title`/`done`/`status` are copied as given; every non-schema field is kept with its value; nothing else enters `extra`. |
| `TaskModel.AliasesOptional` | backend/models/Task.js:5-9 | A record built from `text` alone is valid: no `title`, `done` or `status`, `completed` false, `createdAt` now. |
| `TaskModel.ExtraFieldsKept` | backend/models/Task.js:10 | A field outside the schema survives construction with its value. |
| `TaskModel.FindById` | backend/server.js:59-60 | Returns none exactly when no task has the identifier. Otherwise returns the first position that holds it. |
| `TaskModel.WithoutId` | frontend/src/App.jsx:61 | Exactly the tasks with a different identifier remain, and the list does not grow. |
| `TaskModel.ReplaceById` | frontend/src/App.jsx:52 | Same length. Each entry with the identifier becomes the reply's task. Every other entry is untouched. |
| `TaskModel.WithoutIdKeepsOrder` | frontend/src/App.jsx:61 | The tasks left after a delete are an order-preserving subsequence of the list. |
| `TaskModel.WithoutIdIdempotent` | backend/server.js:79 | Removing the same identifier again changes nothing. |
| `TaskModel.WithoutAbsentId` | backend/server.js:79 | Deleting an identifier that is not present leaves the collection as it is. |
| `TaskModel.WithoutPresentId` | backend/server.js:79 | With unique identifiers, deleting a present identifier removes exactly one task. |
| `TaskModel.WithoutIdUnique` | backend/server.js:79 | Deleting keeps identifiers unique. |
| `TaskModel.ReplaceAtUniqueId` | frontend/src/App.jsx:52 | With unique identifiers, the client's replace-by-id gives the same list as the server's write to the one position holding that identifier. |
| `TaskModel.WithoutIdCount` | frontend/src/App.jsx:61 | As a bag, removal drops every copy of a task with that identifier and keeps the count of every other task. |
| `TaskModel.WithoutIdSameBag` | frontend/src/App.jsx:61 | Two lists holding the same tasks still hold the same tasks after the same removal. |
| `TaskModel.ReplaceByIdBag` | frontend/src/App.jsx:52 | As a bag, replacement swaps each task with that identifier for a copy of the new task. |
| `TaskModel.ReplaceByIdSameBag` | frontend/src/App.jsx:52 | Two lists holding the same tasks still hold the same tasks after the same replacement. |
| `TaskServer.InsertByDate` | backend/server.js:24 | Inserting into a newest-first list keeps it newest first and adds exactly that task. |
| `TaskServer.SortNewestFirst` | backend/server.js:24 | The result is ordered by `createdAt`, newest first, and is a permutation of the input. |
| `TaskServer.StatusWord` | backend/server.js:66 | The word is `"done"` exactly when the task is completed, and `"pending"` exactly when it is not. |
| `TaskServer.Toggled` | backend/server.js:62-67 | `completed` is negated, and `done` equals the new value. `status` is `"done"` if the new value is true, else `"pending"`. The identifier, text, title, creation time and extra fields do not change. |
| `TaskServer.ToggleTwiceRestoresCompleted` | backend/server.js:62-63 | Toggling twice restores `completed`, and a toggled task's legacy fields are in sync. |
| `TaskServer.ToggleTwiceOnSynced` | backend/server.js:62-67 | On a task whose legacy fields are in sync, two toggles give back the same record. |
| `TaskServer.TaskStore.constructor` | backend/models/Task.js:12 | A store over an existing collection with unique identifiers, all below the first fresh identifier. |
| `TaskServer.TaskStore.List` | backend/server.js:22-25 | Status 200. The body holds every stored task, each as often as stored, ordered newest `createdAt` first. |
| `TaskServer.TaskStore.Create` | backend/server.js:37-49 | Missing or empty `text` gives 400 and leaves the store unchanged. Otherwise the reply is 201. The returned task has the request's `text`, `completed` false, `createdAt` equal to now, no aliases and no extra fields, and an identifier no stored task has. The store grows by exactly that task. |
| `TaskServer.TaskStore.Toggle` | backend/server.js:59-72 | An unknown identifier gives 404 with no change. A known task without text gives 400 with no change. Otherwise the reply is 200 with the toggled task, and only that position of the store changes. |
| `TaskServer.TaskStore.Delete` | backend/server.js:79-80 | Always 200 with the deleted message. Afterwards exactly the tasks with other identifiers remain, and none has the deleted identifier. |
| `TaskApp.CheckCompleted` | frontend/src/App.jsx:67-72 | `completed` true always classifies as completed. A task classified as not completed has neither `completed` nor `done` set. On a task whose legacy fields are in sync, the answer is `completed`. |
| `TaskApp.SyncedAgrees` | frontend/src/App.jsx:67-72 | On a task whose legacy fields are in sync, `checkCompleted` equals `completed`. |
| `TaskApp.ToggledAgrees` | backend/server.js:62-67 | After a server toggle, the client's `checkCompleted` equals the new `completed`. |
| `TaskApp.NewTaskAgrees` | backend/server.js:42-45 | A task as the create handler builds it is valid, not completed, and not classified as completed. |
| `TaskApp.StatusDoneCountsAsCompleted` | frontend/src/App.jsx:70 | A task with only `status == "done"` is classified as completed, like one with `completed` true. |
| `TaskApp.StatusCompletedCounts` | frontend/src/App.jsx:71 | A task whose `status` is `"completed"` is classified as completed, whatever its other fields say. |
| `TaskApp.LowerChar` | frontend/src/App.jsx:75-76 | The result is never an upper-case ASCII letter. A character that is not one is kept, and one that is becomes its lower-case letter. |
| `TaskApp.Lower` | frontend/src/App.jsx:75-76 | Keeps the length and leaves no upper-case ASCII letter. Each upper-case letter becomes its lower-case letter in the same place, and every other character is kept in place. |
| `TaskApp.LowerIdempotent` | frontend/src/App.jsx:75-76 | Lower-casing twice is the same as lower-casing once. |
| `TaskApp.Includes` | frontend/src/App.jsx:76 | True exactly when the query occurs as a contiguous substring at some position. |
| `TaskApp.SearchKey` | frontend/src/App.jsx:75 | The search text is `text` when it is non-empty, otherwise `title`. It is empty exactly when neither has a non-empty value. |
| `TaskApp.MatchesSearch` | frontend/src/App.jsx:75-76 | A task matches only if the query is no longer than its search text. |
| `TaskApp.EmptySearchMatches` | frontend/src/App.jsx:75-76 | An empty search matches every task. |
| `TaskApp.SearchIgnoresQueryCase` | frontend/src/App.jsx:76 | Searching for the lower-cased query gives the same answer as searching for the query. |
| `TaskApp.SearchIgnoresKeyCase` | frontend/src/App.jsx:75 | Lower-casing a task's text does not change whether any query matches it. |
| `TaskApp.MatchesFilter` | frontend/src/App.jsx:79-82 | `"all"` passes every task. Any other filter passes a task exactly when the filter is `"active"` and the task is open, or the filter is something else and the task is completed. |
| `TaskApp.Keep` | frontend/src/App.jsx:77-84 | Under `"all"` a task is kept exactly when it matches the search. A kept task under `"active"` is open, and under any other value it is completed. A task that fails the search is never kept. |
| `TaskApp.FilteredTasks` | frontend/src/App.jsx:74-85 | A task is shown exactly when it is in the list and passes both the search and the filter. Each passing task is shown as many times as it occurs in the list, and a failing task not at all. |
| `TaskApp.FilteredKeepsOrder` | frontend/src/App.jsx:74-85 | The shown list is an order-preserving subsequence of `tasks`. |
| `TaskApp.EmptySearchShowsAll` | frontend/src/App.jsx:74-85 | With an empty search and the `"all"` filter, the shown list is `tasks` itself. |
| `TaskApp.FilterPartition` | frontend/src/App.jsx:79-82 | Under one search, the `"active"` view and any other non-`"all"` view have sizes that add up to the `"all"` view's size. |
| `TaskApp.CompletedCount` | frontend/src/App.jsx:87 | At most the list length. Equals the length exactly when every task is completed, and is zero exactly when none is. |
| `TaskApp.Tally` | frontend/src/App.jsx:87-90 | `completed + active == total`. `completed <= total`. `active` is zero exactly when every task is completed. |
| `TaskApp.CountsAreFilterSizes` | frontend/src/App.jsx:87-90 | The completed and active counts equal the sizes of the completed and `"active"` views with an empty search. |
| `TaskApp.FocusSummary` | frontend/src/App.jsx:103-109 | Chosen in order. No tasks gives the start message. No open task (every task completed) gives the all-done message. Otherwise the test is `completed*100 > 70*total`, then `> 40*total`, then the rest. Each of the last three carries the number of open tasks. |
| `TaskApp.IsJsWhitespace` | frontend/src/App.jsx:38 | ASCII letters and digits are never whitespace. Space, tab and newline are. |
| `TaskApp.TrimStart` | frontend/src/App.jsx:38 | The result is a suffix of the input. |
| `TaskApp.TrimEnd` | frontend/src/App.jsx:38 | The result is a prefix of the input and does not end in whitespace. |
| `TaskApp.Trim` | frontend/src/App.jsx:38 | The result is no longer than the input, and neither its first nor its last character is whitespace. |
| `TaskApp.TrimStartDropsWhitespace` | frontend/src/App.jsx:38 | Every character that trimming the front removes is whitespace. |
| `TaskApp.TrimEndDropsWhitespace` | frontend/src/App.jsx:38 | Every character that trimming the end removes is whitespace. |
| `TaskApp.TrimIsInfix` | frontend/src/App.jsx:38 | `text.trim()` is a contiguous middle part `s[i..j]` of the text, and everything before `i` and after `j` is whitespace. Together with `Trim`'s contract, this means exactly the leading and trailing whitespace is removed. |
| `TaskApp.TrimStartShape` | frontend/src/App.jsx:38 | Trimming the front gives the empty string exactly when every character is whitespace. Otherwise the result starts with a non-whitespace character. |
| `TaskApp.TrimEmptyIffBlank` | frontend/src/App.jsx:38 | `text.trim()` is empty exactly when every character of `text` is whitespace. |
| `TaskApp.Resolved` | frontend/src/App.jsx:49-55 | The request library resolves the 200 and 201 replies. It rejects 400, 404 and 500, and the `catch` leaves the client state alone. |
| `TaskApp.ToggleReconciles` | frontend/src/App.jsx:52 | If the local list holds the stored tasks, replacing by identifier locally matches the server's write to the stored position. |
| `TaskApp.TodoApp.constructor` | frontend/src/App.jsx:9-12 | Starts with no tasks, empty input, empty search and the `"all"` filter. |
| `TaskApp.TodoApp.Shown` | frontend/src/App.jsx:74-85 | The shown tasks are exactly those in `tasks` that pass the current search and filter, each as many times as it occurs in `tasks`. |
| `TaskApp.TodoApp.FetchTasks` | frontend/src/App.jsx:27-31 | The local list becomes the service's listing: the stored tasks, newest first. |
| `TaskApp.TodoApp.AddTask` | frontend/src/App.jsx:36-43 | Whitespace-only input changes nothing on either side. Otherwise the store gains one task carrying the text as typed, `completed` false and creation time now. That task is put first in the local list and the input is cleared. Its identifier is the store's next fresh identifier, and the counter advances by one. Local and stored lists keep holding the same tasks. |
| `TaskApp.TodoApp.ToggleTask` | frontend/src/App.jsx:49-52 | The length is kept. Only entries with the identifier change, each to the server's toggled task, and on those `checkCompleted` equals `completed`. A refused toggle changes nothing. The store's fresh-identifier counter is unchanged. Local and stored lists keep holding the same tasks. |
| `TaskApp.ToggleOnlyTask` | frontend/src/App.jsx:49-52 | When both sides hold just one task with text, a toggle leaves both holding its toggled version. |
| `TaskApp.TodoApp.DeleteTask` | frontend/src/App.jsx:58-61 | Both the store and the local list lose exactly the tasks with that identifier. The store's fresh-identifier counter is unchanged. Local and stored lists keep holding the same tasks. |

## Left out

- HTTP: routing, CORS, JSON body parsing, the API URL and the listening port. Each request is a direct method call and each response a `Reply` value.
- The database connection and environment configuration. The collection is an in-memory sequence and identifiers come from a counter.
- Store failures that the ODM raises on its own (connection or query errors). These are the 500 branch of GET and the 400 catch branches of POST and DELETE. That includes the cast error that a malformed `:id` raises in the lookup of PUT and DELETE, which answers 400: identifiers here are naturals, so a malformed one cannot be written, and `Delete`'s "always 200" holds only for well-formed identifiers. They come from code outside this model and are not modelled. The catch branch of PUT is modelled only for the validation failure described above.
- Request bodies whose `text` is not a string (a number or a boolean, which the mapper would cast). `Create` takes `text` as an optional string.
- Legacy documents missing `createdAt`. The mapper would give them the load time, and the model gives every stored task a creation time.
- Ties in the listing order. The database leaves the order of equal `createdAt` values unspecified. `SortNewestFirst` fixes one order, and `List` promises only newest-first and "every task".
- The version key and any other field that the mapper adds itself.
- `LowerChar`: lower-cases only ASCII `A`–`Z`. JavaScript's `toLowerCase` covers all of Unicode, and Unicode case mapping is not modelled.
- `TaskApp.FocusSummary`: compares integers where the source compares the floating-point `progressPercent`. The round-off of that division is not modelled. The message strings become the `Summary` kinds.
- Rendering, theme, `localStorage`, the clock timer, date and time formatting, and the progress bar width.
- The input handlers for the search box, filter buttons and new-task input. These just assign the `search`, `filter` and `text` fields.
- Diagnostic logging.
- Overlapping requests. Client actions are modelled as one sequential call each.
