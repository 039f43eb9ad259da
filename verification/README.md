# Parse todo list: a Dafny model of its list logic

This project models the local, synchronous logic of a Backbone/Parse todo
application. The model has three parts:

- the `Todo` record and the `TodoList` collection of `js/models.js`: defaults
  and `initialize`, `toggle`, the derived `done()` and `remaining()` lists,
  `nextOrder()`, and the comparator that keeps the collection in ascending
  `order`;
- the transient application state, whose filter value defaults to `"all"`;
- the list-management actions of the two views in `js/views.js`:
  - the item view's `toggleDone`, `close`, `updateOnEnter` and `clear`;
  - the main view's `createOnEnter`, `clearCompleted`, `toggleAllComplete`,
    `selectFilter`, `filter`, `resetFilters`, `addOne`/`addAll`/`addSome`,
    the statistics computed by `render`, and the start-up fetch that resets
    the collection.

The collection is a sequence of immutable `Todo` records. Each record carries
its client identity (`cid`), because Backbone's `without`, `remove` and
`destroy` act on model objects, not on attribute values. The main view is a
`View` record that holds four things:

- the collection;
- the text of the new-todo input;
- the identities of the rows shown in the list element, in display order;
- the counter that hands out client identities.

Every action is a pure function from one `View` to the next. Parse's `save`,
`create` and `destroy` are taken to take effect on the local collection at
once. `Views.Valid` is the invariant every action keeps:

- the collection is sorted by `order`;
- no model object appears in it twice;
- no identity in it has yet to be handed out;
- every row shown belongs to a todo in the collection.

The model follows the code in these behaviours:

- Filter values are not validated. Any value other than `"all"` and
  `"completed"` shows the unfinished todos.
- An edit is saved as typed. An empty text is not ignored.
- Nothing is rolled back when a save or create fails.
- The collection does not reject duplicate identifiers.
- `resetFilters` shows every row again but leaves the stored filter value as
  it was.

## Model

| member | source | states |
|---|---|---|
| Todos.NewTodo | js/models.js:13-26 | A todo built with missing or empty content gets "empty todo...", non-empty content is kept unchanged, so content is never empty; done is false unless supplied as true; order and identity are as given |
| Todos.Toggle | js/models.js:28-31 | The done flag becomes its negation; content, order and identity are unchanged |
| Todos.ToggleInvolutive | js/models.js:28-31 | Toggling twice restores the todo |
| Todos.Fetched | js/models.js:13-19 | A loaded todo keeps every stored field as stored, an empty content included; only a missing field takes its default ("empty todo...", not done) |
| Todos.FetchedVersusNew | js/models.js:13-26 | A loaded todo equals one built from the same attributes, except when the stored content is empty: loading keeps it empty, building replaces it by the default |
| Todos.NewAppState | js/models.js:6-11 | The application state's filter is "all" unless a value is supplied |
| TodoList.Done | js/models.js:39-42 | A todo is in `done()` exactly when it is in the collection and done |
| TodoList.Remaining | js/models.js:44-47 | A todo is in `remaining()` exactly when it is in the collection and not done |
| TodoList.RemainingIsNotDone | js/models.js:44-47 | The collection `without` its `done()` list is exactly the in-order selection of unfinished todos, the list the "active" filter shows |
| TodoList.DoneRemainingPartition | js/models.js:39-47 | `done()` and `remaining()` are disjoint, together hold every member, and their lengths add up to the collection's length |
| TodoList.DerivedListsKeepOrder | js/models.js:39-47 | Both derived lists keep collection order: each distributes over concatenation |
| TodoList.NextOrderExceeds | js/models.js:49-54 | `nextOrder()` is 1 on an empty collection and, on a sorted one, strictly greater than every member's order |
| TodoList.InsertSorted | js/models.js:56-59 | Placing a todo into a sorted collection yields a sorted collection holding the old members plus that todo, without introducing a repeated identity |
| TodoList.SortByOrder | js/models.js:56-59 | Sorting by the comparator gives an ascending permutation of its input and keeps identities unique |
| TodoList.SortKeepsSorted | js/models.js:56-59 | Sorting an already sorted collection leaves it unchanged |
| TodoList.Add | js/models.js:56-59 | `add` leaves the collection sorted and holding exactly one more member; a todo whose order is at least every member's lands at the end |
| TodoList.RemoveCid | js/views.js:66-69 | Destroying a model removes exactly the todos with its identity, changes nothing when no todo has that identity, and keeps sortedness and unique identities |
| TodoList.RemoveCidAt | js/views.js:66-69 | With unique identities, destroying the model at one position splices out exactly that todo; the todos before and after it keep their order |
| TodoList.DestroyDoneLeavesRemaining | js/views.js:212-216 | Removing every identity of a `done()` snapshot leaves exactly `remaining()`, in order |
| Views.ApplyFilter | js/views.js:155-193 | Filter "all" shows every todo, "completed" exactly `done()`, any other value exactly `remaining()`, in collection order; the collection is not changed and the view stays valid |
| Views.ResetFilters | js/views.js:168-173 | Every todo is shown again, the collection is untouched and the view stays valid |
| Views.ResetFiltersIsAllFilter | js/views.js:168-173 | Resetting the filters renders the same list as the filter rule for the default filter value "all" |
| Views.SelectFilter | js/views.js:147-153 | The stored filter becomes the chosen value; the list is re-rendered by the filter rule only when the value changed; the view stays valid |
| Views.Reset | js/views.js:105-117 | The fetched records, each loaded with its stored fields, replace the collection as a sorted permutation with fresh identities; every row is shown and the view is valid |
| Views.ResetKeepsStoredRecord | js/views.js:105-117 | Every stored record is in the loaded collection with its stored fields; a todo saved with an empty text comes back with an empty text |
| Views.CreateOnEnter | js/views.js:195-210 | Any key but 13 changes nothing; Enter adds exactly one todo (the input as content, or "empty todo..." when the input is empty; order `nextOrder()`; not done) at the end of a sorted collection, keeps strict ordering, clears the input, shows every row and keeps the view valid |
| Views.ClearCompleted | js/views.js:212-216 | Exactly the todos of the `done()` snapshot and their rows are removed; what remains is `remaining()`; the view stays valid |
| Views.ToggleAllComplete | js/views.js:218-221 | Every todo gets the checkbox value as its done flag, with identity, content and order unchanged and the view still valid |
| Views.Render | js/views.js:130-145 | Total is the collection's length, done is the length of `done()` and remaining the length of `remaining()`, and they add up to the total; done is 0 exactly when nothing is done; the all-checkbox is checked exactly when the remaining count is 0, that is, when every todo is done |
| Views.ToggleAllThenRender | js/views.js:130-145 | After toggle-all the statistics agree with the checkbox: all done when it was checked, none when it was cleared |
| Views.ToggleDone | js/views.js:44-47 | Only the todo with the given identity is toggled; an identity no longer in the collection changes nothing; the view stays valid |
| Views.Close | js/views.js:55-59 | The edited todo's content becomes the text exactly as typed, with no blank check; its order and done flag, and every other todo, are unchanged |
| Views.UpdateOnEnter | js/views.js:61-64 | The edit is closed on key code 13 and on no other key |
| Views.Clear | js/views.js:66-69 | The destroyed todo leaves the collection and its row leaves the list; an identity no todo has leaves the collection unchanged; the view stays valid |
| Views.ClearSplices | js/views.js:66-69 | `clear` splices out exactly the destroyed todo (identities unique) and its row (when shown once); every other todo and row keeps its place in order; an identity not shown leaves the list unchanged |

## Left out

- DOM and templating: jQuery element manipulation, `_.template` rendering, CSS classes, event tables, `delegateEvents` and `edit` (which only adds a CSS class and focuses the field). The list element is modelled only as the sequence of row identities.
- Parse persistence: `fetch`, `save`, `create` and `destroy` are asynchronous calls into the Parse SDK, which is not part of this model. Only their local effect on the collection is modelled, and it is applied at once. The query by user and the ACL are not modelled.
- `logOut`: session handling and page navigation.
- js/application.js (SDK initialisation) and js/router.js (URL routing that sets the filter value) are not part of this model. The router declares its `state` with `var`, local to its `initialize`, while the views use a global `state`. That wiring is outside this model.
- Client identities come from Backbone's process-wide counter, which also advances for every view built. The model hands out fresh identities from its own counter, `View.nextCid`; only their freshness matters.
- `order` is a JavaScript number. It is modelled as an unbounded integer, and a todo without an order (which would make `nextOrder()` NaN) is not modelled.
- Views.Reset: a loaded todo keeps its stored content, even an empty one. This assumes Parse constructs a fetched object, with the defaults and `initialize`, before merging in the stored fields. The Parse SDK is not part of this model.
- Falsy content other than a missing or empty string (`null`, `0`, `false`) is modelled as missing.
- Key codes are plain integers. Event objects are not modelled.
- TodoList.SortByOrder: the order of todos with equal `order` is not stated, as the comparator leaves it unspecified.
- Views.ClearCompleted: the result equals `remaining()` only when no model object appears twice. Backbone guarantees this, and `Views.Valid` includes it.
- TodoList.DoneRemainingPartition: states disjointness, membership and lengths, not multiset equality.
- Row order after toggles: a row re-renders in place when its todo changes. Rows are not re-filtered until the next `filter` or `resetFilters`. The model therefore leaves `listed` unchanged on toggle and edit.
