/** The todo record and the transient application state of js/models.js. */
module Todos {

  datatype Option<T> = None | Some(value: T)

  /** Content a todo falls back to when it is built without any. */
  const DefaultContent: string := "empty todo..."

  /** Filter value the application state starts with. */
  const DefaultFilter: string := "all"

  /** A todo item. `cid` is the client-side identity every model object
      carries: the collection, `without` and `destroy` all act on that
      identity, never on a copy with equal attributes. */
  datatype Todo = Todo(cid: nat, content: string, order: int, done: bool)

  /** The attributes a todo is constructed from; `None` is an attribute that
      was not supplied. */
  datatype Attrs = Attrs(content: Option<string>, order: int, done: Option<bool>)

  /** Building a todo: the defaults fill in missing attributes, then
      `initialize` replaces falsy content (missing or empty) by the default. */
  function NewTodo(cid: nat, a: Attrs): (t: Todo)
    ensures t.cid == cid && t.order == a.order
    ensures t.content != []
    ensures a.content.Some? && a.content.value != [] ==> t.content == a.content.value
    ensures a.content.None? || a.content.value == [] ==> t.content == DefaultContent
    ensures t.done <==> a.done == Some(true)
  {
    var merged := if a.content.Some? then a.content.value else DefaultContent;
    var content := if merged == [] then DefaultContent else merged;
    Todo(cid, content, a.order, if a.done.Some? then a.done.value else false)
  }

  /** A todo loaded from the server: the object is constructed first, with
      the defaults, and the stored fields are merged in afterwards, so a
      stored field is kept exactly as stored (an empty content included) and
      only a missing one keeps its default. */
  function Fetched(cid: nat, a: Attrs): (t: Todo)
    ensures t.cid == cid && t.order == a.order
    ensures a.content.Some? ==> t.content == a.content.value
    ensures a.content.None? ==> t.content == DefaultContent
    ensures t.done <==> a.done == Some(true)
  {
    Todo(cid, if a.content.Some? then a.content.value else DefaultContent,
         a.order, if a.done.Some? then a.done.value else false)
  }

  /** A fetched todo differs from one built from the same attributes only
      when the stored content is empty: loading keeps it empty, while building
      replaces it by the default. */
  lemma FetchedVersusNew(cid: nat, a: Attrs)
    ensures a.content != Some([]) ==> Fetched(cid, a) == NewTodo(cid, a)
    ensures a.content == Some([]) ==>
      Fetched(cid, a).content == [] && NewTodo(cid, a).content == DefaultContent
  {
  }

  /** `toggle`: the done flag flips, nothing else about the todo changes. */
  function Toggle(t: Todo): (r: Todo)
    ensures r.done == !t.done
    ensures r.cid == t.cid && r.content == t.content && r.order == t.order
  {
    t.(done := !t.done)
  }

  /** Toggling twice gives back the todo unchanged. */
  lemma ToggleInvolutive(t: Todo)
    ensures Toggle(Toggle(t)) == t
  {
  }

  /** The application state: which filter the list is showing. */
  datatype AppState = AppState(filter: string)

  /** Building the application state: a filter that is not supplied takes the
      default; a supplied one is kept as given. */
  function NewAppState(filter: Option<string>): (s: AppState)
    ensures filter.None? ==> s.filter == DefaultFilter
    ensures filter.Some? ==> s.filter == filter.value
  {
    AppState(if filter.Some? then filter.value else DefaultFilter)
  }
}
