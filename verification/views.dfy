/** The list-management logic of js/views.js with the DOM and the network
    stripped away: the item view's actions on one todo, and the main view's
    actions, visible-set rule and statistics line. Saves and destroys take
    effect on the local collection at once. */
module Views {
  import opened Seqs
  import opened Todos
  import opened TodoList

  /** Key code of the Enter key. */
  const EnterKey: int := 13

  /** The main view: the collection, the text of the new-todo input, the
      identities of the rows shown in the list element (in display order), and
      the client identity the next model object will receive. */
  datatype View = View(todos: seq<Todo>, input: string, listed: seq<nat>, nextCid: nat)

  /** What every action keeps: the collection is in comparator order, holds
      each model object once, holds no identity not yet handed out, and every
      row shown belongs to a todo in the collection. */
  ghost predicate Valid(v: View) {
    && Sorted(v.todos)
    && UniqueCids(v.todos)
    && (forall t :: t in v.todos ==> t.cid < v.nextCid)
    && (forall c :: c in v.listed ==> c in Cids(v.todos))
  }

  /** The line of statistics and the state of the "mark all" checkbox. */
  datatype Stats = Stats(total: nat, done: nat, remaining: nat, allChecked: bool)

  // ---------------------------------------------------------------------
  // Rows of the list element

  /** `addOne`: appends the row of `t` to the list. */
  function AddOne(v: View, t: Todo): View {
    v.(listed := v.listed + [t.cid])
  }

  /** `addAll`: empties the list, then shows a row for every todo. */
  function AddAll(v: View): View {
    v.(listed := Cids(v.todos))
  }

  /** `addSome`: empties the list, then shows the rows of the todos `keep` selects. */
  function AddSome(v: View, keep: Todo -> bool): View {
    v.(listed := Cids(Filter(v.todos, keep)))
  }

  lemma ListedSelection(v: View, keep: Todo -> bool)
    ensures Valid(v) ==> Valid(AddSome(v, keep))
  {
    forall c | c in Cids(Filter(v.todos, keep))
      ensures c in Cids(v.todos)
    {
      var t :| t in Filter(v.todos, keep) && t.cid == c;
    }
  }

  /** `filter`: re-renders the list from the filter value. "all" shows every
      todo, "completed" exactly `done()`, and any other value exactly
      `remaining()`; the collection itself is only read. */
  function ApplyFilter(v: View, state: AppState): (r: View)
    ensures r.todos == v.todos && r.input == v.input && r.nextCid == v.nextCid
    ensures state.filter == "all" ==> r.listed == Cids(v.todos)
    ensures state.filter == "completed" ==> r.listed == Cids(Done(v.todos))
    ensures state.filter != "all" && state.filter != "completed" ==>
      r.listed == Cids(Remaining(v.todos))
    ensures Valid(v) ==> Valid(r)
  {
    RemainingIsNotDone(v.todos);
    ListedSelection(v, IsDone);
    ListedSelection(v, IsNotDone);
    if state.filter == "all" then AddAll(v)
    else if state.filter == "completed" then AddSome(v, IsDone)
    else AddSome(v, IsNotDone)
  }

  /** `resetFilters`: shows every todo again. The filter value in the
      application state is not touched. */
  function ResetFilters(v: View): (r: View)
    ensures r.listed == Cids(v.todos)
    ensures r.todos == v.todos && r.input == v.input && r.nextCid == v.nextCid
    ensures Valid(v) ==> Valid(r)
  {
    AddAll(v)
  }

  /** Resetting the filters renders the list exactly as the filter rule does
      for the application state's default value, "all". */
  lemma ResetFiltersIsAllFilter(v: View)
    ensures ResetFilters(v) == ApplyFilter(v, NewAppState(None))
  {
    assert NewAppState(None).filter == "all";
  }

  /** `selectFilter`: stores the chosen value in the application state. The
      state announces a change only when the value differs from the stored
      one, and only then is the list re-rendered by `filter`. */
  function SelectFilter(v: View, state: AppState, value: string): (r: (View, AppState))
    ensures r.1.filter == value
    ensures r.0.todos == v.todos
    ensures value != state.filter ==> r.0 == ApplyFilter(v, r.1)
    ensures value == state.filter ==> r.0 == v
    ensures Valid(v) ==> Valid(r.0)
  {
    var state' := state.(filter := value);
    if value != state.filter then (ApplyFilter(v, state'), state') else (v, state')
  }

  // ---------------------------------------------------------------------
  // Loading the collection

  /** The model objects loaded from stored records, with consecutive identities. */
  function Build(firstCid: nat, records: seq<Attrs>): (r: seq<Todo>)
    ensures |r| == |records|
    ensures forall i :: 0 <= i < |r| ==> r[i].cid == firstCid + i
    ensures forall i :: 0 <= i < |r| ==> r[i] == Fetched(firstCid + i, records[i])
  {
    seq(|records|, i requires 0 <= i < |records| => Fetched(firstCid + i, records[i]))
  }

  /** The fetch at start-up: the records replace the collection in comparator
      order, and the `reset` event re-renders every row (whatever the filter). */
  function Reset(v: View, records: seq<Attrs>): (r: View)
    ensures Valid(r)
    ensures multiset(r.todos) == multiset(Build(v.nextCid, records))
    ensures |r.todos| == |records|
    ensures r.listed == Cids(r.todos)
    ensures r.nextCid == v.nextCid + |records|
    ensures r.input == v.input
  {
    LoadedCollection(v.nextCid, records);
    AddAll(View(SortByOrder(Build(v.nextCid, records)), v.input, [], v.nextCid + |records|))
  }

  /** Every stored record is loaded with its stored fields: in particular a
      todo saved with an empty text comes back with an empty text. */
  lemma ResetKeepsStoredRecord(v: View, records: seq<Attrs>, i: nat)
    requires i < |records|
    ensures Fetched(v.nextCid + i, records[i]) in Reset(v, records).todos
    ensures records[i].content == Some([]) ==>
      exists t :: t in Reset(v, records).todos && t.cid == v.nextCid + i && t.content == []
  {
    LoadedCollection(v.nextCid, records);
    var t := Fetched(v.nextCid + i, records[i]);
    assert t in Reset(v, records).todos;
  }

  /** The loaded collection, sorted by the comparator, is a sorted permutation
      of the loaded records with unique, fresh identities. */
  lemma LoadedCollection(firstCid: nat, records: seq<Attrs>)
    ensures Sorted(SortByOrder(Build(firstCid, records)))
    ensures UniqueCids(SortByOrder(Build(firstCid, records)))
    ensures multiset(SortByOrder(Build(firstCid, records))) == multiset(Build(firstCid, records))
    ensures |SortByOrder(Build(firstCid, records))| == |records|
    ensures forall t :: t in SortByOrder(Build(firstCid, records)) ==> t.cid < firstCid + |records|
    ensures forall i :: 0 <= i < |records| ==>
      Fetched(firstCid + i, records[i]) in SortByOrder(Build(firstCid, records))
  {
    var built := Build(firstCid, records);
    BuildInvariants(firstCid, records);
    var todos := SortByOrder(built);
    PermutationHoldsAll(built, todos);
    LoadedHoldsRecords(firstCid, records, todos);
  }

  lemma PermutationHoldsAll(built: seq<Todo>, todos: seq<Todo>)
    requires multiset(todos) == multiset(built)
    ensures |todos| == |built|
    ensures forall t :: t in todos ==> t in built
  {
    assert |todos| == |multiset(todos)| == |built|;
    forall t | t in todos ensures t in built {
      assert t in multiset(todos);
    }
  }

  lemma LoadedHoldsRecords(firstCid: nat, records: seq<Attrs>, todos: seq<Todo>)
    requires multiset(todos) == multiset(Build(firstCid, records))
    ensures forall i :: 0 <= i < |records| ==> Fetched(firstCid + i, records[i]) in todos
  {
    var built := Build(firstCid, records);
    forall i | 0 <= i < |records| ensures Fetched(firstCid + i, records[i]) in todos {
      assert built[i] == Fetched(firstCid + i, records[i]);
      assert built[i] in multiset(built);
    }
  }

  lemma BuildInvariants(firstCid: nat, records: seq<Attrs>)
    ensures UniqueCids(Build(firstCid, records))
    ensures forall t :: t in Build(firstCid, records) ==> t.cid < firstCid + |records|
  {
  }

  // ---------------------------------------------------------------------
  // Main view actions

  /** The todo the Enter key creates: the input as content, the next order
      number, not done. */
  function NewItem(v: View): Todo {
    NewTodo(v.nextCid, Attrs(Some(v.input), NextOrder(v.todos), Some(false)))
  }

  /** `createOnEnter`: on any key but Enter nothing happens. On Enter one todo
      is created with the input as content (the default content when the input
      is empty), order `nextOrder()` and done false; it lands at the end of the
      sorted collection. The input is cleared and every row is shown again. */
  function CreateOnEnter(v: View, keyCode: int): (r: View)
    ensures keyCode != EnterKey ==> r == v
    ensures keyCode == EnterKey ==>
      && r.input == []
      && r.listed == Cids(r.todos)
      && r.nextCid == v.nextCid + 1
      && Sorted(r.todos)
      && multiset(r.todos) == multiset(v.todos) + multiset{NewItem(v)}
    ensures keyCode == EnterKey && Sorted(v.todos) ==>
      && |r.todos| == |v.todos| + 1
      && r.todos[..|v.todos|] == v.todos
      && r.todos[|v.todos|].cid == v.nextCid
      && r.todos[|v.todos|].order == NextOrder(v.todos)
      && !r.todos[|v.todos|].done
      && r.todos[|v.todos|].content == (if v.input == [] then DefaultContent else v.input)
    ensures keyCode == EnterKey && StrictlySorted(v.todos) ==> StrictlySorted(r.todos)
    ensures Valid(v) ==> Valid(r)
  {
    if keyCode != EnterKey then v
    else
      var t := NewItem(v);
      CreateAppends(v);
      var added := AddOne(v.(todos := Add(v.todos, t), nextCid := v.nextCid + 1), t);
      ResetFilters(added.(input := []))
  }

  lemma CreateAppends(v: View)
    ensures Sorted(v.todos) ==> Add(v.todos, NewItem(v)) == v.todos + [NewItem(v)]
    ensures StrictlySorted(v.todos) ==> StrictlySorted(v.todos + [NewItem(v)]) && Sorted(v.todos)
    ensures Valid(v) ==> UniqueCids(Add(v.todos, NewItem(v)))
    ensures Valid(v) ==> forall t :: t in Add(v.todos, NewItem(v)) ==> t.cid < v.nextCid + 1
  {
    if StrictlySorted(v.todos) {
      CreateKeepsStrict(v);
    }
    if Sorted(v.todos) {
      NextOrderExceeds(v.todos);
    }
    if Valid(v) {
      CreateKeepsIdentities(v);
    }
  }

  lemma CreateKeepsStrict(v: View)
    requires StrictlySorted(v.todos)
    ensures Sorted(v.todos) && StrictlySorted(v.todos + [NewItem(v)])
  {
    assert Sorted(v.todos) by {
      forall i, j | 0 <= i < j < |v.todos| ensures OrderLe(v.todos[i], v.todos[j]) {
        assert OrderLt(v.todos[i], v.todos[j]);
      }
    }
    NextOrderExceeds(v.todos);
    assert forall i :: 0 <= i < |v.todos| ==> v.todos[i] in v.todos;
    PairwiseSnoc(v.todos, NewItem(v), OrderLt);
  }

  lemma CreateKeepsIdentities(v: View)
    requires Valid(v)
    ensures UniqueCids(Add(v.todos, NewItem(v)))
    ensures forall t :: t in Add(v.todos, NewItem(v)) ==> t.cid < v.nextCid + 1
  {
    var t := NewItem(v);
    assert forall u :: u in v.todos ==> u.cid != t.cid;
    var r := Add(v.todos, t);
    forall u | u in r ensures u.cid < v.nextCid + 1 {
      assert u in multiset(r);
    }
  }

  /** `clearCompleted`: destroys each todo of one `done()` snapshot taken at
      the start. Exactly those todos and their rows disappear; with each model
      object held once, what is left is `remaining()`. */
  method ClearCompleted(v: View) returns (r: View)
    ensures r.todos == Filter(v.todos, CidNotAmong(Cids(Done(v.todos))))
    ensures UniqueCids(v.todos) ==> r.todos == Remaining(v.todos)
    ensures r.listed == Filter(v.listed, NotAmong(Cids(Done(v.todos))))
    ensures r.input == v.input && r.nextCid == v.nextCid
    ensures Valid(v) ==> Valid(r)
  {
    var snapshot := Done(v.todos);
    r := v;
    FilterKeepsAll(v.todos, CidNotAmong([]));
    FilterKeepsAll(v.listed, NotAmong([]));
    assert Cids(snapshot[..0]) == [];
    var i := 0;
    while i < |snapshot|
      invariant 0 <= i <= |snapshot|
      invariant r.todos == Filter(v.todos, CidNotAmong(Cids(snapshot[..i])))
      invariant r.listed == Filter(v.listed, NotAmong(Cids(snapshot[..i])))
      invariant r.input == v.input && r.nextCid == v.nextCid
      invariant Valid(v) ==> Valid(r)
    {
      var c := snapshot[i].cid;
      ClearStep(v, snapshot, i, r);
      r := Clear(r, c);
      i := i + 1;
    }
    assert snapshot[..i] == snapshot;
    if UniqueCids(v.todos) {
      DestroyDoneLeavesRemaining(v.todos);
    }
  }

  /** Destroying the next todo of the snapshot extends the identities removed so far. */
  lemma ClearStep(v: View, snapshot: seq<Todo>, i: nat, r: View)
    requires i < |snapshot|
    requires r.todos == Filter(v.todos, CidNotAmong(Cids(snapshot[..i])))
    requires r.listed == Filter(v.listed, NotAmong(Cids(snapshot[..i])))
    ensures Clear(r, snapshot[i].cid).todos == Filter(v.todos, CidNotAmong(Cids(snapshot[..i + 1])))
    ensures Clear(r, snapshot[i].cid).listed == Filter(v.listed, NotAmong(Cids(snapshot[..i + 1])))
  {
    var cs, c := Cids(snapshot[..i]), snapshot[i].cid;
    CidsPrefixStep(snapshot, i);
    RemoveOneMoreTodo(v.todos, cs, c);
    RemoveOneMoreRow(v.listed, cs, c);
  }

  lemma RemoveOneMoreTodo(s: seq<Todo>, cs: seq<nat>, c: nat)
    ensures Filter(Filter(s, CidNotAmong(cs)), CidIsNot(c)) == Filter(s, CidNotAmong(cs + [c]))
  {
    assert forall t: Todo :: CidNotAmong(cs + [c])(t) == (CidNotAmong(cs)(t) && CidIsNot(c)(t));
    FilterFilter(s, CidNotAmong(cs), CidIsNot(c), CidNotAmong(cs + [c]));
  }

  lemma RemoveOneMoreRow(rows: seq<nat>, cs: seq<nat>, c: nat)
    ensures Filter(Filter(rows, NotAmong(cs)), IsNot(c)) == Filter(rows, NotAmong(cs + [c]))
  {
    assert forall x: nat :: NotAmong(cs + [c])(x) == (NotAmong(cs)(x) && IsNot(c)(x));
    FilterFilter(rows, NotAmong(cs), IsNot(c), NotAmong(cs + [c]));
  }

  /** `toggleAllComplete`: every todo is saved with the checkbox's value as its
      done flag; no other field and no row changes. */
  function ToggleAllComplete(v: View, checked: bool): (r: View)
    ensures |r.todos| == |v.todos|
    ensures forall i :: 0 <= i < |v.todos| ==> r.todos[i].done == checked
    ensures forall i :: 0 <= i < |v.todos| ==>
      && r.todos[i].cid == v.todos[i].cid
      && r.todos[i].content == v.todos[i].content
      && r.todos[i].order == v.todos[i].order
    ensures r.listed == v.listed && r.input == v.input && r.nextCid == v.nextCid
    ensures Valid(v) ==> Valid(r)
  {
    var todos := SetAllDone(v.todos, checked);
    SameShapeKeepsInvariants(v, todos);
    v.(todos := todos)
  }

  /** Replacing the todos by ones with the same identities and orders, position
      by position, keeps the view valid. */
  lemma SameShapeKeepsInvariants(v: View, todos: seq<Todo>)
    requires |todos| == |v.todos|
    requires forall i :: 0 <= i < |todos| ==>
      todos[i].cid == v.todos[i].cid && todos[i].order == v.todos[i].order
    ensures Cids(todos) == Cids(v.todos)
    ensures Valid(v) ==> Valid(v.(todos := todos))
  {
    if Valid(v) {
      assert Sorted(todos) by {
        forall i, j | 0 <= i < j < |todos| ensures OrderLe(todos[i], todos[j]) {
          assert OrderLe(v.todos[i], v.todos[j]);
        }
      }
      assert UniqueCids(todos) by {
        forall i, j | 0 <= i < j < |todos| ensures CidsDiffer(todos[i], todos[j]) {
          assert CidsDiffer(v.todos[i], v.todos[j]);
        }
      }
      forall t | t in todos ensures t.cid < v.nextCid {
        var k :| 0 <= k < |todos| && todos[k] == t;
        assert v.todos[k] in v.todos;
      }
    }
  }

  /** `render`: the total is the collection's length, done and remaining
      counts add up to it, and the "mark all" checkbox is checked exactly when
      every todo is done. */
  function Render(v: View): (r: Stats)
    ensures r.total == |v.todos|
    ensures r.done == |Done(v.todos)| && r.remaining == |Remaining(v.todos)|
    ensures r.done + r.remaining == r.total
    ensures r.allChecked <==> r.remaining == 0
    ensures r.done == 0 <==> forall t :: t in v.todos ==> !t.done
    ensures r.allChecked <==> forall t :: t in v.todos ==> t.done
  {
    DoneRemainingPartition(v.todos);
    var done := |Done(v.todos)|;
    var remaining := |Remaining(v.todos)|;
    assert done == 0 <==> forall t :: t in v.todos ==> !t.done by {
      if done != 0 { assert Done(v.todos)[0] in Done(v.todos); }
    }
    assert remaining == 0 <==> forall t :: t in v.todos ==> t.done by {
      if remaining != 0 { assert Remaining(v.todos)[0] in Remaining(v.todos); }
    }
    Stats(|v.todos|, done, remaining, remaining == 0)
  }

  /** After "mark all" the statistics agree with the checkbox: all todos done
      when it was checked, none when it was cleared. */
  lemma ToggleAllThenRender(v: View, checked: bool)
    ensures Render(ToggleAllComplete(v, checked)).done == (if checked then |v.todos| else 0)
    ensures Render(ToggleAllComplete(v, checked)).allChecked <==> checked || v.todos == []
  {
    var todos := ToggleAllComplete(v, checked).todos;
    assert forall t :: t in todos ==> t.done == checked;
    if v.todos != [] {
      assert todos[0] in todos;
    }
  }

  // ---------------------------------------------------------------------
  // Item view actions

  /** `toggleDone`: the todo with identity `c` is toggled and saved; every other
      todo is unchanged. A todo no longer in the collection changes nothing. */
  function ToggleDone(v: View, c: nat): (r: View)
    ensures |r.todos| == |v.todos|
    ensures forall i :: 0 <= i < |v.todos| && v.todos[i].cid == c ==> r.todos[i] == Toggle(v.todos[i])
    ensures forall i :: 0 <= i < |v.todos| && v.todos[i].cid != c ==> r.todos[i] == v.todos[i]
    ensures c !in Cids(v.todos) ==> r == v
    ensures r.listed == v.listed && r.input == v.input && r.nextCid == v.nextCid
    ensures Valid(v) ==> Valid(r)
  {
    var todos := UpdateCid(v.todos, c, Toggle);
    UpdateCidAbsent(v.todos, c, Toggle);
    SameShapeKeepsInvariants(v, todos);
    v.(todos := todos)
  }

  /** `close`: the todo with identity `c` is saved with the edit field's text
      as its content, exactly as typed (an empty text included); its order and
      done flag, and every other todo, are unchanged. */
  function Close(v: View, c: nat, text: string): (r: View)
    ensures |r.todos| == |v.todos|
    ensures forall i :: 0 <= i < |v.todos| && v.todos[i].cid == c ==>
      && r.todos[i].content == text
      && r.todos[i].cid == c
      && r.todos[i].order == v.todos[i].order
      && r.todos[i].done == v.todos[i].done
    ensures forall i :: 0 <= i < |v.todos| && v.todos[i].cid != c ==> r.todos[i] == v.todos[i]
    ensures c !in Cids(v.todos) ==> r == v
    ensures r.listed == v.listed && r.input == v.input && r.nextCid == v.nextCid
    ensures Valid(v) ==> Valid(r)
  {
    var todos := UpdateCid(v.todos, c, WithContent(text));
    UpdateCidAbsent(v.todos, c, WithContent(text));
    EditedContent(v.todos, c, text);
    SameShapeKeepsInvariants(v, todos);
    v.(todos := todos)
  }

  /** `updateOnEnter`: Enter in the edit field closes the edit; any other key
      leaves everything as it is. */
  function UpdateOnEnter(v: View, c: nat, keyCode: int, text: string): (r: View)
    ensures keyCode != EnterKey ==> r == v
    ensures keyCode == EnterKey ==> r == Close(v, c, text)
  {
    if keyCode == EnterKey then Close(v, c, text) else v
  }

  /** `clear`: the todo with identity `c` is destroyed, so it leaves the
      collection and its row leaves the list; nothing else changes. */
  function Clear(v: View, c: nat): (r: View)
    ensures forall t :: t in r.todos <==> t in v.todos && t.cid != c
    ensures forall x :: x in r.listed <==> x in v.listed && x != c
    ensures c !in Cids(v.todos) ==> r.todos == v.todos
    ensures r.input == v.input && r.nextCid == v.nextCid
    ensures Valid(v) ==> Valid(r)
  {
    ClearKeepsListed(v, c);
    v.(todos := RemoveCid(v.todos, c), listed := Filter(v.listed, IsNot(c)))
  }

  /** `clear` splices out just the destroyed todo (identities being unique) and
      its row (when it is shown once): every other todo and row keeps its
      place in order. An identity that is not shown leaves the list as it is. */
  lemma ClearSplices(v: View, c: nat)
    ensures UniqueCids(v.todos) ==> forall i :: 0 <= i < |v.todos| && v.todos[i].cid == c ==>
      Clear(v, c).todos == v.todos[..i] + v.todos[i + 1..]
    ensures forall i :: 0 <= i < |v.listed| && v.listed[i] == c && c !in v.listed[..i] + v.listed[i + 1..] ==>
      Clear(v, c).listed == v.listed[..i] + v.listed[i + 1..]
    ensures c !in v.listed ==> Clear(v, c).listed == v.listed
  {
    if UniqueCids(v.todos) {
      forall i | 0 <= i < |v.todos| && v.todos[i].cid == c
        ensures RemoveCid(v.todos, c) == v.todos[..i] + v.todos[i + 1..]
      {
        RemoveCidAt(v.todos, i);
      }
    }
    forall i | 0 <= i < |v.listed| && v.listed[i] == c && c !in v.listed[..i] + v.listed[i + 1..]
      ensures Filter(v.listed, IsNot(c)) == v.listed[..i] + v.listed[i + 1..]
    {
      forall j | 0 <= j < |v.listed| && j != i
        ensures IsNot(c)(v.listed[j])
      {
        if j < i {
          assert v.listed[j] == (v.listed[..i] + v.listed[i + 1..])[j];
        } else {
          assert v.listed[j] == (v.listed[..i] + v.listed[i + 1..])[j - 1];
        }
      }
      FilterDropsOne(v.listed, IsNot(c), i);
    }
    if c !in v.listed {
      FilterKeepsAll(v.listed, IsNot(c));
    }
  }

  lemma ClearKeepsListed(v: View, c: nat)
    ensures forall x :: x in Filter(v.listed, IsNot(c)) && x in Cids(v.todos) ==>
      x in Cids(RemoveCid(v.todos, c))
  {
    forall x | x in Filter(v.listed, IsNot(c)) && x in Cids(v.todos)
      ensures x in Cids(RemoveCid(v.todos, c))
    {
      var t :| t in v.todos && t.cid == x;
      assert t in RemoveCid(v.todos, c);
    }
  }
}
