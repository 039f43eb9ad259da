/** The TodoList collection of js/models.js: todos kept in ascending `order`
    by the comparator, with the derived `done()` and `remaining()` lists and
    the order number for the next insertion. */
module TodoList {
  import opened Seqs
  import opened Todos

  predicate OrderLe(a: Todo, b: Todo) { a.order <= b.order }
  predicate OrderLt(a: Todo, b: Todo) { a.order < b.order }
  predicate CidsDiffer(a: Todo, b: Todo) { a.cid != b.cid }
  predicate IsDone(t: Todo) { t.done }
  predicate IsNotDone(t: Todo) { !t.done }

  /** The comparator's promise: iteration is in ascending `order`; todos with
      equal order may come in either order. */
  ghost predicate Sorted(s: seq<Todo>) { Pairwise(s, OrderLe) }

  /** Ascending with no two todos sharing an order number. */
  ghost predicate StrictlySorted(s: seq<Todo>) { Pairwise(s, OrderLt) }

  /** No model object appears twice in the collection. */
  ghost predicate UniqueCids(s: seq<Todo>) { Pairwise(s, CidsDiffer) }

  /** The identities of the todos, in collection order. */
  function Cids(s: seq<Todo>): (r: seq<nat>)
    ensures |r| == |s|
    ensures forall i :: 0 <= i < |s| ==> r[i] == s[i].cid
    ensures forall t :: t in s ==> t.cid in r
    ensures forall c :: c in r ==> exists t :: t in s && t.cid == c
  {
    if s == [] then [] else [s[0].cid] + Cids(s[1..])
  }

  lemma CidsSnoc(s: seq<Todo>, t: Todo)
    ensures Cids(s + [t]) == Cids(s) + [t.cid]
  {
    var a, b := Cids(s + [t]), Cids(s) + [t.cid];
    assert |a| == |b|;
    forall i | 0 <= i < |a| ensures a[i] == b[i] {
      if i < |s| {
        assert (s + [t])[i] == s[i];
      }
    }
  }

  lemma CidsPrefixStep(s: seq<Todo>, i: nat)
    requires i < |s|
    ensures Cids(s[..i + 1]) == Cids(s[..i]) + [s[i].cid]
  {
    assert s[..i + 1] == s[..i] + [s[i]];
    CidsSnoc(s[..i], s[i]);
  }

  /** In a collection without repeated identities, an identity names one todo. */
  lemma SameCidSameTodo(s: seq<Todo>, a: Todo, b: Todo)
    requires UniqueCids(s)
    requires a in s && b in s && a.cid == b.cid
    ensures a == b
  {
    var i :| 0 <= i < |s| && s[i] == a;
    var j :| 0 <= j < |s| && s[j] == b;
  }

  /** `done()`: the finished todos, in collection order. */
  function Done(s: seq<Todo>): (r: seq<Todo>)
    ensures forall t :: t in r <==> t in s && t.done
    ensures |r| <= |s|
  {
    Filter(s, IsDone)
  }

  /** `NotAmong`, specialised to todos. */
  function NotIn(xs: seq<Todo>): Todo -> bool {
    (t: Todo) => t !in xs
  }

  /** `without`: the collection with every member of `xs` removed. */
  function Without(s: seq<Todo>, xs: seq<Todo>): (r: seq<Todo>)
    ensures forall t :: t in r <==> t in s && t !in xs
    ensures |r| <= |s|
  {
    Filter(s, NotIn(xs))
  }

  /** `remaining()`: the collection without the `done()` todos. */
  function Remaining(s: seq<Todo>): (r: seq<Todo>)
    ensures forall t :: t in r <==> t in s && !t.done
  {
    Without(s, Done(s))
  }

  /** `remaining()` is exactly the order-preserving selection of the
      unfinished todos, the same list the "active" filter selects. */
  lemma RemainingIsNotDone(s: seq<Todo>)
    ensures Remaining(s) == Filter(s, IsNotDone)
  {
    FilterCongruent(s, NotIn(Done(s)), IsNotDone);
  }

  /** `done()` and `remaining()` partition the collection: disjoint, together
      every member, counts adding up to the collection's length. */
  lemma DoneRemainingPartition(s: seq<Todo>)
    ensures |Done(s)| + |Remaining(s)| == |s|
    ensures forall t :: t in Done(s) ==> t !in Remaining(s)
    ensures forall t :: t in s <==> t in Done(s) || t in Remaining(s)
  {
    RemainingIsNotDone(s);
    FilterSplit(s, IsDone, IsNotDone);
  }

  /** Both derived lists keep collection order: they distribute over
      concatenation. */
  lemma DerivedListsKeepOrder(a: seq<Todo>, b: seq<Todo>)
    ensures Done(a + b) == Done(a) + Done(b)
    ensures Remaining(a + b) == Remaining(a) + Remaining(b)
  {
    FilterAppend(a, b, IsDone);
    RemainingIsNotDone(a + b);
    RemainingIsNotDone(a);
    RemainingIsNotDone(b);
    FilterAppend(a, b, IsNotDone);
  }

  /** `nextOrder()`: 1 for an empty collection, else one past the last todo's order. */
  function NextOrder(s: seq<Todo>): int {
    if |s| == 0 then 1 else s[|s| - 1].order + 1
  }

  /** On a sorted collection the next order exceeds every member's order, and
      on an empty one it is 1. */
  lemma NextOrderExceeds(s: seq<Todo>)
    requires Sorted(s)
    ensures s == [] ==> NextOrder(s) == 1
    ensures forall t :: t in s ==> t.order < NextOrder(s)
  {
    forall t | t in s
      ensures t.order < NextOrder(s)
    {
      var k :| 0 <= k < |s| && s[k] == t;
      if k < |s| - 1 {
        assert OrderLe(s[k], s[|s| - 1]);
      }
    }
  }

  /** Where the comparator puts a todo added to a sorted collection: after
      every member whose order does not exceed its own. */
  function InsertSorted(s: seq<Todo>, t: Todo): (r: seq<Todo>)
    requires Sorted(s)
    ensures Sorted(r)
    ensures multiset(r) == multiset(s) + multiset{t}
    ensures UniqueCids(s) && (forall u :: u in s ==> u.cid != t.cid) ==> UniqueCids(r)
    decreases |s|
  {
    if s == [] || OrderLe(s[|s| - 1], t) then
      InsertAtEnd(s, t);
      s + [t]
    else
      var init := s[..|s| - 1];
      assert s == init + [s[|s| - 1]];
      assert Sorted(init);
      var r := InsertSorted(init, t);
      InsertBeforeLast(s, t, r);
      r + [s[|s| - 1]]
  }

  lemma InsertAtEnd(s: seq<Todo>, t: Todo)
    requires Sorted(s)
    requires s == [] || OrderLe(s[|s| - 1], t)
    ensures Sorted(s + [t])
    ensures UniqueCids(s) && (forall u :: u in s ==> u.cid != t.cid) ==> UniqueCids(s + [t])
  {
    forall i | 0 <= i < |s|
      ensures OrderLe(s[i], t)
    {
      if i < |s| - 1 {
        assert OrderLe(s[i], s[|s| - 1]);
      }
    }
    PairwiseSnoc(s, t, OrderLe);
    if UniqueCids(s) && (forall u :: u in s ==> u.cid != t.cid) {
      assert forall i :: 0 <= i < |s| ==> s[i] in s;
      PairwiseSnoc(s, t, CidsDiffer);
    }
  }

  lemma InsertBeforeLast(s: seq<Todo>, t: Todo, r: seq<Todo>)
    requires Sorted(s) && s != [] && !OrderLe(s[|s| - 1], t)
    requires Sorted(r) && multiset(r) == multiset(s[..|s| - 1]) + multiset{t}
    requires UniqueCids(s[..|s| - 1]) && (forall u :: u in s[..|s| - 1] ==> u.cid != t.cid) ==> UniqueCids(r)
    ensures Sorted(r + [s[|s| - 1]])
    ensures multiset(r + [s[|s| - 1]]) == multiset(s) + multiset{t}
    ensures UniqueCids(s) && (forall u :: u in s ==> u.cid != t.cid) ==> UniqueCids(r + [s[|s| - 1]])
  {
    var init, last := s[..|s| - 1], s[|s| - 1];
    assert s == init + [last];
    InsertedFrom(init, t, r);
    forall i | 0 <= i < |r| ensures OrderLe(r[i], last) {
      assert r[i] in r;
      if r[i] != t {
        var k :| 0 <= k < |init| && init[k] == r[i];
        assert s[k] == r[i];
        assert OrderLe(s[k], last);
      }
    }
    PairwiseSnoc(r, last, OrderLe);
    if UniqueCids(s) && (forall u :: u in s ==> u.cid != t.cid) {
      LastDistinctFromInserted(s, t, r);
    }
  }

  lemma InsertedFrom(init: seq<Todo>, t: Todo, r: seq<Todo>)
    requires multiset(r) == multiset(init) + multiset{t}
    ensures forall u :: u in r ==> u in init || u == t
  {
    forall u | u in r ensures u in init || u == t {
      assert u in multiset(r);
    }
  }

  lemma LastDistinctFromInserted(s: seq<Todo>, t: Todo, r: seq<Todo>)
    requires s != [] && UniqueCids(s) && (forall u :: u in s ==> u.cid != t.cid)
    requires forall u :: u in r ==> u in s[..|s| - 1] || u == t
    requires UniqueCids(s[..|s| - 1]) && (forall u :: u in s[..|s| - 1] ==> u.cid != t.cid) ==> UniqueCids(r)
    ensures UniqueCids(r + [s[|s| - 1]])
  {
    var init, last := s[..|s| - 1], s[|s| - 1];
    assert UniqueCids(init);
    forall i | 0 <= i < |r| ensures CidsDiffer(r[i], last) {
      assert r[i] in r;
      if r[i] == t {
        assert last in s;
      } else {
        var k :| 0 <= k < |init| && init[k] == r[i];
        assert s[k] == r[i];
        assert CidsDiffer(s[k], last);
      }
    }
    PairwiseSnoc(r, last, CidsDiffer);
  }

  /** The stable sort by order that puts a freshly fetched collection in
      comparator order. */
  function SortByOrder(s: seq<Todo>): (r: seq<Todo>)
    ensures Sorted(r)
    ensures multiset(r) == multiset(s)
    ensures UniqueCids(s) ==> UniqueCids(r)
    decreases |s|
  {
    if s == [] then []
    else
      var init, last := s[..|s| - 1], s[|s| - 1];
      assert s == init + [last];
      var sorted := SortByOrder(init);
      SortStep(s, sorted);
      InsertSorted(sorted, last)
  }

  lemma SortStep(s: seq<Todo>, sorted: seq<Todo>)
    requires s != [] && multiset(sorted) == multiset(s[..|s| - 1])
    ensures UniqueCids(s) ==> UniqueCids(s[..|s| - 1]) && forall u :: u in sorted ==> u.cid != s[|s| - 1].cid
    ensures multiset(s) == multiset(sorted) + multiset{s[|s| - 1]}
  {
    var init, last := s[..|s| - 1], s[|s| - 1];
    assert s == init + [last];
    if UniqueCids(s) {
      assert UniqueCids(init);
      forall u | u in sorted ensures u.cid != last.cid {
        assert u in multiset(init);
        var k :| 0 <= k < |init| && init[k] == u;
        assert CidsDiffer(s[k], s[|s| - 1]);
      }
    }
  }

  /** Sorting a collection already in comparator order leaves it as it is. */
  lemma {:induction false} SortKeepsSorted(s: seq<Todo>)
    requires Sorted(s)
    ensures SortByOrder(s) == s
    decreases |s|
  {
    if s != [] {
      var init, last := s[..|s| - 1], s[|s| - 1];
      assert s == init + [last];
      assert Sorted(init);
      SortKeepsSorted(init);
      if init != [] {
        assert OrderLe(init[|init| - 1], last) by {
          assert s[|s| - 2] == init[|init| - 1];
        }
      }
    }
  }

  /** The collection's `add`: append the model, then sort by the comparator. */
  function Add(s: seq<Todo>, t: Todo): (r: seq<Todo>)
    ensures Sorted(r)
    ensures multiset(r) == multiset(s) + multiset{t}
    ensures Sorted(s) && (forall u :: u in s ==> u.order <= t.order) ==> r == s + [t]
    ensures UniqueCids(s) && (forall u :: u in s ==> u.cid != t.cid) ==> UniqueCids(r)
  {
    assert (s + [t])[..|s|] == s;
    assert s + [t] == (s + [t])[..|s|] + [t];
    AddProps(s, t);
    SortByOrder(s + [t])
  }

  lemma AddProps(s: seq<Todo>, t: Todo)
    ensures Sorted(s) && (forall u :: u in s ==> u.order <= t.order) ==> SortByOrder(s + [t]) == s + [t]
    ensures UniqueCids(s) && (forall u :: u in s ==> u.cid != t.cid) ==> UniqueCids(s + [t])
  {
    if Sorted(s) && (forall u :: u in s ==> u.order <= t.order) {
      AddToSortedAppends(s, t);
    }
    if UniqueCids(s) && (forall u :: u in s ==> u.cid != t.cid) {
      assert forall i :: 0 <= i < |s| ==> s[i] in s;
      PairwiseSnoc(s, t, CidsDiffer);
    }
  }

  lemma AddToSortedAppends(s: seq<Todo>, t: Todo)
    requires Sorted(s) && forall u :: u in s ==> u.order <= t.order
    ensures SortByOrder(s + [t]) == s + [t]
  {
    var st := s + [t];
    assert st[..|st| - 1] == s && st[|st| - 1] == t;
    assert SortByOrder(st) == InsertSorted(SortByOrder(s), t);
    SortKeepsSorted(s);
    if s != [] {
      assert s[|s| - 1] in s;
      assert OrderLe(s[|s| - 1], t);
    }
  }

  /** Selects the todos whose identity is not `c`: `IsNot` applied to the
      identity rather than to the whole record, since `destroy` acts on the
      model object. */
  function CidIsNot(c: nat): Todo -> bool {
    (t: Todo) => t.cid != c
  }

  /** The collection after the todo with identity `c` is destroyed. */
  function RemoveCid(s: seq<Todo>, c: nat): (r: seq<Todo>)
    ensures forall t :: t in r <==> t in s && t.cid != c
    ensures Sorted(s) ==> Sorted(r)
    ensures UniqueCids(s) ==> UniqueCids(r)
    ensures c !in Cids(s) ==> r == s
  {
    FilterKeepsInvariants(s, CidIsNot(c));
    RemoveAbsentCid(s, c);
    Filter(s, CidIsNot(c))
  }

  lemma RemoveAbsentCid(s: seq<Todo>, c: nat)
    ensures c !in Cids(s) ==> Filter(s, CidIsNot(c)) == s
  {
    if c !in Cids(s) {
      FilterKeepsAll(s, CidIsNot(c));
    }
  }

  /** Destroying the model at position `i` splices exactly that todo out: the
      todos before and after it keep their places and their order. */
  lemma RemoveCidAt(s: seq<Todo>, i: nat)
    requires UniqueCids(s) && i < |s|
    ensures RemoveCid(s, s[i].cid) == s[..i] + s[i + 1..]
  {
    forall j | 0 <= j < |s| && j != i
      ensures CidIsNot(s[i].cid)(s[j])
    {
      if j < i {
        assert CidsDiffer(s[j], s[i]);
      } else {
        assert CidsDiffer(s[i], s[j]);
      }
    }
    FilterDropsOne(s, CidIsNot(s[i].cid), i);
  }

  /** Any selection from the collection stays sorted and free of repeats. */
  lemma FilterKeepsInvariants(s: seq<Todo>, keep: Todo -> bool)
    ensures Sorted(s) ==> Sorted(Filter(s, keep))
    ensures UniqueCids(s) ==> UniqueCids(Filter(s, keep))
  {
    if Sorted(s) {
      FilterPairwise(s, keep, OrderLe);
    }
    if UniqueCids(s) {
      FilterPairwise(s, keep, CidsDiffer);
    }
  }

  /** Selects the todos whose identity is not among `cs`: `NotAmong` applied
      to the identity. */
  function CidNotAmong(cs: seq<nat>): Todo -> bool {
    (t: Todo) => t.cid !in cs
  }

  /** Destroying each member of a `done()` snapshot, by identity, leaves
      exactly `remaining()` of the collection the snapshot was taken from. */
  lemma DestroyDoneLeavesRemaining(s: seq<Todo>)
    requires UniqueCids(s)
    ensures Filter(s, CidNotAmong(Cids(Done(s)))) == Remaining(s)
  {
    var ds := Cids(Done(s));
    forall t | t in s
      ensures CidNotAmong(ds)(t) == IsNotDone(t)
    {
      if t.cid in ds {
        var d :| d in Done(s) && d.cid == t.cid;
        SameCidSameTodo(s, d, t);
        assert t.done;
      }
      if t.done {
        assert t in Done(s);
      }
    }
    FilterCongruent(s, CidNotAmong(ds), IsNotDone);
    RemainingIsNotDone(s);
  }

  /** Applies `f` to the todo with identity `c`; every other member is left as it is. */
  function UpdateCid(s: seq<Todo>, c: nat, f: Todo -> Todo): (r: seq<Todo>)
    ensures |r| == |s|
    ensures forall i :: 0 <= i < |s| && s[i].cid == c ==> r[i] == f(s[i])
    ensures forall i :: 0 <= i < |s| && s[i].cid != c ==> r[i] == s[i]
  {
    seq(|s|, i requires 0 <= i < |s| => if s[i].cid == c then f(s[i]) else s[i])
  }

  /** Updating an identity the collection does not hold changes nothing. */
  lemma UpdateCidAbsent(s: seq<Todo>, c: nat, f: Todo -> Todo)
    ensures c !in Cids(s) ==> UpdateCid(s, c, f) == s
  {
    if c !in Cids(s) {
      assert forall i :: 0 <= i < |s| ==> s[i].cid != c by {
        forall i | 0 <= i < |s| ensures s[i].cid != c {
          assert s[i] in s;
        }
      }
    }
  }

  function WithContent(text: string): Todo -> Todo {
    (t: Todo) => t.(content := text)
  }

  /** Saving new content on the todo with identity `c`. */
  lemma EditedContent(s: seq<Todo>, c: nat, text: string)
    ensures forall i :: 0 <= i < |s| && s[i].cid == c ==> UpdateCid(s, c, WithContent(text))[i] == s[i].(content := text)
  {
  }

  /** Saving `done` on every member: each todo gets that flag, keeps the rest. */
  function SetAllDone(s: seq<Todo>, done: bool): (r: seq<Todo>)
    ensures |r| == |s|
    ensures forall i :: 0 <= i < |s| ==> r[i].done == done
    ensures forall i :: 0 <= i < |s| ==>
      r[i].cid == s[i].cid && r[i].content == s[i].content && r[i].order == s[i].order
  {
    seq(|s|, i requires 0 <= i < |s| => s[i].(done := done))
  }
}
