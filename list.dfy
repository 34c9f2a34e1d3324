/** `ContactList`: the table of contacts. It is told about every change to
    the bound contact list (items added at an index, items removed at a list
    of indexes, one item replaced) and keeps, in step with it, a list of row
    displays and the child order of the table's `<tbody>`. It also keeps the
    single selected row. */
module Lists {
  import opened Seqs
  import opened Contacts
  import opened Displays

  /** The root elements of `ds`, in order. */
  function Roots(ds: seq<Display>): (r: seq<Element>)
    ensures |r| == |ds|
    ensures forall i :: 0 <= i < |ds| ==> r[i] == ds[i].root
  {
    seq(|ds|, i requires 0 <= i < |ds| => ds[i].root)
  }

  /** The contacts bound to `ds`, in order. */
  function Models(ds: seq<Display>): (r: seq<Contact>)
    reads ds
    ensures |r| == |ds|
    ensures forall i :: 0 <= i < |ds| ==> r[i] == ds[i].model
  {
    seq(|ds|, i reads ds requires 0 <= i < |ds| => ds[i].model)
  }

  /** Putting `ds[i]`'s root back at position `i` of the roots of the other
      displays gives the roots of all of them; the result has no duplicates
      when the other roots had none and `ds[i]`'s root was not among them. */
  lemma InsertedRoots(ds: seq<Display>, i: nat)
    requires i < |ds|
    requires Distinct(Roots(Delete(ds, i))) && ds[i].root !in Roots(Delete(ds, i))
    ensures var t := Roots(Delete(ds, i));
            t[..i] + [ds[i].root] + t[i..] == Roots(ds) && Distinct(Roots(ds))
  {
    var t := Roots(Delete(ds, i));
    var u := t[..i] + [ds[i].root] + t[i..];
    assert |u| == |ds|;
    forall j | 0 <= j < |ds|
      ensures u[j] == ds[j].root
    {
      if j < i {
        assert u[j] == t[j];
      } else if j > i {
        assert u[j] == t[j - 1];
      }
    }
  }

  /** Deleting position `i` from the displays deletes position `i` from
      their roots, keeps them free of duplicates, and the deleted root is
      no longer among them. */
  lemma DeletedRoots(ds: seq<Display>, i: nat)
    requires i < |ds| && Distinct(Roots(ds))
    ensures Roots(Delete(ds, i)) == Delete(Roots(ds), i)
    ensures Distinct(Roots(Delete(ds, i)))
    ensures ds[i].root !in Roots(Delete(ds, i))
    ensures forall x :: x !in Roots(ds) ==> x !in Roots(Delete(ds, i))
  {
    var t := Roots(ds);
    var r := Roots(Delete(ds, i));
    forall j | 0 <= j < |r|
      ensures r[j] == t[if j < i then j else j + 1]
    {
    }
  }

  /** Some display in `ds` is bound to `m` (compared by reference). */
  predicate BoundToSome(m: Contact, ds: seq<Display>)
    reads ds
  {
    exists d :: d in ds && d.model == m
  }

  lemma BoundToSomeAppend(m: Contact, ds: seq<Display>, d: Display)
    ensures BoundToSome(m, ds + [d]) <==> BoundToSome(m, ds) || d.model == m
  {
    if BoundToSome(m, ds + [d]) {
      var e :| e in ds + [d] && e.model == m;
      assert e in ds || e == d;
    }
    if BoundToSome(m, ds) {
      var e :| e in ds && e.model == m;
      assert e in ds + [d];
    }
    if d.model == m {
      assert d in ds + [d];
    }
  }

  /** At most one row is marked: every row of `ds` carrying the CSS class
      "selected" is the recorded selection `sel`. */
  ghost predicate OnlySelectedMarked(ds: seq<Display>, sel: Display?)
    reads ds
  {
    forall d :: d in ds && SELECTED in d.classes ==> d == sel
  }

  /** `insertFirst`: `node` becomes the first child. */
  function InsertFirst(children: seq<Element>, node: Element): (r: seq<Element>)
    ensures |r| == |children| + 1 && r[0] == node && r[1..] == children
  {
    [node] + children
  }

  /** `insertAfter`: `node` goes right after the child `ref`. */
  function InsertAfter(children: seq<Element>, node: Element, ref: Element): (r: seq<Element>)
    requires ref in children
    ensures var p := IndexOf(children, ref);
            |r| == |children| + 1 && r[p] == ref && r[p + 1] == node &&
            r[..p + 1] == children[..p + 1] && r[p + 2..] == children[p + 1..]
    ensures multiset(r) == multiset(children) + multiset{node}
  {
    var p := IndexOf(children, ref);
    assert children == children[..p + 1] + children[p + 1..];
    children[..p + 1] + [node] + children[p + 1..]
  }

  class ContactList {
    /** The row marked selected, or null (`Optional.empty()`). */
    var selected: Display?
    /** The children of the `<tbody>`, in document order. */
    var tbody: seq<Element>
    /** One display per contact of the bound list, in list order. */
    var displays: seq<Display>

    /** The `<tbody>` shows exactly the display roots, in display order,
        each once. */
    ghost predicate Valid()
      reads this
    {
      tbody == Roots(displays) && Distinct(tbody)
    }

    /** The component as built from its template, before `setup`: the
        `<tbody>` still holds the template's placeholder rows. */
    constructor (placeholders: seq<Element>)
      ensures tbody == placeholders && displays == [] && selected == null
      ensures OnlySelectedMarked(displays, selected)
    {
      tbody := placeholders;
      displays := [];
      selected := null;
    }

    /** `setup`: remove every child of the `<tbody>`. */
    method Setup()
      modifies this
      ensures tbody == []
      ensures displays == old(displays) && selected == old(selected)
      ensures displays == [] ==> Valid()
    {
      tbody := [];
    }

    /** `selectComponent`: unmark the previous selection unless it is the
        same row, mark `component`, and record it. */
    method SelectComponent(component: Display)
      modifies this, component, selected
      ensures selected == component && SELECTED in component.classes
      ensures old(selected) != null && old(selected) != component ==>
                SELECTED !in old(selected).classes &&
                old(selected).classes - {SELECTED} == old(selected.classes) - {SELECTED}
      ensures component.classes - {SELECTED} == old(component.classes) - {SELECTED}
      ensures component.model == old(component.model)
      ensures component.clickHandlers == old(component.clickHandlers)
      ensures component.doubleClickHandlers == old(component.doubleClickHandlers)
      ensures old(selected) != null ==>
                old(selected).model == old(selected.model) &&
                old(selected).clickHandlers == old(selected.clickHandlers) &&
                old(selected).doubleClickHandlers == old(selected.doubleClickHandlers)
      ensures displays == old(displays) && tbody == old(tbody)
      ensures old(OnlySelectedMarked(displays, selected)) ==> OnlySelectedMarked(displays, selected)
    {
      if selected != null && selected != component {
        selected.SetSelected(false);
      }
      component.SetSelected(true);
      selected := component;
    }

    /** `createComponent`: a fresh display from the factory, bound to `contact`. */
    static method CreateComponent(contact: Contact) returns (display: Display)
      ensures fresh(display) && fresh(display.root)
      ensures NewRow(display, contact)
    {
      display := new Display();
      display.SetModel(contact);
    }

    /** `insertAtIndex`: attach the root of `displays[index]`, which was just
        inserted into `displays`, first or right after its predecessor's root. */
    method InsertAtIndex(index: int, display: Display)
      requires 0 <= index < |displays| && displays[index] == display
      requires tbody == Roots(Delete(displays, index))
      requires Distinct(tbody) && display.root !in tbody
      modifies this
      ensures Valid()
      ensures displays == old(displays) && selected == old(selected)
    {
      InsertedRoots(displays, index);
      if index == 0 {
        tbody := InsertFirst(tbody, display.root);
      } else {
        var ref := displays[index - 1].root;
        assert tbody[index - 1] == ref;
        assert IndexOf(tbody, ref) == index - 1;
        tbody := InsertAfter(tbody, display.root, ref);
      }
    }

    /** One step of the insertion loop: `displays.add(i, display)` and
        attach its root. */
    method AddAt(i: int, display: Display)
      requires Valid() && 0 <= i <= |displays| && display.root !in tbody
      modifies this
      ensures Valid() && selected == old(selected)
      ensures displays == old(displays)[..i] + [display] + old(displays)[i..]
    {
      displays := displays[..i] + [display] + displays[i..];
      assert Delete(displays, i) == old(displays);
      InsertAtIndex(i, display);
    }

    /** One turn of the insertion loop: `createComponent(model)`, then
        `displays.add(i, display)` and `insertAtIndex(i, display)`. */
    method AddComponent(i: int, model: Contact) returns (display: Display)
      requires Valid() && 0 <= i <= |displays|
      modifies this
      ensures Valid() && selected == old(selected)
      ensures fresh(display) && NewRow(display, model)
      ensures displays == old(displays)[..i] + [display] + old(displays)[i..]
    {
      display := CreateComponent(model);
      AddAt(i, display);
    }

    /** `onItemsAddedAt`: one fresh display per item, inserted in order from
        `index` on, each root attached in the matching place. An index out of
        range throws (ok is false) before anything changes; with no items
        nothing happens whatever the index. */
    method OnItemsAddedAt(index: int, items: seq<Contact>) returns (ok: bool)
      requires Valid()
      modifies this
      ensures Valid() && selected == old(selected)
      ensures old(OnlySelectedMarked(displays, selected)) ==> OnlySelectedMarked(displays, selected)
      ensures ok <==> |items| == 0 || 0 <= index <= |old(displays)|
      ensures !ok || |items| == 0 ==> displays == old(displays) && tbody == old(tbody)
      ensures ok && |items| > 0 ==>
                |displays| == |old(displays)| + |items| &&
                displays[..index] == old(displays)[..index] &&
                displays[index + |items|..] == old(displays)[index..] &&
                (forall j | index <= j < index + |items| :: fresh(displays[j])) &&
                Models(displays) == old(Models(displays))[..index] + items + old(Models(displays))[index..]
      ensures ok ==> forall j | index <= j < index + |items| ::
                displays[j].classes == TEMPLATE_CLASSES && SELECTED !in displays[j].classes &&
                displays[j].clickHandlers == [] && displays[j].doubleClickHandlers == []
    {
      // `add(i, ...)` can only throw on the first item, where `i` is still
      // `index`; the display created just before it is never attached.
      if |items| > 0 && !(0 <= index <= |displays|) {
        ok := false;
        return;
      }
      ok := true;
      var i := index;
      var k := 0;
      ghost var before := displays;
      ghost var added: seq<Display> := [];
      ghost var single := OnlySelectedMarked(displays, selected);
      while k < |items|
        invariant 0 <= k <= |items| && |added| == k && i == index + k
        invariant Valid() && selected == old(selected)
        invariant k == 0 ==> displays == before && tbody == old(tbody)
        invariant |items| > 0 ==> 0 <= index <= |before|
        invariant k > 0 ==> displays == Splice(before, index, added)
        invariant forall j :: 0 <= j < k ==> fresh(added[j])
        invariant NewRows(added, items)
      {
        var display := AddComponent(i, items[k]);
        SpliceStep(before, index, added, display);
        NewRowsAppend(added, items, display);
        added := added + [display];
        i := i + 1;
        k := k + 1;
      }
      if k > 0 {
        ModelsOfInsertion(before, added, index, items, displays);
        if single {
          SpliceKeepsSingleSelection(before, index, added, selected);
        }
        forall j | index <= j < index + |items|
          ensures NewRow(displays[j], items[j - index])
        {
          assert displays[j] == added[j - index];
        }
      }
    }

    /** `onItemsRemovedAt` as written: removes the displays at the positions
        of `indexes` one after another, in the order given, detaching each
        root and clearing the selection when the removed row is bound to the
        selected row's contact. Positions are not adjusted for earlier
        removals; an out-of-range position throws (ok is false) after the
        earlier removals. Given a single position, or positions in strictly
        descending order, it removes exactly the rows at those positions. */
    method OnItemsRemovedAt(indexes: seq<int>) returns (ok: bool)
      requires Valid()
      modifies this
      ensures Valid()
      ensures displays == RemoveEach(old(displays), indexes).rest
      ensures ok == RemoveEach(old(displays), indexes).complete
      ensures forall d :: d in RemoveEach(old(displays), indexes).removed ==> d.root !in tbody
      ensures selected ==
                if old(selected) != null &&
                   BoundToSome(old(selected).model, RemoveEach(old(displays), indexes).removed)
                then null else old(selected)
      ensures StrictlyDescending(indexes) && InRange(old(displays), indexes) ==>
                ok && displays == Without(old(displays), set k | k in indexes)
      ensures old(OnlySelectedMarked(displays, selected) && Distinct(Models(displays))) ==> OnlySelectedMarked(displays, selected)
    {
      ok := RemoveEachAt(indexes);
      if StrictlyDescending(indexes) && InRange(old(displays), indexes) {
        RemoveEachDescending(old(displays), indexes);
      }
    }

    /** `onItemsRemovedAt` as evidently intended: the positions are removed
        from the highest down (the descending copy the source builds), so
        each refers to the list as it was. Distinct, in-range positions
        remove exactly the rows at those positions; the selection is cleared
        exactly when one of them is bound to the selected row's contact. */
    method OnItemsRemovedAtSorted(indexes: seq<int>) returns (ok: bool)
      requires Valid()
      modifies this
      ensures Valid()
      ensures Distinct(indexes) && InRange(old(displays), indexes) ==>
                ok && displays == Without(old(displays), set k | k in indexes)
      ensures Distinct(indexes) && InRange(old(displays), indexes) ==>
                selected ==
                  if old(selected) != null &&
                     exists k :: k in indexes && old(displays)[k].model == old(selected).model
                  then null else old(selected)
      ensures old(OnlySelectedMarked(displays, selected) && Distinct(Models(displays))) ==> OnlySelectedMarked(displays, selected)
    {
      var reverseSorted := SortDescending(indexes);
      ok := RemoveEachAt(reverseSorted);
      if Distinct(indexes) && InRange(old(displays), indexes) {
        SortedRemoval(old(displays), indexes);
      }
    }

    /** The removal loop shared by both versions of `onItemsRemovedAt`. */
    method RemoveEachAt(order: seq<int>) returns (ok: bool)
      requires Valid()
      modifies this
      ensures Valid()
      ensures displays == RemoveEach(old(displays), order).rest
      ensures ok == RemoveEach(old(displays), order).complete
      ensures forall d :: d in RemoveEach(old(displays), order).removed ==> d.root !in tbody
      ensures selected ==
                if old(selected) != null &&
                   BoundToSome(old(selected).model, RemoveEach(old(displays), order).removed)
                then null else old(selected)
      ensures old(OnlySelectedMarked(displays, selected) && Distinct(Models(displays))) ==> OnlySelectedMarked(displays, selected)
    {
      ghost var total := RemoveEach(displays, order);
      ghost var removedSoFar: seq<Display> := [];
      ghost var single := OnlySelectedMarked(displays, selected) && Distinct(Models(displays));
      var k := 0;
      while k < |order|
        invariant 0 <= k <= |order|
        invariant Valid()
        invariant var r := RemoveEach(displays, order[k..]);
                  Removal(r.rest, removedSoFar + r.removed, r.complete) == total
        invariant forall d :: d in removedSoFar ==> d.root !in tbody
        invariant selected ==
                    if old(selected) != null && BoundToSome(old(selected).model, removedSoFar)
                    then null else old(selected)
        invariant single ==>
                    OnlySelectedMarked(displays, selected) && Distinct(Models(displays))
      {
        var i := order[k];
        if !(0 <= i < |displays|) {
          ok := false;
          return;
        }
        ghost var displaysBefore := displays;
        var removed := RemoveTracked(i, old(selected), removedSoFar, single);
        RemoveEachStep(displaysBefore, order, k, removedSoFar, total);
        ghost var r := RemoveEach(displays, order[k + 1..]);
        assert Removal(r.rest, (removedSoFar + [removed]) + r.removed, r.complete) == total;
        removedSoFar := removedSoFar + [removed];
        k := k + 1;
      }
      ok := true;
    }

    /** `RemoveAt` together with what the removal loop tracks across turns:
        every removed root stays detached, the selection is cleared exactly
        when some removed row shares its contact, and a single marked row
        over distinct contacts stays so. */
    method RemoveTracked(i: int, ghost selected0: Display?, ghost removedSoFar: seq<Display>, ghost single: bool)
      returns (removed: Display)
      requires Valid() && 0 <= i < |displays|
      requires forall d :: d in removedSoFar ==> d.root !in tbody
      requires selected ==
                 if selected0 != null && BoundToSome(selected0.model, removedSoFar)
                 then null else selected0
      requires single ==> OnlySelectedMarked(displays, selected) && Distinct(Models(displays))
      modifies this
      ensures Valid()
      ensures removed == old(displays)[i] && displays == Delete(old(displays), i)
      ensures forall d :: d in removedSoFar + [removed] ==> d.root !in tbody
      ensures selected ==
                if selected0 != null && BoundToSome(selected0.model, removedSoFar + [removed])
                then null else selected0
      ensures single ==> OnlySelectedMarked(displays, selected) && Distinct(Models(displays))
    {
      removed := RemoveAt(i);
      if single {
        RemovalKeepsSingleSelection(old(displays), i, old(selected), selected);
      }
      RemovalKeepsDetached(removedSoFar, removed, old(tbody), tbody);
      RemovalSelection(selected0, removedSoFar, removed, old(selected), selected);
    }

    /** One step of the removal loop: `displays.remove(i)`, detach the
        removed row's root, and drop the selection if it is bound to the
        same contact as the removed row. */
    method RemoveAt(i: int) returns (removed: Display)
      requires Valid() && 0 <= i < |displays|
      modifies this
      ensures Valid()
      ensures removed == old(displays)[i] && displays == Delete(old(displays), i)
      ensures removed.root !in tbody && forall x :: x !in old(tbody) ==> x !in tbody
      ensures selected ==
                if old(selected) != null && old(selected).model == removed.model
                then null else old(selected)
    {
      removed := displays[i];
      RemoveFirstOfDistinct(tbody, i);
      DeletedRoots(displays, i);
      displays := Delete(displays, i);
      tbody := RemoveFirst(tbody, removed.root);
      if selected != null && selected.model == removed.model {
        selected := null;
      }
    }

    /** `onItemChanged`: rebind the display at `index` to `item`. The list of
        displays, the `<tbody>` and the selection are untouched, and so is
        every other display's contact. An index out of range throws (ok is
        false) and nothing changes. */
    method OnItemChanged(index: int, item: Contact) returns (ok: bool)
      requires Valid()
      modifies if 0 <= index < |displays| then {displays[index]} else {}
      ensures Valid()
      ensures ok <==> 0 <= index < |displays|
      ensures displays == old(displays) && tbody == old(tbody) && selected == old(selected)
      ensures Models(displays) == if ok then old(Models(displays))[index := item] else old(Models(displays))
      ensures ok ==>
                displays[index].classes == old(displays[index].classes) &&
                displays[index].clickHandlers == old(displays[index].clickHandlers) &&
                displays[index].doubleClickHandlers == old(displays[index].doubleClickHandlers)
      ensures old(OnlySelectedMarked(displays, selected)) ==> OnlySelectedMarked(displays, selected)
    {
      ok := 0 <= index < |displays|;
      if ok {
        forall j | 0 <= j < |displays| && j != index
          ensures displays[j] != displays[index]
        {
          assert tbody[j] != tbody[index];
        }
        displays[index].SetModel(item);
      }
    }
  }

  /** Roots detached before a removal step stay detached after it, and so
      does the root it removes. */
  lemma RemovalKeepsDetached(soFar: seq<Display>, removed: Display, before: seq<Element>,
                             after: seq<Element>)
    requires forall d :: d in soFar ==> d.root !in before
    requires removed.root !in after && forall x :: x !in before ==> x !in after
    ensures forall d :: d in soFar + [removed] ==> d.root !in after
  {
  }

  /** The selection after a removal step is cleared exactly when some row
      removed so far is bound to the contact of the selection `sel0` that
      the loop started with. */
  lemma RemovalSelection(sel0: Display?, soFar: seq<Display>, removed: Display,
                         before: Display?, after: Display?)
    requires before == if sel0 != null && BoundToSome(sel0.model, soFar) then null else sel0
    requires after == if before != null && before.model == removed.model then null else before
    ensures after == if sel0 != null && BoundToSome(sel0.model, soFar + [removed]) then null else sel0
  {
    if sel0 != null {
      BoundToSomeAppend(sel0.model, soFar, removed);
    }
  }

  /** The models of `old[..index] + added + old[index..]` are the old models
      with `items` spliced in at `index`. */
  lemma ModelsOfInsertion(prev: seq<Display>, added: seq<Display>, index: int, items: seq<Contact>,
                          now: seq<Display>)
    requires 0 <= index <= |prev| && |added| == |items|
    requires now == prev[..index] + added + prev[index..]
    requires forall j :: 0 <= j < |added| ==> added[j].model == items[j]
    ensures Models(now) == Models(prev)[..index] + items + Models(prev)[index..]
  {
    var lhs := Models(now);
    var rhs := Models(prev)[..index] + items + Models(prev)[index..];
    assert |lhs| == |rhs|;
    forall j | 0 <= j < |lhs|
      ensures lhs[j] == rhs[j]
    {
      if j < index {
        assert now[j] == prev[j];
      } else if j < index + |items| {
        assert now[j] == added[j - index];
      } else {
        assert now[j] == prev[j - |items|];
      }
    }
  }

  /** The rows removed at the positions of `order` (a permutation of
      `indexes`) include one bound to `m` exactly when one of the positions
      in `indexes` holds a row bound to `m`. */
  lemma RemovedModels(s: seq<Display>, order: seq<int>, indexes: seq<int>, removed: seq<Display>,
                      m: Contact)
    requires |removed| == |order| && InRange(s, order)
    requires forall k :: 0 <= k < |order| ==> removed[k] == s[order[k]]
    requires forall k :: k in order <==> k in indexes
    ensures BoundToSome(m, removed) <==> exists k :: k in indexes && s[k].model == m
  {
    if BoundToSome(m, removed) {
      var d :| d in removed && d.model == m;
      var j :| 0 <= j < |removed| && removed[j] == d;
      assert order[j] in indexes && s[order[j]].model == m;
    }
    if exists k :: k in indexes && s[k].model == m {
      var k :| k in indexes && s[k].model == m;
      var j :| 0 <= j < |order| && order[j] == k;
      assert removed[j] in removed && removed[j].model == m;
    }
  }

  /** The descending copy of distinct in-range positions is strictly
      descending, in range, and holds the same positions. */
  lemma SortedPositions(ds: seq<Display>, indexes: seq<int>)
    requires Distinct(indexes) && InRange(ds, indexes)
    ensures StrictlyDescending(SortDescending(indexes)) && InRange(ds, SortDescending(indexes))
    ensures forall k :: k in SortDescending(indexes) <==> k in indexes
    ensures (set k | k in SortDescending(indexes)) == set k | k in indexes
  {
    var reverseSorted := SortDescending(indexes);
    SortDescendingCorrect(indexes);
    assert forall k :: k in reverseSorted <==> k in multiset(indexes);
    forall j | 0 <= j < |reverseSorted|
      ensures 0 <= reverseSorted[j] < |ds|
    {
      assert reverseSorted[j] in multiset(indexes);
    }
  }

  /** Removing distinct in-range indexes in descending order removes exactly
      those rows, and a contact loses a row exactly when one of the indexes
      held it. */
  lemma SortedRemoval(ds: seq<Display>, indexes: seq<int>)
    requires Distinct(indexes) && InRange(ds, indexes)
    ensures RemoveEach(ds, SortDescending(indexes)).complete
    ensures RemoveEach(ds, SortDescending(indexes)).rest == Without(ds, set k | k in indexes)
    ensures forall m: Contact :: BoundToSome(m, RemoveEach(ds, SortDescending(indexes)).removed) <==>
              exists k :: k in indexes && ds[k].model == m
  {
    var reverseSorted := SortDescending(indexes);
    SortedPositions(ds, indexes);
    RemoveEachDescending(ds, reverseSorted);
    var removed := RemoveEach(ds, reverseSorted).removed;
    forall m: Contact
      ensures BoundToSome(m, removed) <==> exists k :: k in indexes && ds[k].model == m
    {
      RemovedModels(ds, reverseSorted, indexes, removed, m);
    }
  }

  /** The rows in `added` are bound, in order, to the first items, and
      none is marked selected. */
  ghost predicate NewRows(added: seq<Display>, items: seq<Contact>)
    reads added
  {
    |added| <= |items| &&
    forall j :: 0 <= j < |added| ==> NewRow(added[j], items[j])
  }

  /** A row as `createComponent` leaves it: bound to `item`, with the
      template's classes and no listeners. */
  ghost predicate NewRow(d: Display, item: Contact)
    reads d
  {
    d.model == item && d.classes == TEMPLATE_CLASSES &&
    d.clickHandlers == [] && d.doubleClickHandlers == []
  }

  lemma NewRowsAppend(added: seq<Display>, items: seq<Contact>, d: Display)
    requires NewRows(added, items) && |added| < |items|
    requires NewRow(d, items[|added|])
    ensures NewRows(added + [d], items)
  {
  }

  /** Rows inserted without the "selected" class keep at most one row
      marked. */
  lemma SpliceKeepsSingleSelection(ds: seq<Display>, index: nat, added: seq<Display>, sel: Display?)
    requires index <= |ds| && OnlySelectedMarked(ds, sel)
    requires forall j :: 0 <= j < |added| ==> SELECTED !in added[j].classes
    ensures OnlySelectedMarked(Splice(ds, index, added), sel)
  {
    var r := Splice(ds, index, added);
    forall d | d in r && SELECTED in d.classes
      ensures d == sel
    {
      var j :| 0 <= j < |r| && r[j] == d;
      if j < index {
        assert r[..index][j] == d;
      } else if j < index + |added| {
        assert false;
      } else {
        assert r[index + |added|..][j - index - |added|] == d;
      }
    }
  }

  /** With every row bound to a different contact, one removal step keeps
      at most one row marked, and it is the selection left by the step:
      the selection is cleared only when the removed row is the selected
      one. */
  lemma RemovalKeepsSingleSelection(ds: seq<Display>, i: nat, sel: Display?, after: Display?)
    requires i < |ds| && Distinct(Models(ds)) && OnlySelectedMarked(ds, sel)
    requires after == if sel != null && sel.model == ds[i].model then null else sel
    ensures Distinct(Models(Delete(ds, i)))
    ensures OnlySelectedMarked(Delete(ds, i), after)
  {
    var r := Delete(ds, i);
    assert forall j :: 0 <= j < |r| ==> r[j] == ds[if j < i then j else j + 1];
    forall d | d in r
      ensures d in ds && d.model != ds[i].model
    {
      var j :| 0 <= j < |r| && r[j] == d;
      var k := if j < i then j else j + 1;
      assert Models(ds)[k] != Models(ds)[i];
    }
    forall j1, j2 | 0 <= j1 < j2 < |r|
      ensures Models(r)[j1] != Models(r)[j2]
    {
      var k1 := if j1 < i then j1 else j1 + 1;
      var k2 := if j2 < i then j2 else j2 + 1;
      assert Models(ds)[k1] != Models(ds)[k2];
    }
  }

  /** Two rows bound to the same contact, the first one selected and marked:
      removing the second clears the selection (the comparison is by
      contact), yet the first stays in the list with its mark. */
  lemma SharedContactKeepsMark(d0: Display, d1: Display)
    requires d0 != d1 && d0.model == d1.model
    requires SELECTED in d0.classes && SELECTED !in d1.classes
    ensures OnlySelectedMarked([d0, d1], d0)
    ensures RemoveEach([d0, d1], [1]).rest == [d0]
    ensures BoundToSome(d0.model, RemoveEach([d0, d1], [1]).removed)
    ensures !OnlySelectedMarked(RemoveEach([d0, d1], [1]).rest, null)
  {
    assert Delete([d0, d1], 1) == [d0];
    assert RemoveEach([d0, d1], [1]).removed == [d1];
    assert d1 in RemoveEach([d0, d1], [1]).removed;
    assert d0 in [d0];
  }
}
