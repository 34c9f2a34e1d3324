# errai-crud contact manager — a Dafny model

This project models the client-side core of the errai-crud contact manager. That is an Errai/GWT demo that lists, edits and deletes address-book contacts.

- **`Contacts` (contact.dfy).** The `Contact` entity:
  - its setters and getters;
  - id-based `equals`;
  - `hashCode`, the id cast to a 32-bit `int`;
  - the id and notes parts of `toString`.
- **`Displays` (display.dfy).** `ContactDisplay`, one table row. It holds:
  - two ordered listener registries (click and double click), with registration, removal of the first occurrence, and in-order dispatch;
  - the "selected" CSS class on its root `<tr>`.
- **`Editors` (editor.dfy).** `ContactEditor`, the edit form. Its data binder is a working contact plus the values shown in the form:
  - `FROM_MODEL` loads the form from a contact;
  - `FROM_UI` writes the form into a contact;
  - out-of-place editing goes through `copyModelState`, `overwriteCopiedModelState` and the `copied` reference.
- **`Lists` (list.dfy).** `ContactList`, the table. It keeps these in step with the bound contact list:
  - its list of row displays;
  - the child order of its `<tbody>`;
  - the single selected row.

  The class invariant `Valid()` says that the `<tbody>` children are the display roots, in display order, each once. Every list operation preserves it.
- **`Seqs` (seqs.dfy).** The list operations the Java code relies on, with their lemmas:
  - `List.remove(Object)`, `List.remove(int)` and `add(int, E)`;
  - the descending `Collections.sort`;
  - removing a list of positions one after another.

A thrown exception (an index out of range, `substring` on a short string, a null field) is modelled as a `false` status or a `None` result.

## Model

Source paths are relative to the repository root, shortened here. `ContactList.java`, `ContactDisplay.java` and `ContactEditor.java` live in `src/main/java/org/jboss/errai/demo/client/local/`, and `Contact.java` in `src/main/java/org/jboss/errai/demo/client/shared/`.

| member | source | states |
|---|---|---|
| Contacts.ToInt32 | src/main/java/org/jboss/errai/demo/client/shared/Contact.java:148 | Java's `(int)` cast of a `long`: the result is a signed 32-bit value congruent to the input modulo 2^32, and the input itself when it already fits |
| Contacts.Contact.HashCode | src/main/java/org/jboss/errai/demo/client/shared/Contact.java:146-149 | the hash code is a signed 32-bit value congruent to the id modulo 2^32 |
| Contacts.Contact.constructor | src/main/java/org/jboss/errai/demo/client/shared/Contact.java:48-62 | a new contact has id 0 and every property null |
| Contacts.Contact.SetBirthday | src/main/java/org/jboss/errai/demo/client/shared/Contact.java:68-70 | the getter returns the value set; every other property and the id are unchanged |
| Contacts.Contact.SetFullname | src/main/java/org/jboss/errai/demo/client/shared/Contact.java:76-78 | the getter returns the value set; every other property and the id are unchanged |
| Contacts.Contact.SetNickname | src/main/java/org/jboss/errai/demo/client/shared/Contact.java:84-86 | the getter returns the value set; every other property and the id are unchanged |
| Contacts.Contact.SetPhonenumber | src/main/java/org/jboss/errai/demo/client/shared/Contact.java:92-94 | the getter returns the value set; every other property and the id are unchanged |
| Contacts.Contact.SetEmail | src/main/java/org/jboss/errai/demo/client/shared/Contact.java:100-102 | the getter returns the value set; every other property and the id are unchanged |
| Contacts.Contact.SetNotes | src/main/java/org/jboss/errai/demo/client/shared/Contact.java:108-110 | the getter returns the value set; every other property and the id are unchanged |
| Contacts.Contact.GetBirthday | src/main/java/org/jboss/errai/demo/client/shared/Contact.java:64-66 | `getBirthday` returns the property the setters and the editor's bindings write |
| Contacts.Contact.GetFullname | src/main/java/org/jboss/errai/demo/client/shared/Contact.java:72-74 | `getFullname` returns the property the setters and the editor's bindings write |
| Contacts.Contact.GetNickname | src/main/java/org/jboss/errai/demo/client/shared/Contact.java:80-82 | `getNickname` returns the property the setters and the editor's bindings write |
| Contacts.Contact.GetPhonenumber | src/main/java/org/jboss/errai/demo/client/shared/Contact.java:88-90 | `getPhonenumber` returns the property the setters and the editor's bindings write |
| Contacts.Contact.GetEmail | src/main/java/org/jboss/errai/demo/client/shared/Contact.java:96-98 | `getEmail` returns the property the setters and the editor's bindings write |
| Contacts.Contact.GetNotes | src/main/java/org/jboss/errai/demo/client/shared/Contact.java:104-106 | `getNotes` returns the property the setters and the editor's bindings write |
| Contacts.Contact.GetId | src/main/java/org/jboss/errai/demo/client/shared/Contact.java:112-114 | `getId` returns an id congruent to `hashCode()` modulo 2^32 |
| Contacts.Contact.Equals | src/main/java/org/jboss/errai/demo/client/shared/Contact.java:141-144 | true only for a non-null contact with the same id, and never when this contact's id is 0 |
| Contacts.Contact.SetId | src/main/java/org/jboss/errai/demo/client/shared/Contact.java:116-118 | `getId` returns the id set; no property changes |
| Contacts.UnsavedEqualsNothing | src/main/java/org/jboss/errai/demo/client/shared/Contact.java:141-144 | a contact with id 0 equals nothing, itself included, and nothing equals it: `equals` is not reflexive |
| Contacts.SavedEqualsItself | src/main/java/org/jboss/errai/demo/client/shared/Contact.java:141-144 | a contact with a non-zero id equals itself |
| Contacts.EqualsSymmetric | src/main/java/org/jboss/errai/demo/client/shared/Contact.java:141-144 | `a.equals(b)` exactly when `b.equals(a)` |
| Contacts.EqualsTransitive | src/main/java/org/jboss/errai/demo/client/shared/Contact.java:141-144 | `equals` is transitive |
| Contacts.EqualsHashConsistent | src/main/java/org/jboss/errai/demo/client/shared/Contact.java:141-149 | equal contacts have equal hash codes |
| Contacts.LongText | src/main/java/org/jboss/errai/demo/client/shared/Contact.java:124 | `append(long)` as `Long.toString`: non-empty, and starting with '-' exactly for a negative value |
| Contacts.Show | src/main/java/org/jboss/errai/demo/client/shared/Contact.java:125-132 | `append(String)`: a null property prints as "null", any other prints as itself |
| Contacts.DigitsRoundTrip | src/main/java/org/jboss/errai/demo/client/shared/Contact.java:124 | the decimal digits of a natural number parse back to that number |
| Contacts.LongTextRoundTrip | src/main/java/org/jboss/errai/demo/client/shared/Contact.java:124 | `append(long)` text is non-empty, starts with '-' exactly for negative values, has no comma, and parses back to the value |
| Contacts.IdFieldReadsBack | src/main/java/org/jboss/errai/demo/client/shared/Contact.java:123-125 | after the prefix `[Contact: id=`, comma-free id text followed by a comma reads back as that id |
| Contacts.Contact.ToString | src/main/java/org/jboss/errai/demo/client/shared/Contact.java:120-139 | fails exactly when the birthday or the notes are null or the formatted date is shorter than 10 characters; otherwise the text starts with `[Contact: id=` and the id reads back out of it |
| Contacts.NotesExcerptAsWritten | src/main/java/org/jboss/errai/demo/client/shared/Contact.java:136 | the excerpt as written fails exactly for notes shorter than 20 characters; otherwise it starts with the first 20 characters |
| Contacts.NotesExcerpt | src/main/java/org/jboss/errai/demo/client/shared/Contact.java:136 | notes of at most 20 characters are kept whole; longer notes give their first 20 characters followed by "..." |
| Contacts.ShortNotesCounterexample | src/main/java/org/jboss/errai/demo/client/shared/Contact.java:136 | "call me" makes the excerpt as written fail, while the intended excerpt is "call me" |
| Contacts.NotesExcerptAgrees | src/main/java/org/jboss/errai/demo/client/shared/Contact.java:136 | wherever the excerpt as written succeeds, it equals the intended excerpt |
| Displays.Display.constructor | src/main/java/org/jboss/errai/demo/client/local/ContactDisplay.java:73-82 | a new row has a fresh root carrying the template's `contact` class (so not "selected"), a fresh blank contact (id 0, every property null, as the `Contact` constructor leaves it), and two empty listener lists |
| Displays.Display.SetModel | src/main/java/org/jboss/errai/demo/client/local/ContactList.java:126 | rebinding a row changes its contact only; listeners and classes stay |
| Displays.Display.AddClickHandler | src/main/java/org/jboss/errai/demo/client/local/ContactDisplay.java:116-125 | the listener is appended to the click list; the double-click list, contact and classes are unchanged; the registration refers to this row, this listener and the click list |
| Displays.Display.AddDoubleClickHandler | src/main/java/org/jboss/errai/demo/client/local/ContactDisplay.java:127-136 | the listener is appended to the double-click list; the click list, contact and classes are unchanged; the registration refers to the double-click list |
| Displays.HandlerRegistration.constructor | src/main/java/org/jboss/errai/demo/client/local/ContactDisplay.java:119-124 | the registration records its row, its listener and which list it belongs to |
| Displays.HandlerRegistration.RemoveHandler | src/main/java/org/jboss/errai/demo/client/local/ContactDisplay.java:119-135 | removes the first occurrence of the listener from its own list only; the other list, contact and classes are unchanged |
| Displays.Display.OnClick | src/main/java/org/jboss/errai/demo/client/local/ContactDisplay.java:141-146 | invokes every click listener once, in registration order, with the event; no double-click listener is invoked |
| Displays.Display.OnDoubleClick | src/main/java/org/jboss/errai/demo/client/local/ContactDisplay.java:151-156 | invokes every double-click listener once, in registration order, with the event; no click listener is invoked |
| Displays.TimesCalledIsCount | src/main/java/org/jboss/errai/demo/client/local/ContactDisplay.java:142-146 | when dispatch follows the registration list, each listener runs as many times as it is registered |
| Displays.AddTwiceRemoveOnce | src/main/java/org/jboss/errai/demo/client/local/ContactDisplay.java:116-125 | a listener registered twice and removed once stays registered exactly once more than before |
| Seqs.RemoveFirst | src/main/java/org/jboss/errai/demo/client/local/ContactDisplay.java:122 | `List.remove(Object)`: one element shorter when the element is present, unchanged otherwise |
| Seqs.RemoveFirstSplits | src/main/java/org/jboss/errai/demo/client/local/ContactDisplay.java:122 | when present, the first occurrence is cut out and everything before and after it keeps its order |
| Seqs.RemoveFirstCount | src/main/java/org/jboss/errai/demo/client/local/ContactDisplay.java:122 | `List.remove(Object)` lowers the count of that element by one when present and leaves every other element's count alone |
| Displays.WithSelected | src/main/java/org/jboss/errai/demo/client/local/ContactDisplay.java:165-171 | "selected" is in the class set exactly when requested, and every other class is unchanged |
| Displays.WithSelectedIdempotent | src/main/java/org/jboss/errai/demo/client/local/ContactDisplay.java:165-171 | setting the flag twice is the same as once; setting it to its current value changes nothing |
| Displays.Display.SetSelected | src/main/java/org/jboss/errai/demo/client/local/ContactDisplay.java:165-171 | the class set becomes `WithSelected(old classes, selected)`; contact and listeners are unchanged |
| Editors.ContactEditor.constructor | src/main/java/org/jboss/errai/demo/client/local/ContactEditor.java:36-38 | a new editor is bound to a fresh contact, shows its values, and has no copy |
| Editors.ContactEditor.BindFromModel | src/main/java/org/jboss/errai/demo/client/local/ContactEditor.java:80 | `FROM_MODEL`: binds the contact and loads the form from it |
| Editors.ContactEditor.BindFromUi | src/main/java/org/jboss/errai/demo/client/local/ContactEditor.java:81 | `FROM_UI`: binds the contact and writes the form's values into it; the form and the contact's id are unchanged |
| Editors.ContactEditor.EditForm | src/main/java/org/jboss/errai/demo/client/local/ContactEditor.java:44-66 | typing into the bound inputs updates the bound contact's properties, not its id, and keeps the binding live |
| Editors.ContactEditor.SetModel | src/main/java/org/jboss/errai/demo/client/local/ContactEditor.java:72-76 | always clears the copy (`isCopied()` false, `getCopied()` null), binds the contact and shows its values |
| Editors.ContactEditor.CopyModelState | src/main/java/org/jboss/errai/demo/client/local/ContactEditor.java:78-83 | afterwards `isCopied()` holds and `getCopied()` is the argument; the working contact stays bound, keeps its id and gets the argument's values, which the form shows; the argument is unchanged |
| Editors.ContactEditor.IsCopied | src/main/java/org/jboss/errai/demo/client/local/ContactEditor.java:85-87 | holds exactly when a copied contact is recorded |
| Editors.ContactEditor.GetCopied | src/main/java/org/jboss/errai/demo/client/local/ContactEditor.java:85-99 | the result is non-null exactly when `isCopied()` |
| Editors.ContactEditor.OverwriteCopiedModelState | src/main/java/org/jboss/errai/demo/client/local/ContactEditor.java:89-95 | without a copy, nothing changes. With a copy: the copied contact receives the form's values and keeps its id, the working contact is bound again and shown, and the copy is kept. A live binding stays live with the form unchanged |
| Lists.InsertFirst | src/main/java/org/jboss/errai/demo/client/local/ContactList.java:133 | the node becomes the first child; the other children follow in order |
| Lists.InsertAfter | src/main/java/org/jboss/errai/demo/client/local/ContactList.java:136 | the node is placed right after the reference child; the children up to the reference and those after it keep their order, and the children are the old ones plus the node |
| Lists.InsertedRoots | src/main/java/org/jboss/errai/demo/client/local/ContactList.java:100-101 | inserting a display's root at its display position restores root order, with no duplicates |
| Lists.DeletedRoots | src/main/java/org/jboss/errai/demo/client/local/ContactList.java:111-112 | removing display `i` removes root `i`; no duplicates, and the removed root is gone |
| Seqs.RemoveFirstOfDistinct | src/main/java/org/jboss/errai/demo/client/local/ContactList.java:112 | in a list without duplicates, removing element `i` by value is removing position `i` |
| Lists.ContactList.constructor | src/main/java/org/jboss/errai/demo/client/local/ContactList.java:62-72 | before `setup`: the `<tbody>` holds the template's rows, there are no displays and no selection, so no row is marked selected |
| Lists.ContactList.Setup | src/main/java/org/jboss/errai/demo/client/local/ContactList.java:74-78 | the `<tbody>` has no children; displays and selection are unchanged |
| Lists.ContactList.SelectComponent | src/main/java/org/jboss/errai/demo/client/local/ContactList.java:84-88 | the component is marked and recorded as selected; a different previous selection is unmarked; re-selecting the same row leaves it marked; other classes, contacts, both listener lists of both rows, displays and `<tbody>` are unchanged; if only the selected row was marked before, only the new one is marked after |
| Lists.ContactList.CreateComponent | src/main/java/org/jboss/errai/demo/client/local/ContactList.java:124-129 | a fresh display with a fresh root, bound to the contact, with the template's classes (not "selected") and no listeners |
| Lists.ContactList.InsertAtIndex | src/main/java/org/jboss/errai/demo/client/local/ContactList.java:131-138 | given a display just inserted at `index`, attaching its root first or after its predecessor's root restores the invariant |
| Lists.ContactList.AddComponent | src/main/java/org/jboss/errai/demo/client/local/ContactList.java:98-101 | one loop step: a fresh display bound to the contact, with the template's classes and no listeners, is inserted at `i`, and the invariant and selection are kept |
| Lists.ContactList.AddAt | src/main/java/org/jboss/errai/demo/client/local/ContactList.java:100-101 | `displays.add(i, d)` plus `insertAtIndex`: displays become `old[..i] + [d] + old[i..]` and the invariant holds |
| Lists.ContactList.OnItemsAddedAt | src/main/java/org/jboss/errai/demo/client/local/ContactList.java:96-104 | succeeds exactly when there are no items or `0 <= index <= size`. On success with items, displays become `old[..index]`, one fresh display per item, then `old[index..]`, and the row contacts are the old ones with the items spliced in. Otherwise nothing changes. Invariant and selection are kept; each new row carries the template's classes (not "selected") and no listeners; and if only the selected row was marked before, that still holds |
| Lists.SpliceKeepsSingleSelection | src/main/java/org/jboss/errai/demo/client/local/ContactList.java:84-104 | splicing unmarked rows into a list where only the selected row is marked keeps only that row marked |
| Lists.ModelsOfInsertion | src/main/java/org/jboss/errai/demo/client/local/ContactList.java:98-103 | the contacts of the spliced display list are the old contacts with the items spliced in at the same index |
| Lists.ContactList.RemoveAt | src/main/java/org/jboss/errai/demo/client/local/ContactList.java:111-115 | one removal: display `i` leaves the list, its root leaves the `<tbody>`, and the selection clears exactly when it shares that display's contact |
| Lists.ContactList.RemoveTracked | src/main/java/org/jboss/errai/demo/client/local/ContactList.java:111-115 | one turn of the removal loop: the row goes as in `RemoveAt`, every row removed so far has its root detached, the selection is cleared exactly when some removed row shares its contact, and with distinct contacts only the selection stays marked |
| Lists.RemovalSelection | src/main/java/org/jboss/errai/demo/client/local/ContactList.java:113-115 | over the removal loop, the selection is cleared exactly when some removed row is bound to the selected row's contact |
| Lists.RemovalKeepsDetached | src/main/java/org/jboss/errai/demo/client/local/ContactList.java:112 | roots detached earlier in the loop stay detached |
| Lists.ContactList.RemoveEachAt | src/main/java/org/jboss/errai/demo/client/local/ContactList.java:110-116 | the loop leaves `RemoveEach(old displays, order)`: remaining displays, completion status, removed roots detached, and the selection cleared exactly when a removed row shares its contact; the invariant holds; when the rows' contacts are distinct and only the selected row was marked, only the selection (if any is left) is marked after |
| Lists.ContactList.OnItemsRemovedAt | src/main/java/org/jboss/errai/demo/client/local/ContactList.java:106-117 | as written: removes positions in the given order without adjusting them. For a single position, or strictly descending in-range positions, exactly the rows at those positions go and the rest keep their order. With distinct row contacts, the single marked row is kept or cleared with the selection |
| Lists.ContactList.OnItemsRemovedAtSorted | src/main/java/org/jboss/errai/demo/client/local/ContactList.java:107-117 | as intended (iterating the descending copy): for distinct in-range positions, exactly those rows go, the rest keep their order, and the selection clears exactly when one of them shares its contact. With distinct row contacts, the single marked row is kept or cleared with the selection |
| Lists.RemovalKeepsSingleSelection | src/main/java/org/jboss/errai/demo/client/local/ContactList.java:111-115 | with distinct row contacts, removing one row keeps the contacts distinct and leaves only the (possibly cleared) selection marked |
| Lists.SharedContactKeepsMark | src/main/java/org/jboss/errai/demo/client/local/ContactList.java:111-115 | two rows bound to one contact, the first selected: removing the second clears the selection while the first stays marked |
| Lists.SortedRemoval | src/main/java/org/jboss/errai/demo/client/local/ContactList.java:108-115 | removing distinct in-range positions in descending order removes exactly those rows, and a removed row carries a contact exactly when a requested position held it |
| Lists.RemovedModels | src/main/java/org/jboss/errai/demo/client/local/ContactList.java:113-115 | the removed rows include one bound to a contact exactly when one of the requested positions holds such a row |
| Lists.ContactList.OnItemChanged | src/main/java/org/jboss/errai/demo/client/local/ContactList.java:119-122 | succeeds exactly for an index in range; then only that row's contact becomes the item; its classes and listener lists, the displays, `<tbody>` and selection are unchanged, and so is a single marked row |
| Seqs.SortDescendingCorrect | src/main/java/org/jboss/errai/demo/client/local/ContactList.java:108-109 | the reverse-sorted copy is a permutation of the positions, in descending order, and strictly descending when the positions are distinct |
| Seqs.Delete | src/main/java/org/jboss/errai/demo/client/local/ContactList.java:111 | `List.remove(int)`: the list is one element shorter |
| Seqs.DeleteShifts | src/main/java/org/jboss/errai/demo/client/local/ContactList.java:111 | after `List.remove(int)`, the elements before the position stay in place and the later ones move down by one |
| Seqs.Splice | src/main/java/org/jboss/errai/demo/client/local/ContactList.java:97-102 | `add(i, x)` for each item at `i`, `i + 1`, ...: the prefix before `i` is kept, the items follow in order, then the old suffix |
| Seqs.SortDescending | src/main/java/org/jboss/errai/demo/client/local/ContactList.java:109 | the sorted copy has as many positions as the input |
| Seqs.RemoveEach | src/main/java/org/jboss/errai/demo/client/local/ContactList.java:110-112 | one removal per position, stopping at the first one out of range: the removed and remaining rows together are as many as the rows, and a complete run removes one row per position |
| Seqs.RemoveEachDescending | src/main/java/org/jboss/errai/demo/client/local/ContactList.java:110-112 | removing strictly descending in-range positions one after another removes exactly the elements at those positions, in that order, and keeps the others in order |
| Seqs.AscendingRemovalCounterexample | src/main/java/org/jboss/errai/demo/client/local/ContactList.java:110-111 | on [10, 20, 30], positions [0, 1] leave [20], not [30]; on [10, 20] the second removal is out of range |

## Left out

- Errai/GWT plumbing is not modelled: templates, injection, and CDI delivery of the `@Click` event. `selectComponent` is a plain method call, and the display factory is fresh allocation.
- The DOM is reduced to the `<tbody>` child sequence and each row's class set. `removeFromParent` removes the root from the `<tbody>`, and the root belongs to no other parent.
- `DataBinder` internals and `ContactPresenter` are not part of this model. Binding is reduced to the `FROM_MODEL` and `FROM_UI` copies of the six bound properties. The one-argument `binder.setModel` is taken to be `FROM_MODEL`.
- Editors.ContactEditor.CopyModelState takes a non-null contact. What the binder does with null is not part of this model.
- Listener bodies are outside the model. Dispatch returns the sequence of invocations, so a listener that changes the registry during dispatch is not modelled.
- Displays.Display.constructor, Lists.ContactList.CreateComponent and Lists.ContactList.AddComponent: contact-page.html is not part of this model. A new row's classes are taken to be exactly the `contact` class that ContactDisplay.java documents for the template's row element; any other template class is not modelled.
- Contacts.Contact.ToString: the date formatter is a parameter, and the birthday is an opaque value.
- Contacts.Contact.ToString uses the corrected notes excerpt (see Findings).
- Contacts.Contact.ToString: its contract fixes the prefix, the id read-back and the failure cases. The order of the remaining fields is stated only in its definition.
- `equals` with an argument that is not a `Contact` behaves like null (false). Arguments of other classes are not modelled.
- Lists.ContactList.OnItemsRemovedAt, Lists.ContactList.OnItemsRemovedAtSorted and Lists.ContactList.RemoveEachAt promise that at most one row is marked only when no two rows share a contact. The cleanup compares contacts, not rows. If an unselected row bound to the selected row's contact is removed, `selected` is cleared but the selected row keeps its "selected" class, and a later selection leaves two rows marked. Lists.SharedContactKeepsMark shows this.
- Contacts.NotesExcerpt counts notes in Unicode characters, not in UTF-16 code units as Java's `length()` and `substring` do. For notes with characters outside the Basic Multilingual Plane the two counts differ. Ten U+1F600 characters are 20 code units, so the Java excerpt succeeds while the excerpt as written in the model fails. The model also does not capture Java cutting a surrogate pair in half at position 20.
- Seqs.SortDescending compares unbounded integers. The Java comparator `m - n` can overflow only for negative, out-of-range positions far apart.
- The `source` list argument of the three list handlers is unused there and omitted.
- `ContactStorageServiceImpl`, remote create/update/delete and JPA annotations (with the named query's ordering) are not part of this model.

## Findings

| source | as written | input that shows it | evidently intended | confidence | as-written member | corrected member |
|---|---|---|---|---|---|---|
| src/main/java/org/jboss/errai/demo/client/local/ContactList.java:108-110 | the loop iterates `indexes`; the reverse-sorted copy is built and never used | removing positions [0, 1] from rows [10, 20, 30] removes rows 10 and 30; on two rows the second removal is out of range | remove positions from the highest down, iterating `reverseSorted` | high, not executed | Lists.ContactList.OnItemsRemovedAt, Seqs.AscendingRemovalCounterexample | Lists.ContactList.OnItemsRemovedAtSorted |
| src/main/java/org/jboss/errai/demo/client/shared/Contact.java:136 | `notes.substring(0, 20)` runs whatever the length | notes "call me" (7 characters) make `toString` throw | take at most 20 characters, and append "..." only when something was cut | high, not executed | Contacts.NotesExcerptAsWritten, Contacts.ShortNotesCounterexample | Contacts.NotesExcerpt |
