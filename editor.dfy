/** `ContactEditor`: the form that edits one contact. A data binder keeps
    the form's inputs and the bound contact (the working model) in step. For
    editing an existing contact out of place, the editor copies that
    contact's values into the working model and remembers the contact as
    `copied`; committing writes the working values back into it. */
module Editors {
  import opened Contacts

  class ContactEditor {
    /** The binder's bound contact (`getModel()`). */
    var model: Contact
    /** The values shown in the form's inputs. */
    var ui: Properties
    /** The contact being edited out of place, or null. */
    var copied: Contact?

    /** The binding is live: the form shows the bound contact's values. */
    ghost predicate Valid()
      reads this, model
    {
      ui == model.Fields()
    }

    /** A new editor is bound to a fresh blank contact and has no copy. */
    constructor ()
      ensures Valid() && fresh(model) && copied == null
    {
      model := new Contact();
      ui := Properties(None, None, None, None, None, None);
      copied := null;
    }

    /** `binder.setModel(m, InitialState.FROM_MODEL)`: bind `m` and load the
        form from it. */
    method BindFromModel(m: Contact)
      modifies this
      ensures model == m && ui == m.Fields() && copied == old(copied)
    {
      model := m;
      ui := m.Fields();
    }

    /** `binder.setModel(m, InitialState.FROM_UI)`: bind `m` and write the
        form's values into it; its id is not a bound property. */
    method BindFromUi(m: Contact)
      modifies this, m
      ensures model == m && ui == old(ui) && copied == old(copied)
      ensures m.Fields() == old(ui) && m.id == old(m.id)
    {
      model := m;
      m.SetFields(ui);
    }

    /** The user types into the form: the binder carries the new values into
        the bound contact. */
    method EditForm(f: Properties)
      modifies this, model
      ensures model == old(model) && copied == old(copied)
      ensures ui == f && model.Fields() == f && model.id == old(model.id)
      ensures Valid()
    {
      ui := f;
      model.SetFields(f);
    }

    /** `setModel`: forget any copy, then bind `m` and show its values. */
    method SetModel(m: Contact)
      modifies this
      ensures !IsCopied() && GetCopied() == null
      ensures model == m && ui == m.Fields() && Valid()
    {
      copied := null;
      BindFromModel(m);
    }

    /** `copyModelState`: load `c`'s values into the form and into the
        working contact, keep the working contact bound, and remember `c`.
        `c` itself is not changed. */
    method CopyModelState(c: Contact)
      modifies this, model
      ensures IsCopied() && GetCopied() == c
      ensures model == old(model) && Valid()
      ensures ui == old(c.Fields())
      ensures model.Fields() == old(c.Fields()) && model.id == old(model.id)
      ensures c.Fields() == old(c.Fields()) && c.id == old(c.id)
    {
      var originalModel := model;
      BindFromModel(c);
      BindFromUi(originalModel);
      copied := c;
    }

    /** `isCopied`: an out-of-place edit is in progress. */
    predicate IsCopied(): (b: bool)
      reads this
      ensures b <==> copied != null
    {
      copied != null
    }

    /** `overwriteCopiedModelState`: with no copy, nothing happens. With a
        copy, the form's values go into the copied contact and the working
        contact is bound again. The copy is not forgotten. */
    method OverwriteCopiedModelState()
      modifies this, copied
      ensures copied == old(copied) && model == old(model)
      ensures old(copied) == null ==> ui == old(ui) && model.Fields() == old(model.Fields())
      ensures old(copied) != null ==> copied.Fields() == old(ui) && copied.id == old(copied.id)
      ensures old(copied) != null ==> ui == model.Fields()
      ensures old(copied) != null && model != copied ==> model.Fields() == old(model.Fields())
      ensures old(Valid()) ==> Valid() && ui == old(ui)
    {
      if IsCopied() {
        var workingModel := model;
        BindFromUi(copied);
        BindFromModel(workingModel);
      }
    }

    /** `getCopied`. */
    function GetCopied(): (c: Contact?)
      reads this
      ensures c != null <==> IsCopied()
    {
      copied
    }
  }
}
