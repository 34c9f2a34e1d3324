/** `ContactDisplay`: one table row showing a contact. It keeps two ordered
    lists of listeners (single click and double click), forwards each DOM
    event to every listener of its kind in registration order, and marks its
    root `<tr>` element with the CSS class "selected" on request. */
module Displays {
  import opened Seqs
  import opened Contacts

  const SELECTED: string := "selected"

  /** The classes of the template's row element: the `contact` class that
      marks it in the page template. */
  const TEMPLATE_CLASSES: set<string> := {"contact"}

  /** A DOM node; only its identity is modelled (the `<tbody>` is the
      sequence of its children). */
  class Element {
    constructor () {}
  }

  /** A click or double-click listener. Java's `List.remove(Object)` finds
      listeners by `equals`, which for these anonymous objects is identity. */
  class Handler {
    constructor () {}
  }

  /** The DOM event passed through to the listeners. */
  datatype DomEvent = DomEvent(serial: nat)

  /** One listener invocation: `onClick` or `onDoubleClick` of `handler`. */
  datatype Call =
    | ClickCall(handler: Handler, event: DomEvent)
    | DoubleClickCall(handler: Handler, event: DomEvent)

  /** How many of the invocations in `calls` went to `h`. */
  function TimesCalled(calls: seq<Call>, h: Handler): nat
  {
    if calls == [] then 0
    else (if calls[0].handler == h then 1 else 0) + TimesCalled(calls[1..], h)
  }

  /** When the invocations follow the registration list one for one, each
      listener is invoked as often as it is registered. */
  lemma {:induction false} TimesCalledIsCount(calls: seq<Call>, hs: seq<Handler>, h: Handler)
    requires |calls| == |hs|
    requires forall k :: 0 <= k < |calls| ==> calls[k].handler == hs[k]
    ensures TimesCalled(calls, h) == Count(hs, h)
  {
    if calls != [] {
      TimesCalledIsCount(calls[1..], hs[1..], h);
    }
  }

  /** A listener registered twice on top of `hs` and then removed once is
      registered exactly once more than in `hs`. */
  lemma AddTwiceRemoveOnce(hs: seq<Handler>, h: Handler)
    ensures Count(RemoveFirst(hs + [h] + [h], h), h) == Count(hs, h) + 1
  {
    CountAppend(hs, h, h);
    CountAppend(hs + [h], h, h);
    RemoveFirstCount(hs + [h] + [h], h, h);
  }

  /** The class list after `setSelected(on)`: "selected" present exactly
      when `on`, every other class as before. */
  function WithSelected(classes: set<string>, on: bool): (r: set<string>)
    ensures SELECTED in r <==> on
    ensures r - {SELECTED} == classes - {SELECTED}
  {
    if on then classes + {SELECTED} else classes - {SELECTED}
  }

  /** Setting the flag twice to the same value is the same as setting it
      once, and setting it to its current value changes nothing. */
  lemma WithSelectedIdempotent(classes: set<string>, on: bool)
    ensures WithSelected(WithSelected(classes, on), on) == WithSelected(classes, on)
    ensures (SELECTED in classes <==> on) ==> WithSelected(classes, on) == classes
  {
    var r := WithSelected(classes, on);
    assert WithSelected(r, on) == r by {
      assert WithSelected(r, on) - {SELECTED} == r - {SELECTED};
    }
  }

  class Display {
    /** The `<tr>` element this component renders into. */
    const root: Element
    /** The CSS class list of `root`. */
    var classes: set<string>
    /** The contact currently bound to the row. */
    var model: Contact
    var clickHandlers: seq<Handler>
    var doubleClickHandlers: seq<Handler>

    /** What the component factory hands out: a fresh row bound to a fresh,
        blank contact, with the template's classes (not "selected") and no
        listeners. */
    constructor ()
      ensures fresh(root) && fresh(model)
      ensures model.id == 0 && model.Fields() == Properties(None, None, None, None, None, None)
      ensures classes == TEMPLATE_CLASSES && SELECTED !in classes
      ensures clickHandlers == [] && doubleClickHandlers == []
    {
      root := new Element();
      classes := TEMPLATE_CLASSES;
      model := new Contact();
      clickHandlers, doubleClickHandlers := [], [];
    }

    /** Bind the row to another contact. */
    method SetModel(m: Contact)
      modifies this
      ensures model == m && classes == old(classes)
      ensures clickHandlers == old(clickHandlers) && doubleClickHandlers == old(doubleClickHandlers)
    {
      model := m;
    }

    method AddClickHandler(h: Handler) returns (reg: HandlerRegistration)
      modifies this
      ensures clickHandlers == old(clickHandlers) + [h]
      ensures doubleClickHandlers == old(doubleClickHandlers)
      ensures model == old(model) && classes == old(classes)
      ensures fresh(reg) && reg.display == this && reg.handler == h && !reg.forDoubleClick
    {
      clickHandlers := clickHandlers + [h];
      reg := new HandlerRegistration(this, h, false);
    }

    method AddDoubleClickHandler(h: Handler) returns (reg: HandlerRegistration)
      modifies this
      ensures doubleClickHandlers == old(doubleClickHandlers) + [h]
      ensures clickHandlers == old(clickHandlers)
      ensures model == old(model) && classes == old(classes)
      ensures fresh(reg) && reg.display == this && reg.handler == h && reg.forDoubleClick
    {
      doubleClickHandlers := doubleClickHandlers + [h];
      reg := new HandlerRegistration(this, h, true);
    }

    /** A single click: every click listener once, in registration order,
        and no double-click listener. */
    method OnClick(event: DomEvent) returns (calls: seq<Call>)
      ensures |calls| == |clickHandlers|
      ensures forall k :: 0 <= k < |calls| ==> calls[k] == ClickCall(clickHandlers[k], event)
    {
      calls := [];
      var i := 0;
      while i < |clickHandlers|
        invariant 0 <= i <= |clickHandlers|
        invariant |calls| == i
        invariant forall k :: 0 <= k < i ==> calls[k] == ClickCall(clickHandlers[k], event)
      {
        calls := calls + [ClickCall(clickHandlers[i], event)];
        i := i + 1;
      }
    }

    /** A double click: every double-click listener once, in registration
        order, and no click listener. */
    method OnDoubleClick(event: DomEvent) returns (calls: seq<Call>)
      ensures |calls| == |doubleClickHandlers|
      ensures forall k :: 0 <= k < |calls| ==> calls[k] == DoubleClickCall(doubleClickHandlers[k], event)
    {
      calls := [];
      var i := 0;
      while i < |doubleClickHandlers|
        invariant 0 <= i <= |doubleClickHandlers|
        invariant |calls| == i
        invariant forall k :: 0 <= k < i ==> calls[k] == DoubleClickCall(doubleClickHandlers[k], event)
      {
        calls := calls + [DoubleClickCall(doubleClickHandlers[i], event)];
        i := i + 1;
      }
    }

    /** Add or remove the CSS class "selected" on the root element; every
        other class stays as it was. */
    method SetSelected(selected: bool)
      modifies this
      ensures classes == WithSelected(old(classes), selected)
      ensures model == old(model)
      ensures clickHandlers == old(clickHandlers) && doubleClickHandlers == old(doubleClickHandlers)
    {
      classes := WithSelected(classes, selected);
    }
  }

  /** The `HandlerRegistration` returned by `addClickHandler` and
      `addDoubleClickHandler`. */
  class HandlerRegistration {
    const display: Display
    const handler: Handler
    const forDoubleClick: bool

    constructor (d: Display, h: Handler, dbl: bool)
      ensures display == d && handler == h && forDoubleClick == dbl
    {
      display, handler, forDoubleClick := d, h, dbl;
    }

    /** Remove the first occurrence of the listener from its own list; the
        other list and the rest of this list are left in order. */
    method RemoveHandler()
      modifies display
      ensures display.model == old(display.model) && display.classes == old(display.classes)
      ensures !forDoubleClick ==>
        display.clickHandlers == RemoveFirst(old(display.clickHandlers), handler) &&
        display.doubleClickHandlers == old(display.doubleClickHandlers)
      ensures forDoubleClick ==>
        display.doubleClickHandlers == RemoveFirst(old(display.doubleClickHandlers), handler) &&
        display.clickHandlers == old(display.clickHandlers)
    {
      if forDoubleClick {
        display.doubleClickHandlers := RemoveFirst(display.doubleClickHandlers, handler);
      } else {
        display.clickHandlers := RemoveFirst(display.clickHandlers, handler);
      }
    }
  }
}
