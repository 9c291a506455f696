/** The controller that `initializeEditable` sets up, as an object: the closure
    variable `activePopover` and the document it mutates become the fields of
    `Editor`, and each listener and helper becomes a method that updates them in
    place, in the source's order. Every method is proved to take the object from
    state `old(Snapshot())` to the state the matching transition of `Popover`
    computes, so the properties proved there hold of the object. */
module Controller {
  import opened Text
  import opened Escaping
  import opened Positioning
  import opened Popover

  class Editor {
    /** The resolved options. */
    const config: Config

    /** The editable elements of the page and their text. */
    var elements: map<ElementId, Element>
    /** `activePopover`, with the state of its control and its placement. */
    var active: Option<Session>
    /** The popover surfaces attached to `document.body`. */
    var mounted: set<PopoverId>
    /** The window's `resize` and `scroll` listeners are registered. */
    var listening: bool
    /** The identity the next surface created will have. */
    var nextPopover: PopoverId
    /** The user callbacks invoked so far, in order. */
    var trace: seq<Callback>

    /** The object's state as a value of the transition system. */
    function Snapshot(): State
      reads this
    {
      State(elements, active, mounted, listening, nextPopover, trace)
    }

    ghost predicate Valid()
      reads this
    {
      Popover.Valid(Snapshot())
    }

    /** `initializeEditable(selector, options)` over the elements the selector
        matches: no popover, no window listener, no callback yet. */
    constructor (cfg: Config, els: map<ElementId, Element>)
      ensures config == cfg && Snapshot() == Initial(els) && Valid()
    {
      config := cfg;
      elements := els;
      active := None;
      mounted := {};
      listening := false;
      nextPopover := 0;
      trace := [];
    }

    /** `closePopover(from)`: detach the window listeners and the surface, forget
        the session, then call `onClose` and, for the close button, `onCancel`. */
    method ClosePopover(from: Reason)
      requires Valid()
      modifies this
      ensures Snapshot() == Close(old(Snapshot()), config, from)
      ensures Valid()
    {
      if active.None? {
        return;
      }
      var pop := active.value.popover;
      var targetEl := active.value.target;
      listening := false;
      mounted := mounted - {pop};
      active := None;
      if config.hooks.onClose {
        trace := trace + [OnClose(targetEl)];
      }
      if from == CloseButton && config.hooks.onCancel {
        trace := trace + [OnCancel(targetEl)];
      }
    }

    /** `openPopoverFor(el)`: nothing when `el` already owns the session;
        otherwise close the previous session and mount a new one. */
    method OpenPopoverFor(el: ElementId, g: Geometry)
      requires Valid() && el in elements
      modifies this
      ensures Snapshot() == Open(old(Snapshot()), config, el, g)
      ensures Valid()
    {
      if active.Some? && active.value.target == el {
        return;
      }
      ClosePopover(NoReason);
      MountPopover(el, g);
    }

    /** The rest of `openPopoverFor(el)`: call `onOpen`, build the control from
        the escaped current text, attach and place the new surface, record the
        session and register the window listeners. */
    method MountPopover(el: ElementId, g: Geometry)
      requires Valid() && active.None? && el in elements
      modifies this
      ensures Snapshot() == Mount(old(Snapshot()), config, el, g)
      ensures Valid()
    {
      if config.hooks.onOpen {
        trace := trace + [OnOpen(el)];
      }
      var pop := nextPopover;
      nextPopover := nextPopover + 1;
      var e := elements[el];
      var multiline := e.multiline;
      var current := Current(e);
      var markup := if multiline then EscapeHtml(current) else EscapeAttr(current);
      var control := Decode(markup);
      mounted := mounted + {pop};
      var placement := PlaceAsWritten(g);
      active := Some(Session(el, pop, multiline, control, false, placement));
      listening := true;
    }

    /** `applyAndClose`: an all-whitespace value only marks the control as
        erroneous; any other value (tag-stripped with `sanitize`) becomes the
        target's text, the session closes, and `onSave` gets the raw value. */
    method ApplyAndClose()
      requires Valid()
      modifies this
      ensures Snapshot() == Commit(old(Snapshot()), config)
      ensures Valid()
    {
      if active.None? {
        return;
      }
      var s := active.value;
      var value := s.control;
      TrimEmpty(value);
      if Trim(value) == [] {
        active := Some(s.(error := true));
        return;
      }
      var safe := if config.sanitize then StripTags(value) else value;
      elements := elements[s.target := elements[s.target].(text := safe)];
      ClosePopover(NoReason);
      if config.hooks.onSave {
        trace := trace + [OnSave(s.target, value)];
      }
    }

    /** The control's `input` listener: the new value is kept, and the error mark
        is removed once it is not all whitespace. */
    method OnInput(value: string)
      requires Valid()
      modifies this
      ensures Snapshot() == Edit(old(Snapshot()), value)
      ensures Valid()
    {
      if active.None? {
        return;
      }
      var s := active.value.(control := value);
      TrimEmpty(value);
      if Trim(value) != [] {
        s := s.(error := false);
      }
      active := Some(s);
    }

    /** The window's `reposition` listener. */
    method OnResizeOrScroll(g: Geometry)
      requires Valid()
      modifies this
      ensures Snapshot() == Reposition(old(Snapshot()), g)
      ensures Valid()
    {
      if active.Some? {
        active := Some(active.value.(placement := PlaceAsWritten(g)));
      }
    }

    /** Routes one DOM event: the document's `click` and `keydown` listeners, the
        two buttons' `click` listeners (which stop propagation), and the
        control's `input` and `keydown` listeners. */
    method HandleEvent(ev: Event)
      requires Valid() && Admissible(Snapshot(), ev)
      modifies this
      ensures Snapshot() == Step(old(Snapshot()), config, ev)
      ensures Valid()
    {
      match ev
      case ClickEditable(el, g) =>
        OpenPopoverFor(el, g);
      case ClickOutside =>
        if config.closeOnBlur && active.Some? {
          ClosePopover(NoReason);
        }
      case ClickInPopover =>
      case KeyEscape =>
        if active.Some? {
          ClosePopover(NoReason);
        }
      case ClickCancel =>
        ClosePopover(CloseButton);
      case ClickSave =>
        ApplyAndClose();
      case KeyEnter(ctrlOrMeta) =>
        if active.Some? && (!active.value.multiline || ctrlOrMeta) {
          ApplyAndClose();
        }
      case Input(value) =>
        OnInput(value);
      case ResizeOrScroll(g) =>
        OnResizeOrScroll(g);
    }
  }
}
