/** The popover controller of `initializeEditable` as a state machine over
    values: the single active session, the popover surfaces attached to the
    document, the window listeners, the editable elements' text, and the trace of
    user callbacks it has invoked. The class in `Controller` is proved to follow
    these transitions step by step. */
module Popover {
  import opened Text
  import opened Escaping
  import opened Positioning

  datatype Option<T> = None | Some(value: T)

  /** An editable element of the page, by identity. */
  type ElementId = nat

  /** A popover surface created by the controller, by identity. */
  type PopoverId = nat

  /** What the controller reads and writes of an editable element: its
      `innerText` and whether its `data-multiline` attribute is `"true"`. */
  datatype Element = Element(text: string, multiline: bool)

  /** Which of `onOpen`, `onClose`, `onSave` and `onCancel` the caller supplied
      as functions. */
  datatype Hooks = Hooks(onOpen: bool, onClose: bool, onSave: bool, onCancel: bool)

  /** The options the controller's transitions consult. */
  datatype Config = Config(sanitize: bool, closeOnBlur: bool, hooks: Hooks)

  /** The active popover: its target element, its surface, the editing mode
      captured when it opened, the control's current value, whether the control
      carries the `error` class, and where the surface is placed. */
  datatype Session = Session(target: ElementId, popover: PopoverId, multiline: bool,
                             control: string, error: bool, placement: Placement)

  /** A call of one of the user callbacks, with its arguments. */
  datatype Callback =
    | OnOpen(el: ElementId)
    | OnClose(el: ElementId)
    | OnCancel(el: ElementId)
    | OnSave(el: ElementId, value: string)

  /** The `from` argument of `closePopover`: absent, or `"close"` from the cancel
      button. */
  datatype Reason = NoReason | CloseButton

  /** The DOM events the controller listens to. */
  datatype Event =
    | ClickEditable(el: ElementId, geometry: Geometry)  // a click on or inside an editable element
    | ClickOutside                                      // a click outside every editable element and the popover
    | ClickInPopover                                    // a click inside the popover, not on its buttons
    | KeyEscape                                         // Escape pressed anywhere in the document
    | ClickCancel                                       // the popover's close button
    | ClickSave                                         // the popover's check button
    | KeyEnter(ctrlOrMeta: bool)                        // Enter pressed in the control
    | Input(value: string)                              // the control's value changed
    | ResizeOrScroll(geometry: Geometry)                // the window was resized or scrolled

  datatype State = State(
    elements: map<ElementId, Element>,
    active: Option<Session>,
    mounted: set<PopoverId>,      // popover surfaces attached to the document
    listening: bool,              // the resize and scroll listeners are registered
    nextPopover: PopoverId,       // the next surface identity, never used before
    trace: seq<Callback>)

  function Initial(elements: map<ElementId, Element>): State {
    State(elements, None, {}, false, 0, [])
  }

  /** The controller's invariant: a surface is attached and the window listeners
      are registered exactly while a session is active, and then there is exactly
      one surface, the session's; the session targets a known element and keeps
      that element's editing mode. */
  predicate Valid(st: State) {
    match st.active
    case None => st.mounted == {} && !st.listening
    case Some(s) =>
      && s.target in st.elements
      && s.multiline == st.elements[s.target].multiline
      && s.popover < st.nextPopover
      && st.mounted == {s.popover}
      && st.listening
  }

  lemma InitialIsValid(elements: map<ElementId, Element>)
    ensures Valid(Initial(elements)) && Initial(elements).active.None?
  {
  }

  /** Appends `c` to the trace when its callback is configured. */
  function Emit(trace: seq<Callback>, configured: bool, c: Callback): seq<Callback> {
    if configured then trace + [c] else trace
  }

  /** `closePopover(from)`. */
  function Close(st: State, cfg: Config, from: Reason): (r: State)
    requires Valid(st)
    ensures Valid(r) && r.active.None? && r.elements == st.elements
    ensures st.trace <= r.trace
  {
    match st.active
    case None => st
    case Some(s) =>
      var t := Emit(st.trace, cfg.hooks.onClose, OnClose(s.target));
      st.(active := None, mounted := st.mounted - {s.popover}, listening := false,
          trace := Emit(t, from == CloseButton && cfg.hooks.onCancel, OnCancel(s.target)))
  }

  /** The text the editor starts from: the raw text in multi-line mode, the
      collapsed and trimmed text in single-line mode. */
  function Current(e: Element): string {
    if e.multiline then e.text else CollapseLine(e.text)
  }

  /** The control's initial value: the browser's reading of the escaped text the
      markup carries (text content of a `<textarea>`, or the `value` attribute of
      an `<input>`). */
  function InitialControl(e: Element): string {
    Decode(if e.multiline then EscapeHtml(Current(e)) else EscapeAttr(Current(e)))
  }

  /** The editor opens showing exactly the element's current text. */
  lemma InitialControlShowsText(e: Element)
    ensures InitialControl(e) == Current(e)
  {
    if e.multiline {
      EscapeHtmlRoundTrip(Current(e));
    } else {
      EscapeAttrRoundTrip(Current(e));
    }
  }

  /** `openPopoverFor(el)`: nothing when `el` already owns the session,
      otherwise the previous session closes and a new one is mounted. */
  function Open(st: State, cfg: Config, el: ElementId, g: Geometry): (r: State)
    requires Valid(st) && el in st.elements
    ensures Valid(r) && r.elements == st.elements
    ensures r.active.Some? && r.active.value.target == el
    ensures st.trace <= r.trace
  {
    if st.active.Some? && st.active.value.target == el then st
    else Mount(Close(st, cfg, NoReason), cfg, el, g)
  }

  /** The rest of `openPopoverFor(el)` once no session is active: `onOpen`, then
      a fresh surface showing the element's text, placed under it. */
  function Mount(st: State, cfg: Config, el: ElementId, g: Geometry): (r: State)
    requires Valid(st) && st.active.None? && el in st.elements
    ensures Valid(r) && r.elements == st.elements
    ensures r.active.Some? && r.active.value.target == el
    ensures st.trace <= r.trace
  {
    var e := st.elements[el];
    var pop := st.nextPopover;
    st.(active := Some(Session(el, pop, e.multiline, InitialControl(e), false, PlaceAsWritten(g))),
        mounted := st.mounted + {pop}, listening := true, nextPopover := pop + 1,
        trace := Emit(st.trace, cfg.hooks.onOpen, OnOpen(el)))
  }

  /** The text a successful commit writes into the element. */
  function SavedText(cfg: Config, value: string): string {
    if cfg.sanitize then StripTags(value) else value
  }

  /** `applyAndClose` on the active session's control. */
  function Commit(st: State, cfg: Config): (r: State)
    requires Valid(st)
    ensures Valid(r) && r.elements.Keys == st.elements.Keys
    ensures st.trace <= r.trace
  {
    match st.active
    case None => st
    case Some(s) =>
      if AllSpace(s.control) then st.(active := Some(s.(error := true)))
      else
        var e := st.elements[s.target];
        var written := st.(elements := st.elements[s.target := e.(text := SavedText(cfg, s.control))]);
        var closed := Close(written, cfg, NoReason);
        closed.(trace := Emit(closed.trace, cfg.hooks.onSave, OnSave(s.target, s.control)))
  }

  /** The control's `input` listener. */
  function Edit(st: State, value: string): State {
    match st.active
    case None => st
    case Some(s) =>
      st.(active := Some(s.(control := value, error := if !AllSpace(value) then false else s.error)))
  }

  /** The window's `reposition` listener. */
  function Reposition(st: State, g: Geometry): State {
    match st.active
    case None => st
    case Some(s) => st.(active := Some(s.(placement := PlaceAsWritten(g))))
  }

  /** A click can only land on an element of the page. */
  predicate Admissible(st: State, ev: Event) {
    ev.ClickEditable? ==> ev.el in st.elements
  }

  /** The document's click and keydown listeners and the popover's own listeners. */
  function Step(st: State, cfg: Config, ev: Event): (r: State)
    requires Valid(st) && Admissible(st, ev)
    ensures Valid(r) && r.elements.Keys == st.elements.Keys
    ensures st.trace <= r.trace
  {
    match ev
    case ClickEditable(el, g) => Open(st, cfg, el, g)
    case ClickOutside => if cfg.closeOnBlur && st.active.Some? then Close(st, cfg, NoReason) else st
    case ClickInPopover => st
    case KeyEscape => if st.active.Some? then Close(st, cfg, NoReason) else st
    case ClickCancel => Close(st, cfg, CloseButton)
    case ClickSave => Commit(st, cfg)
    case KeyEnter(ctrlOrMeta) =>
      if st.active.Some? && (!st.active.value.multiline || ctrlOrMeta) then Commit(st, cfg) else st
    case Input(value) => Edit(st, value)
    case ResizeOrScroll(g) => Reposition(st, g)
  }

  /** Every click in `evs` lands on an element of the page. */
  predicate AllAdmissible(elements: set<ElementId>, evs: seq<Event>) {
    forall i :: 0 <= i < |evs| && evs[i].ClickEditable? ==> evs[i].el in elements
  }

  /** The controller's state after a sequence of events. Whatever the sequence,
      the document never holds more than one popover surface. */
  function Run(st: State, cfg: Config, evs: seq<Event>): (r: State)
    requires Valid(st) && AllAdmissible(st.elements.Keys, evs)
    ensures Valid(r) && |r.mounted| <= 1 && r.elements.Keys == st.elements.Keys
    ensures st.trace <= r.trace
    decreases |evs|
  {
    if evs == [] then st
    else
      var next := Step(st, cfg, evs[0]);
      assert AllAdmissible(next.elements.Keys, evs[1..]) by {
        forall i | 0 <= i < |evs| - 1 && evs[1..][i].ClickEditable?
          ensures evs[1..][i].el in next.elements.Keys
        {
          assert evs[1..][i] == evs[i + 1];
        }
      }
      Run(next, cfg, evs[1..])
  }

  // ---------------------------------------------------------------------------
  // Opening

  /** Opening the element that already owns the session changes nothing: the
      same surface stays, with its unsaved edits and error state. */
  lemma OpenSameIsNoop(st: State, cfg: Config, el: ElementId, g: Geometry)
    requires Valid(st) && el in st.elements
    requires st.active.Some? && st.active.value.target == el
    ensures Open(st, cfg, el, g) == st
  {
  }

  lemma Suffix<T>(a: seq<T>, b: seq<T>, c: seq<T>)
    requires c == a + b
    ensures |a| <= |c| && c[|a|..] == b
  {
  }

  /** The callbacks the close path runs for the active session, if any. */
  function CloseCallbacks(st: State, cfg: Config, from: Reason): seq<Callback> {
    match st.active
    case None => []
    case Some(s) =>
      (if cfg.hooks.onClose then [OnClose(s.target)] else [])
      + (if from == CloseButton && cfg.hooks.onCancel then [OnCancel(s.target)] else [])
  }

  lemma CloseTrace(st: State, cfg: Config, from: Reason)
    requires Valid(st)
    ensures Close(st, cfg, from).trace == st.trace + CloseCallbacks(st, cfg, from)
  {
  }

  /** Opening any other element attaches a single new surface, never used
      before; the session targets `el`, shows the element's text, keeps its
      editing mode and has no error. */
  lemma OpenOther(st: State, cfg: Config, el: ElementId, g: Geometry)
    requires Valid(st) && el in st.elements
    requires !(st.active.Some? && st.active.value.target == el)
    ensures var r := Open(st, cfg, el, g);
      && r.active.Some?
      && var s := r.active.value;
      && s.target == el && s.control == Current(st.elements[el]) && !s.error
      && s.multiline == st.elements[el].multiline && s.placement == PlaceAsWritten(g)
      && r.mounted == {s.popover} && s.popover !in st.mounted && s.popover >= st.nextPopover
      && r.listening
      && r.elements == st.elements
  {
    InitialControlShowsText(st.elements[el]);
  }

  /** The callbacks opening `el` runs: the close path of the previous session,
      then `onOpen`. */
  function OpenCallbacks(st: State, cfg: Config, el: ElementId): seq<Callback> {
    CloseCallbacks(st, cfg, NoReason) + (if cfg.hooks.onOpen then [OnOpen(el)] else [])
  }

  lemma OpenCallbacksKinds(st: State, cfg: Config, el: ElementId)
    ensures forall c :: c in OpenCallbacks(st, cfg, el) ==> c.OnClose? || c.OnOpen?
  {
  }

  /** Opening any other element first runs the whole close path of the previous
      session, without a cancel, then reports the opening. */
  lemma OpenTrace(st: State, cfg: Config, el: ElementId, g: Geometry)
    requires Valid(st) && el in st.elements
    requires !(st.active.Some? && st.active.value.target == el)
    ensures Open(st, cfg, el, g).trace == st.trace + OpenCallbacks(st, cfg, el)
  {
    CloseTrace(st, cfg, NoReason);
  }

  /** Opening reports no cancel and no save. */
  lemma OpenNeverCancels(st: State, cfg: Config, el: ElementId, g: Geometry)
    requires Valid(st) && el in st.elements
    ensures var r := Open(st, cfg, el, g);
      forall c :: c in r.trace[|st.trace|..] ==> c.OnClose? || c.OnOpen?
  {
    var r := Open(st, cfg, el, g);
    if st.active.Some? && st.active.value.target == el {
      OpenSameIsNoop(st, cfg, el, g);
    } else {
      OpenTrace(st, cfg, el, g);
      Suffix(st.trace, OpenCallbacks(st, cfg, el), r.trace);
      OpenCallbacksKinds(st, cfg, el);
    }
  }

  // ---------------------------------------------------------------------------
  // Closing

  /** Closing without a session does nothing. */
  lemma CloseWithoutSessionIsNoop(st: State, cfg: Config, from: Reason)
    requires Valid(st) && st.active.None?
    ensures Close(st, cfg, from) == st
  {
  }

  /** Closing a session detaches its surface and the window listeners, keeps
      every element's text, and reports `onClose` and then, only for the cancel
      button, `onCancel`, both for the session's target. */
  lemma CloseSession(st: State, cfg: Config, from: Reason)
    requires Valid(st) && st.active.Some?
    ensures var r, t := Close(st, cfg, from), st.active.value.target;
      && r.active.None? && r.mounted == {} && !r.listening
      && r.elements == st.elements
      && r.nextPopover == st.nextPopover
      && r.trace == st.trace + (if cfg.hooks.onClose then [OnClose(t)] else [])
                    + (if from == CloseButton && cfg.hooks.onCancel then [OnCancel(t)] else [])
  {
  }

  /** Escape and a click outside never report a cancel, whatever the state. */
  lemma EscapeAndBlurNeverCancel(st: State, cfg: Config, ev: Event)
    requires Valid(st) && (ev == KeyEscape || ev == ClickOutside)
    ensures var r := Step(st, cfg, ev);
      && r.elements == st.elements
      && r.trace == st.trace + (if r == st then [] else CloseCallbacks(st, cfg, NoReason))
      && (forall c :: c in r.trace[|st.trace|..] ==> c.OnClose?)
  {
    var r := Step(st, cfg, ev);
    if r != st {
      assert r == Close(st, cfg, NoReason);
    }
    assert r.trace[|st.trace|..] == if r == st then [] else CloseCallbacks(st, cfg, NoReason);
  }

  /** Escape closes an open session; a click outside does so only with
      `closeOnBlur`. */
  lemma EscapeAndBlurClose(st: State, cfg: Config)
    requires Valid(st) && st.active.Some?
    ensures Step(st, cfg, KeyEscape).active.None?
    ensures Step(st, cfg, ClickOutside).active.None? <==> cfg.closeOnBlur
  {
  }

  /** The cancel button closes the session and reports `onClose` then `onCancel`. */
  lemma CancelButtonReportsCloseThenCancel(st: State, cfg: Config)
    requires Valid(st) && st.active.Some?
    requires cfg.hooks.onClose && cfg.hooks.onCancel
    ensures var r, t := Step(st, cfg, ClickCancel), st.active.value.target;
      r.active.None? && r.trace == st.trace + [OnClose(t), OnCancel(t)]
  {
  }

  /** Only the cancel button ever reports a cancel. */
  lemma OnlyCancelButtonCancels(st: State, cfg: Config, ev: Event)
    requires Valid(st) && Admissible(st, ev) && ev != ClickCancel
    ensures var r := Step(st, cfg, ev);
      forall c :: c in r.trace[|st.trace|..] ==> !c.OnCancel?
  {
    var r := Step(st, cfg, ev);
    match ev
    case ClickEditable(el, g) =>
      OpenNeverCancels(st, cfg, el, g);
    case ClickSave =>
      CommitNeverCancels(st, cfg);
    case KeyEnter(_) =>
      CommitNeverCancels(st, cfg);
    case KeyEscape =>
      EscapeAndBlurNeverCancel(st, cfg, ev);
    case ClickOutside =>
      EscapeAndBlurNeverCancel(st, cfg, ev);
    case _ =>
  }

  // ---------------------------------------------------------------------------
  // Committing

  /** Committing an empty or all-whitespace value changes no element's text,
      keeps the session and its surface, reports nothing, and marks the control
      as erroneous. */
  lemma CommitEmpty(st: State, cfg: Config)
    requires Valid(st) && st.active.Some? && AllSpace(st.active.value.control)
    ensures var r := Commit(st, cfg);
      && r.elements == st.elements && r.trace == st.trace
      && r.mounted == st.mounted && r.listening
      && r.active == Some(st.active.value.(error := true))
  {
  }

  /** Committing a value that is not all whitespace writes the saved text into
      the target, closes the session without a cancel, and reports `onSave` last,
      carrying the raw value. */
  lemma CommitNonEmpty(st: State, cfg: Config)
    requires Valid(st) && st.active.Some? && !AllSpace(st.active.value.control)
    ensures var r, s := Commit(st, cfg), st.active.value;
      && r.active.None? && r.mounted == {} && !r.listening
      && r.elements == st.elements[s.target := Element(SavedText(cfg, s.control), s.multiline)]
      && r.trace == st.trace + (if cfg.hooks.onClose then [OnClose(s.target)] else [])
                    + (if cfg.hooks.onSave then [OnSave(s.target, s.control)] else [])
  {
    var s := st.active.value;
    var e := st.elements[s.target];
    var written := st.(elements := st.elements[s.target := e.(text := SavedText(cfg, s.control))]);
    CloseTrace(written, cfg, NoReason);
    assert Commit(st, cfg) == Close(written, cfg, NoReason).(trace := Emit(Close(written, cfg, NoReason).trace, cfg.hooks.onSave, OnSave(s.target, s.control)));
  }

  /** A commit never reports an opening or a cancel. */
  lemma CommitNeverCancels(st: State, cfg: Config)
    requires Valid(st)
    ensures var r := Commit(st, cfg);
      forall c :: c in r.trace[|st.trace|..] ==> c.OnClose? || c.OnSave?
  {
    var r := Commit(st, cfg);
    if st.active.None? {
      CommitWithoutSessionIsNoop(st, cfg);
    } else if AllSpace(st.active.value.control) {
      CommitEmpty(st, cfg);
    } else {
      var s := st.active.value;
      CommitNonEmpty(st, cfg);
      var closing := if cfg.hooks.onClose then [OnClose(s.target)] else [];
      var saving := if cfg.hooks.onSave then [OnSave(s.target, s.control)] else [];
      Suffix(st.trace, closing + saving, r.trace);
      SaveCallbacksKinds(closing, saving);
    }
  }

  lemma SaveCallbacksKinds(closing: seq<Callback>, saving: seq<Callback>)
    requires forall c :: c in closing ==> c.OnClose?
    requires forall c :: c in saving ==> c.OnSave?
    ensures forall c :: c in closing + saving ==> c.OnClose? || c.OnSave?
  {
  }

  /** Without a session a commit does nothing. */
  lemma CommitWithoutSessionIsNoop(st: State, cfg: Config)
    requires Valid(st) && st.active.None?
    ensures Commit(st, cfg) == st
  {
  }

  /** What a successful commit writes: the raw value, or with `sanitize` the value
      with its tags stripped, which then contains no tag and keeps the value's
      other characters in order. */
  lemma SavedTextSpec(cfg: Config, value: string)
    ensures !cfg.sanitize ==> SavedText(cfg, value) == value
    ensures cfg.sanitize ==>
      (SavedText(cfg, value) == StripTags(value)
       && NoTags(SavedText(cfg, value)) && IsSubsequence(SavedText(cfg, value), value))
  {
    if cfg.sanitize {
      StripTagsLeavesNoTag(value);
      StripTagsIsSubsequence(value);
    }
  }

  /** Enter commits a single-line control; a multi-line one commits only with
      Ctrl or Cmd held. */
  lemma EnterCommits(st: State, cfg: Config, ctrlOrMeta: bool)
    requires Valid(st) && st.active.Some?
    ensures Step(st, cfg, KeyEnter(ctrlOrMeta))
         == if !st.active.value.multiline || ctrlOrMeta then Commit(st, cfg) else st
  {
  }

  /** Only a commit of a non-empty value changes an element's text. */
  lemma OnlyCommitWritesText(st: State, cfg: Config, ev: Event)
    requires Valid(st) && Admissible(st, ev)
    requires Step(st, cfg, ev).elements != st.elements
    ensures ev.ClickSave? || ev.KeyEnter?
    ensures st.active.Some? && !AllSpace(st.active.value.control)
  {
    match ev
    case ClickSave =>
      if st.active.Some? && AllSpace(st.active.value.control) { CommitEmpty(st, cfg); }
    case KeyEnter(_) =>
      if st.active.Some? && AllSpace(st.active.value.control) { CommitEmpty(st, cfg); }
    case _ =>
  }

  // ---------------------------------------------------------------------------
  // Editing

  /** An input event takes the new value and clears the error flag exactly when
      that value is not all whitespace; otherwise the flag is kept as it was. */
  lemma EditClearsErrorOnlyWhenNonEmpty(st: State, value: string)
    requires st.active.Some?
    ensures var s := Edit(st, value).active.value;
      && s == st.active.value.(control := value, error := s.error)
      && (s.error <==> st.active.value.error && AllSpace(value))
  {
  }

  /** A resize or scroll places the open surface afresh and changes nothing else;
      the placement depends only on the latest measurements, so of two
      repositionings the second alone decides. */
  lemma RepositionPlacesAfresh(st: State, g: Geometry, g': Geometry)
    requires Valid(st) && st.active.Some?
    ensures Reposition(st, g).active == Some(st.active.value.(placement := PlaceAsWritten(g)))
    ensures Reposition(st, g).mounted == st.mounted
    ensures Reposition(Reposition(st, g), g') == Reposition(st, g')
  {
  }

  // ---------------------------------------------------------------------------
  // Callback protocol

  /** Where a run of callbacks stands: nothing yet, a session open for `el`, that
      session just closed (a cancel or a save may follow), or settled. */
  datatype Phase = Idle | Editing(el: ElementId) | Closed(el: ElementId) | Settled

  /** One callback read against the protocol `onOpen → onClose → [onCancel | onSave]`,
      with `None` for a violation. */
  function Advance(p: Option<Phase>, c: Callback): Option<Phase> {
    match p
    case None => None
    case Some(ph) =>
      match c
      case OnOpen(a) => if ph.Editing? then None else Some(Editing(a))
      case OnClose(a) => if ph == Editing(a) then Some(Closed(a)) else None
      case OnCancel(a) => if ph == Closed(a) then Some(Settled) else None
      case OnSave(a, _) => if ph == Closed(a) then Some(Settled) else None
  }

  function Monitor(t: seq<Callback>): Option<Phase> {
    if t == [] then Some(Idle) else Advance(Monitor(t[..|t| - 1]), t[|t| - 1])
  }

  lemma MonitorEmit(t: seq<Callback>, on: bool, c: Callback)
    ensures Monitor(Emit(t, on, c)) == if on then Advance(Monitor(t), c) else Monitor(t)
  {
    if on {
      assert (t + [c])[..|t|] == t;
    }
  }

  /** The trace follows the protocol, and it is in the middle of a session
      exactly when one is active, for that session's target. */
  predicate WellBracketed(st: State) {
    var m := Monitor(st.trace);
    && m.Some?
    && match st.active
       case None => !m.value.Editing?
       case Some(s) => m.value == Editing(s.target)
  }

  predicate AllHooks(cfg: Config) {
    cfg.hooks.onOpen && cfg.hooks.onClose && cfg.hooks.onSave && cfg.hooks.onCancel
  }

  lemma CloseKeepsBracketing(st: State, cfg: Config, from: Reason)
    requires Valid(st) && AllHooks(cfg) && WellBracketed(st)
    ensures WellBracketed(Close(st, cfg, from))
    ensures st.active.Some? ==>
      (Monitor(Close(st, cfg, from).trace)
       == Some(if from == CloseButton then Settled else Closed(st.active.value.target)))
  {
    match st.active
    case None =>
    case Some(s) =>
      var t := Emit(st.trace, cfg.hooks.onClose, OnClose(s.target));
      MonitorEmit(st.trace, cfg.hooks.onClose, OnClose(s.target));
      MonitorEmit(t, from == CloseButton && cfg.hooks.onCancel, OnCancel(s.target));
  }

  /** With every callback configured, each step keeps the protocol: callbacks of
      one session come as `onOpen → onClose → [onCancel | onSave]`, never
      interleaved with another session's. */
  lemma StepKeepsBracketing(st: State, cfg: Config, ev: Event)
    requires Valid(st) && Admissible(st, ev) && AllHooks(cfg) && WellBracketed(st)
    ensures WellBracketed(Step(st, cfg, ev))
  {
    match ev
    case ClickEditable(el, g) =>
      if !(st.active.Some? && st.active.value.target == el) {
        var closed := Close(st, cfg, NoReason);
        CloseKeepsBracketing(st, cfg, NoReason);
        MonitorEmit(closed.trace, cfg.hooks.onOpen, OnOpen(el));
      }
    case ClickOutside => CloseKeepsBracketing(st, cfg, NoReason);
    case KeyEscape => CloseKeepsBracketing(st, cfg, NoReason);
    case ClickCancel => CloseKeepsBracketing(st, cfg, CloseButton);
    case ClickSave => CommitKeepsBracketing(st, cfg);
    case KeyEnter(_) => CommitKeepsBracketing(st, cfg);
    case _ =>
  }

  lemma CommitKeepsBracketing(st: State, cfg: Config)
    requires Valid(st) && AllHooks(cfg) && WellBracketed(st)
    ensures WellBracketed(Commit(st, cfg))
  {
    match st.active
    case None =>
    case Some(s) =>
      if !AllSpace(s.control) {
        var e := st.elements[s.target];
        var written := st.(elements := st.elements[s.target := e.(text := SavedText(cfg, s.control))]);
        var closed := Close(written, cfg, NoReason);
        var r := closed.(trace := Emit(closed.trace, cfg.hooks.onSave, OnSave(s.target, s.control)));
        assert Commit(st, cfg) == r;
        CloseKeepsBracketing(written, cfg, NoReason);
        MonitorEmit(closed.trace, cfg.hooks.onSave, OnSave(s.target, s.control));
        assert Monitor(r.trace) == Some(Settled);
      }
  }

  /** From the initial state, any sequence of events yields a protocol-following
      trace. */
  lemma {:induction false} RunKeepsBracketing(st: State, cfg: Config, evs: seq<Event>)
    requires Valid(st) && AllAdmissible(st.elements.Keys, evs) && AllHooks(cfg) && WellBracketed(st)
    ensures WellBracketed(Run(st, cfg, evs))
    decreases |evs|
  {
    if evs != [] {
      var next := Step(st, cfg, evs[0]);
      StepKeepsBracketing(st, cfg, evs[0]);
      assert AllAdmissible(next.elements.Keys, evs[1..]) by {
        forall i | 0 <= i < |evs| - 1 && evs[1..][i].ClickEditable?
          ensures evs[1..][i].el in next.elements.Keys
        {
          assert evs[1..][i] == evs[i + 1];
        }
      }
      RunKeepsBracketing(next, cfg, evs[1..]);
    }
  }

  lemma InitialIsWellBracketed(elements: map<ElementId, Element>)
    ensures WellBracketed(Initial(elements))
  {
  }
}
