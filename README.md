# content-editable popover, modelled in Dafny

`content-editable.js` makes the elements matched by a selector editable
through a popover. Clicking such an element opens a popover under it. The
popover holds a text input, or a text area when the element has
`data-multiline="true"`, pre-filled with the element's text. It has two
buttons: a check button that saves and a close button that cancels. There is
at most one popover at a time per `initializeEditable` call. Saving writes the edited value into the
element as plain text. With the `sanitize` option the value's tags are
stripped first. An empty or all-whitespace value is refused and the control
is marked as erroneous. Four optional callbacks are reported along the way:
`onOpen`, `onClose`, `onSave` and `onCancel`. The popover is centred under
its target and flipped above the target when there is no room below it and
there is room above it. Its
left edge is clamped against the viewport width with an 8-pixel margin, but
the clamp is applied after the horizontal scroll offset has been added, so
on a page scrolled horizontally the popover can end up outside the visible
area (see "## Findings"). It is placed again on every window resize and
scroll.

The project has five modules, one per file:

- `Text` (`text.dfy`): the JavaScript whitespace class `\s` and
  `String.prototype.trim`. It also has the single-line pre-fill
  `innerText.replace(/\s+/g, " ").trim()` and the tag stripper
  `value.replace(/<[^>]+>/g, "")`, with their properties.
- `Escaping` (`escaping.dfy`): `escapeHtml` and `escapeAttr` as the
  source's chains of global replacements. Each chain is proved equal to a
  character-by-character escape. This module also holds the browser's reading
  of the five character references those escapers write. That reading makes
  the round trip provable: the control shows exactly the text that was
  escaped into the markup.
- `Positioning` (`positioning.dfy`): `positionPopover` over exact reals.
  It has the rule as written, which the controller uses, and a corrected
  horizontal clamp that only the lemmas comparing the two rules use (see
  "## Findings").
- `Popover` (`popover.dfy`): the controller as a transition system over
  values. A `State` holds:
  - the elements' text;
  - the active session (target, surface, editing mode, control value,
    error flag, placement);
  - the surfaces attached to the document;
  - whether the window listeners are registered;
  - the trace of user callbacks.

  Each listener of the source is a transition, and `Step` routes events to
  them. The lemmas state what each transition does and that every step keeps
  two properties: at most one surface and, when all four callbacks are
  configured, callbacks that follow the protocol
  `onOpen → onClose → [onCancel | onSave]`.
- `Controller` (`controller.dfy`): the same controller as the source
  builds it, a closure whose `activePopover` variable and document are
  updated in place. This is the class `Editor`. Its methods run the source's
  statements in the source's order, and each is proved to move the object
  from `old(Snapshot())` to the state the matching `Popover` transition
  computes. So every property proved in `Popover` holds of the object.

## Model

| member | source | states |
|---|---|---|
| Text.LeadingSpaceSpec | content-editable.js:93 | the count of leading characters `trim` drops is the longest all-whitespace prefix: all of it is whitespace and the next character is not |
| Text.TrailingSpaceSpec | content-editable.js:93 | likewise for the longest all-whitespace suffix |
| Text.Trim | content-editable.js:93 | `String.prototype.trim`: the text without its longest all-whitespace prefix and suffix (its properties are the `Trim…` lemmas) |
| Text.IsSpace | content-editable.js:93 | the JavaScript class `\s`, which is also what `trim` removes (lines 93, 149, 207): the ECMAScript WhiteSpace characters (tab, vertical tab, form feed, space, no-break space, the byte-order mark and the other Zs characters) and LineTerminator characters (LF, CR, U+2028, U+2029) |
| Text.TrimSpec | content-editable.js:93 | `trim()` is empty exactly when the text is all whitespace; otherwise it starts and ends with a non-whitespace character |
| Text.TrimEmpty | content-editable.js:207 | the test `value.trim() === ""` holds exactly when the value is all whitespace, in both directions |
| Text.TrimEnds | content-editable.js:93 | a non-empty trimmed text neither starts nor ends with whitespace |
| Text.TrimIsSlice | content-editable.js:93 | `trim()` keeps a contiguous middle of the text and drops only whitespace before and after it |
| Text.CollapseSpaceRuns | content-editable.js:93 | `replace(/\s+/g, " ")`: each maximal run of whitespace becomes one space |
| Text.CollapseLine | content-editable.js:91-93 | the single-line pre-fill `innerText.replace(/\s+/g, " ").trim()` |
| Text.CollapseSpaceRunsSpec | content-editable.js:93 | `replace(/\s+/g, " ")` is empty only for empty input; its first character is a space when the input starts with whitespace, and the input's first character otherwise; its only whitespace is the plain space, and no two whitespace characters are adjacent |
| Text.CollapseRunsKeepsText | content-editable.js:93 | collapsing whitespace runs keeps every non-whitespace character, in order |
| Text.CollapseLineEnds | content-editable.js:91-93 | the single-line pre-fill is empty exactly when the element's text is all whitespace, and otherwise has no whitespace at either end |
| Text.CollapseLineSpaces | content-editable.js:91-93 | inside the single-line pre-fill every whitespace character is a plain space and no two are adjacent |
| Text.CollapseLineKeepsText | content-editable.js:91-93 | the single-line pre-fill keeps the element's non-whitespace characters, in order |
| Text.LeadingSpaceAppend | content-editable.js:93 | when a text has a visible character, appending anything leaves the whitespace `trim` drops at its front unchanged |
| Text.TrailingSpaceAppend | content-editable.js:93 | when a text has a visible character, prepending anything leaves the whitespace `trim` drops at its end unchanged |
| Text.CollapseSpaceRunsLast | content-editable.js:93 | the collapsed text ends with a space when the text ends with whitespace, and with the text's last character otherwise |
| Text.CollapseSpaceRunsOfWord | content-editable.js:93 | a text without whitespace passes through `replace(/\s+/g, " ")` unchanged |
| Text.CollapseLineOfWord | content-editable.js:91-93 | a text without whitespace is its own single-line pre-fill |
| Text.CollapseSpaceRunsSplit | content-editable.js:93 | a text ending in a visible character is collapsed on its own, whatever follows: no whitespace run crosses its end |
| Text.CollapseRunFront | content-editable.js:93 | a whitespace run followed by a visible character, or by nothing, becomes exactly one space |
| Text.CollapseSpaceRunsJoin | content-editable.js:93 | a whitespace run between a visible last character and a visible first character becomes exactly one space, and each side is collapsed as it would be alone |
| Text.TrimStartAppend | content-editable.js:93 | trimming the front of a text with a visible character and then appending equals trimming the front of the whole |
| Text.TrimEndPrepend | content-editable.js:93 | trimming the end of a text whose tail has a visible character only touches the tail |
| Text.TrimJoin | content-editable.js:93 | `trim` of two texts joined by one space, with visible characters on both sides of it, is the two trimmed texts joined by that space |
| Text.CollapseLineJoin | content-editable.js:91-93 | in the single-line pre-fill, whitespace between two visible characters becomes exactly one space and each side reads as its own pre-fill |
| Text.NonSpaceEmpty | content-editable.js:93 | a text has no visible character exactly when it is all whitespace |
| Text.FirstClose | content-editable.js:215 | the index returned is the first `>` or the end of the text: every character before it is not `>` |
| Text.TagLength | content-editable.js:215 | the length of the match of `<[^>]+>` tried at the start of the text, or 0 when it fails there; never more than the text |
| Text.TagLengthIsMatch | content-editable.js:215 | at any position at most one prefix matches `<[^>]+>`, and `TagLength` is its length, or 0 when none matches |
| Text.StripTags | content-editable.js:215 | `replace(/<[^>]+>/g, "")`: scanning left to right, each match is deleted; where the match fails one character is kept |
| Text.StripTagsIsSubsequence | content-editable.js:213-216 | the stripper only deletes characters: the result is a subsequence of the value |
| Text.StripTagsKeepsHead | content-editable.js:215 | a first character other than `<` is kept at the front of the result |
| Text.StripTagsKeepsPlain | content-editable.js:215 | a stretch of text without `<` is copied through unchanged, whatever follows it |
| Text.StripTagsDropsTag | content-editable.js:215 | a complete tag at the front is deleted and stripping resumes right after it |
| Text.StripTagsLeavesNoTag | content-editable.js:213-216 | the stripped text contains no match of `<[^>]+>` at any position |
| Text.StripTagsFixesTagFree | content-editable.js:215 | text without a match passes through unchanged |
| Text.StripTagsIdempotent | content-editable.js:213-216 | stripping twice gives the same as stripping once |
| Text.StripTagsExample | content-editable.js:213-216 | `"<b>Hi</b> there"` is saved as `"Hi there"` |
| Text.StripTagsKeepsEmptyTag | content-editable.js:215 | a `"<>"` at the front survives the stripper, whatever follows, and stripping goes on after it: `[^>]+` needs at least one character |
| Text.EmptyTagAt | content-editable.js:215 | at a `<` followed by `>` the match fails, both characters are kept and the scan resumes after them |
| Text.StripTagsOverreaches | content-editable.js:215 | `"a<b and c>d"` becomes `"ad"`: text between a `<` and a later `>` is lost even when it is not markup |
| Escaping.ReplaceAll | content-editable.js:267-270 | a global replacement of a character that does not occur returns the text unchanged |
| Escaping.ReplaceAllChars | content-editable.js:267-270 | the result of a global replacement holds only characters of the input other than the replaced one, or characters of the replacement |
| Escaping.ReplaceAllAppend | content-editable.js:267-270 | a global replacement of one character distributes over concatenation |
| Escaping.EscapeHtml | content-editable.js:266-271 | `escapeHtml`: global replacements of `&`, then `<`, then `>` (see `EscapeHtmlPerChar`) |
| Escaping.EscapeAttr | content-editable.js:273-280 | `escapeAttr`: global replacements of `&`, `"`, `'`, `<`, `>`, in that order (see `EscapeAttrPerChar`) |
| Escaping.EscapeHtmlAppend | content-editable.js:266-271 | `escapeHtml` distributes over concatenation |
| Escaping.EscapeAttrAppend | content-editable.js:273-280 | `escapeAttr` distributes over concatenation |
| Escaping.EscapeHtmlOne | content-editable.js:266-271 | on one character `escapeHtml` yields `&amp;`, `&lt;` or `&gt;` for `&`, `<`, `>`, and the character itself otherwise |
| Escaping.EscapeAttrOne | content-editable.js:273-280 | on one character `escapeAttr` yields `&amp;`, `&quot;`, `&#39;`, `&lt;` or `&gt;` for `&`, `"`, `'`, `<`, `>`, and the character itself otherwise |
| Escaping.EscapeHtmlPerChar | content-editable.js:266-271 | the three chained replacements equal a character-by-character escape, so `&` is never escaped twice |
| Escaping.EscapeAttrPerChar | content-editable.js:273-280 | the five chained replacements equal a character-by-character escape |
| Escaping.EscapeHtmlHasNoDelimiters | content-editable.js:103-107 | the escaped text contains no `<` and no `>`, so it cannot close the text area or open markup |
| Escaping.EscapeAttrHasNoDelimiters | content-editable.js:110-113 | the escaped text contains no `"`, `'`, `<` or `>`, so it cannot leave the `value` attribute |
| Escaping.Decode | content-editable.js:103-113 | the browser's reading of the escaped markup, restricted to the five references the escapers write; every other character stands for itself |
| Escaping.DecodeEntity | content-editable.js:273-280 | each reference the escapers write is read back as the character it stands for |
| Escaping.DecodeAttrEscaped | content-editable.js:273-280 | reading the character-by-character attribute escape gives back the text |
| Escaping.DecodeHtmlEscaped | content-editable.js:266-271 | reading the character-by-character text escape gives back the text |
| Escaping.EscapeHtmlRoundTrip | content-editable.js:103-107 | the text area shows exactly the text escaped into it, up to the HTML parser's newline and NUL normalisation, which is not modelled |
| Escaping.EscapeAttrRoundTrip | content-editable.js:110-113 | the input's value is exactly the text escaped into its attribute, up to the HTML parser's newline and NUL normalisation, which is not modelled |
| Positioning.ClampLeft | content-editable.js:244-246 | a popover that fits ends a margin inside both viewport edges; a wider one ends at `vw - width - 8`, left of the margin; a position already inside that band is kept; one left of the margin becomes exactly 8 when the popover fits; one overflowing the right edge becomes exactly `vw - width - 8` |
| Positioning.PlaceAsWritten | content-editable.js:233-264 | `positionPopover` as written: the centred position plus `scrollX`, clamped against the viewport width; `top` a margin below the target, or above it when flipped |
| Positioning.PlaceAsWrittenHorizontal | content-editable.js:237-246 | the horizontal rule as written, applied to the start position `scrollX + rect.left + (rect.width - popWidth) / 2`: a fitting popover lands in `[8, vw - width - 8]`, a wider one at `vw - width - 8`; a start inside that band is kept, one left of it becomes exactly 8 when the popover fits, and one overflowing the right edge becomes exactly `vw - width - 8` |
| Positioning.PlaceVertical | content-editable.js:237-258 | under the rule as written, whose vertical part the corrected rule shares, the popover goes above exactly when it overflows below and fits above; `top` is then a margin above the target, otherwise a margin below it |
| Positioning.PlaceStaysInViewport | content-editable.js:238-246 | with the corrected clamp, a popover that fits stays a margin inside the visible viewport at any horizontal scroll |
| Positioning.PlaceAgreesWithoutHorizontalScroll | content-editable.js:238-246 | without horizontal scrolling the corrected rule and the rule as written agree |
| Positioning.PlaceAsWrittenLeavesViewport | content-editable.js:238-246 | with the page scrolled by 1000 in an 800-wide viewport, the rule as written puts a fitting popover at page x 592, off the visible area; the corrected rule keeps it at viewport x 50 |
| Positioning.FlipExample | content-editable.js:250-258 | a 100-high popover under a target whose bottom is at 500 in a 568-high viewport is placed above it, 108 above the target's top |
| Popover.InitialIsValid | content-editable.js:35-42 | after initialisation there is no session, no surface and no window listener |
| Popover.InitialIsWellBracketed | content-editable.js:35-42 | the empty callback trace follows the protocol |
| Popover.Close | content-editable.js:184-203 | closing keeps the invariant, leaves no session, keeps the elements' text and only appends to the trace |
| Popover.Current | content-editable.js:88-93 | the text the editor starts from: the raw text when multi-line, the single-line pre-fill otherwise |
| Popover.InitialControl | content-editable.js:103-117 | the control's initial value: the browser's reading of the markup, that is the text-area content built with `escapeHtml` when multi-line, or the input's `value` attribute built with `escapeAttr` otherwise |
| Popover.InitialControlShowsText | content-editable.js:87-117 | the control opens showing exactly the element's current text: the raw text when multi-line, the collapsed and trimmed text when single-line (the HTML parser's newline and NUL normalisation is not modelled) |
| Popover.Open | content-editable.js:68-182 | opening keeps the invariant, leaves a session for the clicked element, keeps the text and only appends to the trace |
| Popover.Mount | content-editable.js:75-181 | mounting on a state without a session leaves a session for the element, placed by the rule as written, keeping the invariant and the text |
| Popover.Commit | content-editable.js:205-231 | a commit keeps the invariant and the set of elements, and only appends to the trace |
| Popover.Step | content-editable.js:44-66 | every event keeps the invariant (one surface and the listeners exactly while a session is active) and the set of elements |
| Popover.Run | content-editable.js:44-182 | after any sequence of events one `initializeEditable` call has at most one popover surface attached |
| Popover.OpenSameIsNoop | content-editable.js:70 | clicking the element that owns the session changes nothing, including its unsaved edits |
| Popover.CloseTrace | content-editable.js:184-203 | closing appends exactly the close path's callbacks to the trace |
| Popover.OpenOther | content-editable.js:68-182 | clicking another element starts a session for it, on a surface never used before that is now the only one attached, showing its text, in its editing mode, without error, placed by the rule as written, with the listeners registered |
| Popover.OpenTrace | content-editable.js:68-78 | opening another element runs the previous session's close path without a cancel, then `onOpen` |
| Popover.OpenNeverCancels | content-editable.js:68-78 | opening reports only `onClose` and `onOpen` |
| Popover.CloseWithoutSessionIsNoop | content-editable.js:185 | closing without a session does nothing |
| Popover.CloseSession | content-editable.js:184-203 | closing a session detaches its surface and the listeners, keeps the text, and reports `onClose` and then, only from the close button, `onCancel`, both for the target |
| Popover.EscapeAndBlurNeverCancel | content-editable.js:53-66 | Escape and a click outside report at most `onClose`, never `onCancel`, and change no text |
| Popover.EscapeAndBlurClose | content-editable.js:53-66 | Escape closes an open session; a click outside closes it exactly when `closeOnBlur` is set |
| Popover.CancelButtonReportsCloseThenCancel | content-editable.js:137-140 | the close button closes the session and reports `onClose` then `onCancel` |
| Popover.OnlyCancelButtonCancels | content-editable.js:196-202 | no event other than the close button ever reports `onCancel` |
| Popover.CommitEmpty | content-editable.js:206-212 | an all-whitespace value changes no text, keeps the session and surface, reports nothing, and marks the control as erroneous |
| Popover.CommitNonEmpty | content-editable.js:213-231 | any other value is written into the target, the session closes, and `onClose` then `onSave` with the raw value are reported |
| Popover.CommitNeverCancels | content-editable.js:205-231 | a commit reports only `onClose` and `onSave` |
| Popover.CommitWithoutSessionIsNoop | content-editable.js:205-212 | without a session a commit does nothing |
| Popover.SavedText | content-editable.js:213-220 | the text a save writes: the raw value, or the tag-stripped value with `sanitize` |
| Popover.SavedTextSpec | content-editable.js:213-220 | without `sanitize` the raw value is written; with it, the stripped value, which contains no tag and is a subsequence of the value |
| Popover.EnterCommits | content-editable.js:154-170 | Enter commits a single-line control; a multi-line control commits only with Ctrl or Cmd held |
| Popover.OnlyCommitWritesText | content-editable.js:205-220 | an event that changes an element's text is a save click or Enter with a value that is not all whitespace |
| Popover.Edit | content-editable.js:147-152 | the control's `input` listener: the session takes the new value and drops its error mark when the value is not all whitespace |
| Popover.EditClearsErrorOnlyWhenNonEmpty | content-editable.js:147-152 | input takes the new value and the error mark is removed exactly when the value is not all whitespace; otherwise it is kept |
| Popover.Reposition | content-editable.js:172-175 | the window's `reposition` listener: an open session is placed again by the rule as written; without one nothing changes |
| Popover.RepositionPlacesAfresh | content-editable.js:172-175 | a resize or scroll places the open surface again by the rule as written and changes nothing else; the placement depends only on the latest measurements, so of two repositionings the second alone decides |
| Popover.CloseKeepsBracketing | content-editable.js:184-203 | when all four callbacks are configured, closing keeps the callback protocol, leaving it after `onClose`, or settled after `onCancel` |
| Popover.CommitKeepsBracketing | content-editable.js:225-230 | when all four callbacks are configured, a successful commit settles the protocol with `onClose` then `onSave` |
| Popover.StepKeepsBracketing | content-editable.js:44-231 | with every callback configured, each event keeps the trace in the protocol `onOpen → onClose → [onCancel or onSave]`, with no interleaving between sessions |
| Popover.RunKeepsBracketing | content-editable.js:44-231 | with every callback configured, the protocol holds after any sequence of events |
| Controller.Editor.constructor | content-editable.js:22-42 | the controller starts in the initial state, which satisfies the invariant |
| Controller.Editor.ClosePopover | content-editable.js:184-203 | `closePopover(from)` updates the object exactly as `Close` does and keeps the invariant |
| Controller.Editor.OpenPopoverFor | content-editable.js:68-73 | `openPopoverFor(el)` updates the object exactly as `Open` does |
| Controller.Editor.MountPopover | content-editable.js:75-181 | the rest of `openPopoverFor` updates the object exactly as `Mount` does |
| Controller.Editor.ApplyAndClose | content-editable.js:205-231 | `applyAndClose` updates the object exactly as `Commit` does, with the source's `trim()` test |
| Controller.Editor.OnInput | content-editable.js:147-152 | the control's input listener updates the object exactly as `Edit` does |
| Controller.Editor.OnResizeOrScroll | content-editable.js:172-175 | the `reposition` listener updates the object exactly as `Reposition` does |
| Controller.Editor.HandleEvent | content-editable.js:44-66 | the document and popover listeners update the object exactly as `Step` does |

## Left out

- The DOM itself is not modelled:
  - the popover's markup, classes, ARIA attributes and SVG icons;
  - the `ce-editable` class and `data-ce-editable` attribute set at initialisation;
  - the `ce-popover-above` class (it appears as the `above` flag of a placement).
- Focus and caret placement (`control.focus()`, `setCaretToEnd`) are left out. They change no state the model tracks.
- `flashElement` and the `showFlashOnSave` and `flashElementColor` options are left out. They are a timed cosmetic effect.
- The `placeholder` option is left out. It is put into the control's start tag unescaped (lines 105 and 111). The model assumes it contains no `"`. A `"` in it could add a second `value` attribute, end the tag early, or drop the input's `type` attribute, so that `querySelector` at lines 127-129 finds no control. `Popover.InitialControlShowsText` and `Popover.OpenOther` (the control showing the element's text) rely on this assumption.
- The selector is assumed to match no node inside the popover. `Popover.Step` treats a click inside the popover as changing nothing. A selector such as `div` would match the popover's own `.row` at line 46, and the source would then close the popover and open a new one for that node.
- Several `initializeEditable` calls on one page are not modelled. Each call has its own `activePopover` (line 36) and its own document click listener (line 44), so nothing limits them to one popover between them. For example, with `closeOnBlur` off, a click on an element of the second call leaves the first call's popover open. The one-popover invariant is stated per call.
- Option resolution at lines 23-33 is not modelled. The model takes resolved options: `sanitize`, `closeOnBlur`, and whether each callback is a function.
- The random `_id` is left out. It names DOM ids and attributes only.
- Callbacks are recorded in a trace with their arguments. What they do, and any exception they throw, is not modelled.
- Listener registration is modelled as one `listening` flag. It covers the window's resize and scroll listeners. The control's and buttons' listeners live and die with the surface.
- `preventDefault` and `stopPropagation` are left out. The event routing in `Popover.Step` already treats a button click as only that button's click.
- Numbers are exact reals, not IEEE doubles. Measurements are parameters of a `Geometry` value.
- Strings are sequences of characters, not UTF-16 code units.
- `innerText`'s own normalisation of rendered text is not modelled. Neither is the browser's dropping of a leading newline in a `<textarea>`.
- Escaping.Decode: reads back only the five references the escapers write (`&amp;`, `&lt;`, `&gt;`, `&quot;`, `&#39;`), not the whole HTML character-reference grammar. These five are all that escaped text contains.
- Escaping.Decode: the HTML parser also turns CR and CRLF into LF and NUL into U+FFFD in text-area content and attribute values. This is not modelled, so the round trips `EscapeHtmlRoundTrip`, `EscapeAttrRoundTrip` and `InitialControlShowsText` hold only for text without CR or NUL in a real browser.
- Controller.Editor.ClosePopover, and the other `Editor` methods: the object's fields hold values, so the identities of DOM nodes, and aliasing between them, are not modelled.
- The callback order follows the code: a successful save reports `onClose` before `onSave` (lines 225-230). It is not `onSave` in place of `onClose`.
- A popover wider than the viewport is not pinned at 8: the second guard of the horizontal clamp wins and sets `left = vw - width - 8`. See `Positioning.ClampLeft`.
- Popover.RunKeepsBracketing, and the other `…KeepsBracketing` lemmas: they assume all four callbacks are configured. With some of them missing, the reported trace is the protocol with those callbacks filtered out, and that filtered form is not stated.

## Findings

| source | as written | input that shows it | evidently intended | confidence | as-written member | corrected member |
|---|---|---|---|---|---|---|
| content-editable.js:238-246 | `left` is made a page coordinate (`scrollX` added) before it is clamped against the viewport width `clientWidth` | page scrolled horizontally by 1000 in an 800-wide viewport; a 200-wide popover under a 100-wide target at viewport x 100 is put at page x 592, 408 pixels left of the visible area | clamp the viewport-relative position into `[8, vw - width - 8]`, then add `scrollX` | high; not executed | Positioning.PlaceAsWrittenLeavesViewport | Positioning.PlaceStaysInViewport |
