# Collapsible experience timeline

This project models the collapsible experience timeline of a static
portfolio page. The page holds a fixed, ordered list of timeline items (the
`.timeline-content` nodes found when the page has loaded). Each item either
carries the CSS class `collapsed` or does not. Four handlers change those
classes:

- a click on an item's expand button collapses every other item and then
  flips the clicked item;
- a click on an item's header, away from its expand button, clicks that
  button;
- a click anywhere in the document whose target lies outside every item
  collapses all items;
- a window resize re-adds `collapsed` to items that already carry it, which
  changes nothing.

The DOM is abstracted away. The item list is an array of flags, with `true`
meaning "carries `collapsed`". "Target inside the expand button" and "target
inside some timeline item" are boolean parameters of the handlers.

Two modules:

- `TimelineState` (timeline_state.dfy) states the behaviour on values. It has
  the event type, `Toggled` (a button click), `Step` (any one event), `Run`
  (a sequence of events), the invariant `AtMostOneExpanded`, and the lemmas.
- `Timeline` (timeline.dfy) holds the class `TimelineWidget`. Each handler is
  a method that loops over the array in place, and each method's
  postcondition equates the new array with `Step` of the old one.

The main guarantee: after any button click at most one item is expanded,
whatever the state before. The other handlers keep that invariant. So on any
page whose markup expands at most one item, every run of events keeps it
too. The page never collapses items at load; the starting flags are the
markup's.

## Model

| member | source | states |
|---|---|---|
| `Timeline.TimelineWidget.constructor` | js/script.js:3 | The item list is fixed once at load, with the flags the markup gives. |
| `Timeline.TimelineWidget.ClickButton` | js/script.js:8-27 | The loop collapses every item except `i`, then `i` flips. The new array is `Toggled(old array, i)`, and at most one item is expanded afterwards. |
| `Timeline.TimelineWidget.ClickHeader` | js/script.js:34-42 | A header click off the button with a button in the header does what `ClickButton(i)` does; otherwise nothing changes. |
| `Timeline.TimelineWidget.ClickDocument` | js/script.js:47-54 | A click whose target is outside every item leaves every item collapsed; a click inside an item changes nothing. |
| `Timeline.TimelineWidget.Resize` | js/script.js:57-68 | At every width, including widths up to 768, every flag is what it was. |
| `TimelineState.Step` | js/script.js:8-68 | The effect of one handler on the flags, keeping the number of items. Each class method is proved equal to it. |
| `TimelineState.Run` | js/script.js:2-68 | Events handled one after another, in order, keeping the number of items. |
| `TimelineState.Resized` | js/script.js:57-68 | At widths up to 768, every collapsed item gets `collapsed` again; wider windows are left alone. Keeps the number of items. |
| `TimelineState.Toggled` | js/script.js:11-26 | After a button click on `i`, every other item is collapsed and `i` holds the negation of its old flag. |
| `TimelineState.AtMostOneIffCount` | js/script.js:15-26 | "No two items expanded" holds exactly when the number of expanded items is at most one. |
| `TimelineState.ToggleLeavesAtMostOne` | js/script.js:11-26 | From any state, a button click leaves at most one item expanded. |
| `TimelineState.ToggleExpandsIffWasCollapsed` | js/script.js:12-26 | Item `i` is expanded after its click exactly when it was collapsed before. The count of expanded items is then 1, and otherwise 0. |
| `TimelineState.ToggleTwice` | js/script.js:12-26 | Two clicks on the same button collapse all other items and restore `i`'s flag. From all-collapsed they change nothing. |
| `TimelineState.ToggleThenOther` | js/script.js:15-26 | Clicking `i` then a different `k` leaves only `k` expanded and `i` collapsed, whatever the state before. |
| `TimelineState.HeaderClickDelegates` | js/script.js:36-40 | A header click off the button equals the button click. A click on the button itself, or a header without a button, adds no toggle. |
| `TimelineState.HeaderClickThenDocument` | js/script.js:36-53 | The header handler clicks the button. The click then reaches the document handler with its target inside the item. Together they equal the button click. |
| `TimelineState.DocumentClickCollapses` | js/script.js:48-53 | An outside click collapses every item (expanded count 0) and is idempotent. A click inside an item is a no-op for this handler. |
| `TimelineState.ResizeChangesNothing` | js/script.js:59-66 | The conditional re-add of `collapsed` gives back the same flags, at every width. |
| `TimelineState.StepPreservesAtMostOne` | js/script.js:8-68 | Each handler keeps the invariant that at most one item is expanded. |
| `TimelineState.RunPreservesAtMostOne` | js/script.js:8-68 | Every sequence of events from a state with at most one expanded item keeps at most one expanded, both pairwise and by count. |
| `TimelineState.ThreeItemScenario` | js/script.js:8-54 | From three collapsed items: click 1 expands it; click 2 leaves only 2 expanded; an outside click collapses all. |

Notes on the source:

- The header handler tests two things: whether the target has class
  `expand-btn`, and whether `closest('.expand-btn')` finds something.
  `closest` includes the element itself, so the second test covers the
  first. The model keeps one flag, "target is the button or inside it".
- `ClickHeader` is the header's own handler. When the target is inside the
  button, the button's handler runs on its own event; that is
  `ClickButton`, not a second toggle.

## Left out

- Event propagation: the bubbling of a click from a button or header to the
  document, and `stopPropagation` (js/script.js:9). Each handler is modelled
  on its own. The host environment decides which handlers an event reaches.
- The touch handlers on item details (js/script.js:71-87). They only stop
  propagation, based on layout heights, and change no flag.
- The DOM lookups `querySelectorAll`, `querySelector` and `closest`. These
  become item indexes and boolean parameters. The model assumes every expand
  button lies inside a timeline item. A button outside every item would make
  the source's handler fail on a null lookup; that case is not modelled.
- The rest of js/script.js (mobile menu, smooth scrolling, ripple effect,
  footer year, simulated form submission, load animations, lines 90-201).
  These are independent cosmetic bindings, timers, the clock and layout
  measurements, with no state of the timeline.
