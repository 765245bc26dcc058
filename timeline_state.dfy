/**
 * The collapsible experience timeline as a state machine over values.
 *
 * The page holds a fixed, ordered list of timeline items (the nodes with
 * class `timeline-content`). The only state an item has is whether it
 * carries the `collapsed` class; a state of the whole timeline is therefore
 * a `seq<bool>` in page order, where `true` means collapsed and `false`
 * means expanded. Each event handler of the timeline is one transition of
 * `Step`; the class in module `Timeline` performs the same transitions in
 * place on an array and is proved against these functions.
 */
module TimelineState {

  /** The events the timeline's handlers react to. */
  datatype Event =
      /** A click on the expand button of item `item`. */
    | ButtonClick(item: nat)
      /** A click on the header of item `item`; `targetInButton` tells whether
          the clicked element is the header's expand button or lies inside it,
          and `headerHasButton` whether the header contains an expand button. */
    | HeaderClick(item: nat, targetInButton: bool, headerHasButton: bool)
      /** A click that reaches the document; `targetInsideItem` tells whether
          the clicked element lies inside some timeline item. */
    | DocumentClick(targetInsideItem: bool)
      /** A window resize, with the new inner width of the window. */
    | WindowResize(innerWidth: int)

  /** An event that names an item names one of the `n` items on the page. */
  predicate ValidEvent(e: Event, n: nat) {
    match e
    case ButtonClick(i) => i < n
    case HeaderClick(i, _, _) => i < n
    case DocumentClick(_) => true
    case WindowResize(_) => true
  }

  predicate ValidEvents(evs: seq<Event>, n: nat) {
    forall k :: 0 <= k < |evs| ==> ValidEvent(evs[k], n)
  }

  /** Widths up to this one count as a mobile layout in the resize handler. */
  const MobileMaxWidth: int := 768

  /** The state in which every one of `n` items is collapsed. */
  function AllCollapsed(n: nat): (r: seq<bool>) {
    seq(n, _ => true)
  }

  predicate IsAllCollapsed(s: seq<bool>) {
    forall j :: 0 <= j < |s| ==> s[j]
  }

  /** The timeline's invariant: no two items are expanded at once. */
  predicate AtMostOneExpanded(s: seq<bool>) {
    forall j, k :: 0 <= j < k < |s| ==> s[j] || s[k]
  }

  /** The number of expanded items. */
  function ExpandedCount(s: seq<bool>): (r: nat) {
    if s == [] then 0 else (if s[0] then 0 else 1) + ExpandedCount(s[1..])
  }

  /**
   * The expand button of item `i` is clicked: every other item is
   * collapsed, then item `i` is collapsed if it was expanded and expanded
   * if it was collapsed.
   */
  function Toggled(s: seq<bool>, i: nat): (r: seq<bool>)
    requires i < |s|
    ensures |r| == |s|
    ensures r[i] == !s[i]
    ensures forall j :: 0 <= j < |s| && j != i ==> r[j]
  {
    AllCollapsed(|s|)[i := !s[i]]
  }

  /**
   * The window is resized to `width`: on a narrow window every item that
   * carries `collapsed` is given `collapsed` again.
   */
  function Resized(s: seq<bool>, width: int): (r: seq<bool>)
    ensures |r| == |s|
  {
    if width <= MobileMaxWidth then
      seq(|s|, j requires 0 <= j < |s| => if s[j] then true else s[j])
    else
      s
  }

  /** The effect of one event on the timeline. */
  function Step(s: seq<bool>, e: Event): (r: seq<bool>)
    requires ValidEvent(e, |s|)
    ensures |r| == |s|
  {
    match e
    case ButtonClick(i) => Toggled(s, i)
    case HeaderClick(i, inButton, hasButton) =>
      if !inButton && hasButton then Toggled(s, i) else s
    case DocumentClick(inside) =>
      if inside then s else AllCollapsed(|s|)
    case WindowResize(w) => Resized(s, w)
  }

  /** The effect of a sequence of events, in order. */
  function Run(s: seq<bool>, evs: seq<Event>): (r: seq<bool>)
    requires ValidEvents(evs, |s|)
    ensures |r| == |s|
    decreases |evs|
  {
    if evs == [] then s else Run(Step(s, evs[0]), evs[1..])
  }

  // ---------------------------------------------------------------------
  // Counting the expanded items

  lemma {:induction false} NoneExpandedIffCountZero(s: seq<bool>)
    ensures IsAllCollapsed(s) <==> ExpandedCount(s) == 0
  {
    if s != [] {
      NoneExpandedIffCountZero(s[1..]);
      assert forall j :: 1 <= j < |s| ==> s[j] == s[1..][j - 1];
    }
  }

  /** The pairwise form of the invariant and the counting form agree. */
  lemma {:induction false} AtMostOneIffCount(s: seq<bool>)
    ensures AtMostOneExpanded(s) <==> ExpandedCount(s) <= 1
  {
    if s != [] {
      var t := s[1..];
      AtMostOneIffCount(t);
      NoneExpandedIffCountZero(t);
      assert forall j :: 1 <= j < |s| ==> s[j] == t[j - 1];
      if AtMostOneExpanded(s) {
        assert AtMostOneExpanded(t) by {
          forall j, k | 0 <= j < k < |t| ensures t[j] || t[k] {
            assert s[j + 1] || s[k + 1];
          }
        }
        if !s[0] {
          forall j | 0 <= j < |t| ensures t[j] {
            assert s[0] || s[j + 1];
          }
        }
      } else {
        var j, k :| 0 <= j < k < |s| && !s[j] && !s[k];
        if j == 0 {
          assert !t[k - 1];
        } else {
          assert !t[j - 1] && !t[k - 1];
        }
      }
    }
  }

  // ---------------------------------------------------------------------
  // The expand button

  /**
   * Whatever the state before, a button click leaves at most one item
   * expanded: the click establishes the invariant rather than assuming it.
   */
  lemma ToggleLeavesAtMostOne(s: seq<bool>, i: nat)
    requires i < |s|
    ensures AtMostOneExpanded(Toggled(s, i))
    ensures ExpandedCount(Toggled(s, i)) <= 1
  {
    AtMostOneIffCount(Toggled(s, i));
  }

  /** Item `i` is expanded after its button click exactly when it was collapsed. */
  lemma ToggleExpandsIffWasCollapsed(s: seq<bool>, i: nat)
    requires i < |s|
    ensures !Toggled(s, i)[i] <==> s[i]
    ensures ExpandedCount(Toggled(s, i)) == (if s[i] then 1 else 0)
  {
    var r := Toggled(s, i);
    AtMostOneIffCount(r);
    NoneExpandedIffCountZero(r);
  }

  /**
   * Two clicks on the same button collapse every other item and give item
   * `i` back its old state; from the all-collapsed state they change nothing.
   */
  lemma ToggleTwice(s: seq<bool>, i: nat)
    requires i < |s|
    ensures Toggled(Toggled(s, i), i) == AllCollapsed(|s|)[i := s[i]]
    ensures IsAllCollapsed(s) ==> Toggled(Toggled(s, i), i) == s
  {
  }

  /**
   * A click on the button of item `i` and then on that of another item `k`
   * leaves `k` the only expanded item, whatever the state before: it is the
   * same as clicking `k` with everything collapsed.
   */
  lemma ToggleThenOther(s: seq<bool>, i: nat, k: nat)
    requires i < |s| && k < |s| && i != k
    ensures Toggled(Toggled(s, i), k) == Toggled(AllCollapsed(|s|), k)
    ensures !Toggled(Toggled(s, i), k)[k] && Toggled(Toggled(s, i), k)[i]
  {
  }

  // ---------------------------------------------------------------------
  // Header clicks, clicks elsewhere, resizes

  /**
   * A header click away from the expand button is that button's click; a
   * header click on the button (which the button handles itself) or on a
   * header without a button changes nothing through the header handler.
   */
  lemma HeaderClickDelegates(s: seq<bool>, i: nat, inButton: bool, hasButton: bool)
    requires i < |s|
    ensures !inButton && hasButton ==>
              Step(s, HeaderClick(i, inButton, hasButton)) == Step(s, ButtonClick(i))
    ensures inButton || !hasButton ==> Step(s, HeaderClick(i, inButton, hasButton)) == s
  {
  }

  /**
   * A whole header click away from the button, with a button in the header:
   * the header handler clicks the button, and the click then reaches the
   * document handler with its target inside the item, which changes
   * nothing. Together they are the button click.
   */
  lemma HeaderClickThenDocument(s: seq<bool>, i: nat)
    requires i < |s|
    ensures Step(Step(s, HeaderClick(i, false, true)), DocumentClick(true)) == Toggled(s, i)
  {
  }

  /**
   * A click outside every item collapses all items and is idempotent; a
   * click inside an item changes nothing through the document handler.
   */
  lemma DocumentClickCollapses(s: seq<bool>)
    ensures IsAllCollapsed(Step(s, DocumentClick(false)))
    ensures ExpandedCount(Step(s, DocumentClick(false))) == 0
    ensures Step(Step(s, DocumentClick(false)), DocumentClick(false)) == Step(s, DocumentClick(false))
    ensures Step(s, DocumentClick(true)) == s
  {
    NoneExpandedIffCountZero(Step(s, DocumentClick(false)));
  }

  /** A resize changes no item, at any window width. */
  lemma ResizeChangesNothing(s: seq<bool>, width: int)
    ensures Resized(s, width) == s
    ensures Step(s, WindowResize(width)) == s
  {
  }

  // ---------------------------------------------------------------------
  // The invariant over whole runs

  lemma StepPreservesAtMostOne(s: seq<bool>, e: Event)
    requires ValidEvent(e, |s|) && AtMostOneExpanded(s)
    ensures AtMostOneExpanded(Step(s, e))
  {
  }

  /**
   * From any state with at most one expanded item (such as a page whose
   * markup expands at most one item), every sequence of events keeps at
   * most one item expanded.
   */
  lemma {:induction false} RunPreservesAtMostOne(s: seq<bool>, evs: seq<Event>)
    requires ValidEvents(evs, |s|) && AtMostOneExpanded(s)
    ensures AtMostOneExpanded(Run(s, evs))
    ensures ExpandedCount(Run(s, evs)) <= 1
    decreases |evs|
  {
    if evs != [] {
      StepPreservesAtMostOne(s, evs[0]);
      var s' := Step(s, evs[0]);
      assert ValidEvents(evs[1..], |s'|) by {
        forall k | 0 <= k < |evs[1..]| ensures ValidEvent(evs[1..][k], |s'|) {
          assert evs[1..][k] == evs[k + 1];
        }
      }
      RunPreservesAtMostOne(s', evs[1..]);
    } else {
      AtMostOneIffCount(s);
    }
  }

  /**
   * Three collapsed items: clicking the first button and then the second
   * leaves only the second expanded, and a click outside every item then
   * collapses all three again.
   */
  lemma ThreeItemScenario()
    ensures Run([true, true, true], [ButtonClick(0)]) == [false, true, true]
    ensures Run([true, true, true], [ButtonClick(0), ButtonClick(1)]) == [true, false, true]
    ensures Run([true, true, true], [ButtonClick(0), ButtonClick(1), DocumentClick(false)])
         == [true, true, true]
  {
  }
}
