/**
 * The timeline widget as the page runs it: the list of timeline items is
 * fixed when the page has loaded, and every handler walks that list and
 * adds or removes the `collapsed` class of items in place. Here the list is
 * an array of flags (`true` for collapsed) and each handler is a method
 * whose new state is the corresponding transition of `TimelineState.Step`.
 */
module Timeline {
  import opened TimelineState

  class TimelineWidget {
    /** The `collapsed` flag of each timeline item, in page order. */
    const collapsed: array<bool>

    /** Discovers the items once, with the flags the page markup gives them. */
    constructor (markup: seq<bool>)
      ensures fresh(collapsed)
      ensures collapsed[..] == markup
    {
      collapsed := new bool[|markup|](j requires 0 <= j < |markup| => markup[j]);
    }

    /**
     * A click on the expand button of item `i`: every other item is
     * collapsed, then item `i` flips.
     */
    method ClickButton(i: nat)
      requires i < collapsed.Length
      modifies collapsed
      ensures collapsed[..] == Toggled(old(collapsed[..]), i)
      ensures AtMostOneExpanded(collapsed[..])
    {
      var isCurrentlyExpanded := !collapsed[i];
      var j := 0;
      while j < collapsed.Length
        invariant 0 <= j <= collapsed.Length
        invariant forall k :: 0 <= k < j && k != i ==> collapsed[k]
        invariant forall k :: j <= k < collapsed.Length ==> collapsed[k] == old(collapsed[k])
        invariant collapsed[i] == old(collapsed[i])
      {
        if j != i {
          collapsed[j] := true;
        }
        j := j + 1;
      }
      if isCurrentlyExpanded {
        collapsed[i] := true;
      } else {
        collapsed[i] := false;
      }
      ToggleLeavesAtMostOne(old(collapsed[..]), i);
    }

    /**
     * A click on the header of item `i`. Unless the click landed on the
     * expand button (or inside it), the header clicks its own button.
     */
    method ClickHeader(i: nat, targetInButton: bool, headerHasButton: bool)
      requires i < collapsed.Length
      modifies collapsed
      ensures collapsed[..] == Step(old(collapsed[..]), HeaderClick(i, targetInButton, headerHasButton))
    {
      if !targetInButton {
        if headerHasButton {
          ClickButton(i);
        }
      }
    }

    /**
     * A click that reaches the document: if its target is outside every
     * timeline item, every item is collapsed.
     */
    method ClickDocument(targetInsideItem: bool)
      modifies collapsed
      ensures collapsed[..] == Step(old(collapsed[..]), DocumentClick(targetInsideItem))
      ensures !targetInsideItem ==> IsAllCollapsed(collapsed[..])
    {
      if !targetInsideItem {
        var j := 0;
        while j < collapsed.Length
          invariant 0 <= j <= collapsed.Length
          invariant forall k :: 0 <= k < j ==> collapsed[k]
        {
          collapsed[j] := true;
          j := j + 1;
        }
      }
    }

    /**
     * A window resize: on a narrow window every item that is collapsed is
     * marked collapsed again, so no item's flag changes at any width.
     */
    method Resize(innerWidth: int)
      modifies collapsed
      ensures collapsed[..] == Step(old(collapsed[..]), WindowResize(innerWidth))
      ensures collapsed[..] == old(collapsed[..])
    {
      if innerWidth <= MobileMaxWidth {
        var j := 0;
        while j < collapsed.Length
          invariant 0 <= j <= collapsed.Length
          invariant collapsed[..] == old(collapsed[..])
        {
          if collapsed[j] {
            collapsed[j] := true;
          }
          j := j + 1;
        }
      }
    }
  }
}
