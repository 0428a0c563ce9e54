/** The collapsible navigation menu: the nav panel's `active` flag and the
    three-bar icon, drawn as an X while the panel is open and as a
    hamburger while it is closed. Clicks on the menu control, clicks
    anywhere in the document and clicks on in-page anchors drive it. Where
    a click lands and where an anchor's target sits are inputs. */
module Nav {
  import opened Wrappers

  /** Height of the fixed header that an anchor scroll keeps clear. */
  const HEADER_OFFSET: int := 80

  /** The scroll position an anchor click asks for: none for the bare `#`
      link or a selector that finds no element, otherwise the target's top
      less the header height. `targets` maps each selector to the
      `offsetTop` of the element it finds. */
  function ScrollTarget(href: string, targets: map<string, int>): (top: Option<int>)
    ensures href == "#" ==> top == None
    ensures href !in targets ==> top == None
    ensures href != "#" && href in targets ==> top == Some(targets[href] - HEADER_OFFSET)
  {
    if href == "#" || href !in targets then None else Some(targets[href] - HEADER_OFFSET)
  }

  class NavMenu {
    var open: bool   // `main-nav` has class `active`
    var iconX: bool  // the icon bars are styled as an X

    /** The icon shows an X exactly while the panel is open. */
    predicate Valid()
      reads this
    {
      iconX == open
    }

    /** The markup starts with the panel closed and the icon unstyled. */
    constructor ()
      ensures Valid() && !open
    {
      open, iconX := false, false;
    }

    /** Click on the menu control: flip the panel, then draw the icon from
        the panel's new state. */
    method MenuToggleClick()
      modifies this
      ensures open == !old(open)
      ensures Valid()
    {
      open := !open;
      if open {
        iconX := true;
      } else {
        iconX := false;
      }
    }

    /** Any click in the document: an open panel closes, and the icon is
        reset, when the click target is inside neither the panel nor the
        menu control; otherwise nothing changes. */
    method DocumentClick(targetInNav: bool, targetInToggle: bool)
      modifies this
      ensures !targetInNav && !targetInToggle && old(open) ==> !open && !iconX
      ensures targetInNav || targetInToggle || !old(open) ==>
                open == old(open) && iconX == old(iconX)
      ensures old(Valid()) ==> Valid()
    {
      if !targetInNav && !targetInToggle && open {
        open := false;
        iconX := false;
      }
    }

    /** Click on an anchor whose `href` starts with `#`: the bare `#` and a
        selector that finds nothing change nothing; otherwise an open panel
        is closed with its icon reset and a scroll to the target less the
        header height is requested. */
    method AnchorClick(href: string, targets: map<string, int>) returns (scrollTop: Option<int>)
      requires |href| > 0 && href[0] == '#'
      modifies this
      ensures scrollTop == ScrollTarget(href, targets)
      ensures scrollTop.None? ==> open == old(open) && iconX == old(iconX)
      ensures scrollTop.Some? ==> !open && (old(Valid()) ==> !iconX)
      ensures old(Valid()) ==> Valid()
    {
      if href == "#" {
        return None;
      }
      if href in targets {
        if open {
          open := false;
          iconX := false;
        }
        scrollTop := Some(targets[href] - HEADER_OFFSET);
      } else {
        scrollTop := None;
      }
    }
  }
}
