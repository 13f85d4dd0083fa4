/**
 * The floating scroll-to-top button: hidden (opacity 0, visibility hidden)
 * until the page has scrolled more than 500 pixels, shown above that.
 */
module ScrollButton {

  import Nav

  /** Above this scroll offset the button is shown. */
  const ShowThreshold: real := 500.0

  /** Whether the button is shown at the given `window.pageYOffset`. */
  function ShownAt(pageYOffset: real): (r: bool)
    ensures r <==> pageYOffset > 500.0
    ensures r ==> forall documentScrollTop: real :: Nav.HeaderScrolled(Nav.ScrollTop(pageYOffset, documentScrollTop))
  {
    pageYOffset > ShowThreshold
  }

  /** The button's two style properties the visibility toggle writes. */
  class ScrollToTop {
    /** The button's `style.opacity`. */
    var opacity: string
    /** The button's `style.visibility`. */
    var visibility: string

    /** The two properties always agree: fully shown or fully hidden. */
    ghost predicate Valid()
      reads this
    {
      (opacity == "1" && visibility == "visible") || (opacity == "0" && visibility == "hidden")
    }

    /** Whether the button is currently shown. */
    predicate Shown()
      reads this
    {
      visibility == "visible"
    }

    /** The button is created hidden. */
    constructor ()
      ensures Valid() && !Shown()
      ensures opacity == "0" && visibility == "hidden"
    {
      opacity := "0";
      visibility := "hidden";
    }

    /** The scroll handler: shows the button exactly above the threshold, hides it otherwise. */
    method ToggleVisibility(pageYOffset: real)
      requires Valid()
      modifies this
      ensures Valid()
      ensures Shown() <==> ShownAt(pageYOffset)
      ensures opacity == (if ShownAt(pageYOffset) then "1" else "0")
    {
      if pageYOffset > 500.0 {
        opacity := "1";
        visibility := "visible";
      } else {
        opacity := "0";
        visibility := "hidden";
      }
    }
  }
}
