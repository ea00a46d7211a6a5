/**
  The browser's navigation target. Each `xLogin` wrapper ends with
  `window.location.href = url`; the model keeps that one field write and nothing of what
  the browser does next (unloading the page, a blocked redirect).
 */
module Navigation {

  class Location {
    /** The address the tab is sent to; writing it is the redirect. */
    var href: string

    constructor (current: string)
      ensures href == current
    {
      href := current;
    }
  }
}
