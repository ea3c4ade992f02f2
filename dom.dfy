/** Plain records standing for the parts of the page that the scroll handlers read
    and write. Geometry that the browser computes (offsets, heights, viewport
    rectangles) is given to the handlers as integers; a class list is a set of names. */
module Dom {

  datatype Option<+T> = None | Some(value: T)

  /** Class names the handlers add or remove. */
  const Active := "active"
  const RevealClass := "reveal"
  const Scrolled := "scrolled"

  /** The value of an attribute as getAttribute returns it: None stands for null,
      an attribute the element does not have. */
  type Attribute = Option<string>

  /** How a template literal writes an attribute value: null becomes "null". */
  function AttributeText(a: Attribute): string {
    if a.Some? then a.value else "null"
  }

  /** An element of class `section`: its id attribute, offsetTop and offsetHeight. */
  datatype Section = Section(id: Attribute, offsetTop: int, height: int)

  /** An element of class `nav-link`: its href attribute and its class list. */
  datatype NavLink = NavLink(href: Attribute, classes: set<string>)

  /** A rule, slam or icon card: the top of its bounding rectangle relative to the
      viewport, and its class list. */
  datatype Card = Card(top: int, classes: set<string>)

  /** The vertical extent of a bounding rectangle relative to the viewport. */
  datatype Rect = Rect(top: int, bottom: int)
}
