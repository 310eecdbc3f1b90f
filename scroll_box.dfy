/** The part of the terminal UI's scroll box that the views read and write:
    the scroll offsets they assign, and the layout they read (children,
    viewport, content origin, scrollable extent, vertical scroll bar). Layout
    values are integers in terminal cells. */
module ScrollBoxes {
  import opened Wrappers

  /** A rendered child: its position and size. */
  datatype Child = Child(x: int, y: int, width: int, height: int)

  /** `verticalScrollBar`: whether it is shown and its width, when set. */
  datatype ScrollBar = ScrollBar(visible: bool, width: Option<int>)

  class ScrollBox {
    var scrollLeft: int
    var scrollTop: int
    var children: seq<Child>
    var viewportWidth: int
    var viewportHeight: int
    var contentX: int
    var contentY: int
    var scrollWidth: int
    var scrollHeight: int
    var verticalScrollBar: Option<ScrollBar>

    constructor (children: seq<Child>, viewportWidth: int, viewportHeight: int,
                 scrollWidth: int, scrollHeight: int, verticalScrollBar: Option<ScrollBar>)
      ensures scrollLeft == 0 && scrollTop == 0
      ensures this.children == children && contentX == 0 && contentY == 0
      ensures this.viewportWidth == viewportWidth && this.viewportHeight == viewportHeight
      ensures this.scrollWidth == scrollWidth && this.scrollHeight == scrollHeight
      ensures this.verticalScrollBar == verticalScrollBar
    {
      scrollLeft := 0;
      scrollTop := 0;
      this.children := children;
      this.viewportWidth := viewportWidth;
      this.viewportHeight := viewportHeight;
      contentX := 0;
      contentY := 0;
      this.scrollWidth := scrollWidth;
      this.scrollHeight := scrollHeight;
      this.verticalScrollBar := verticalScrollBar;
    }
  }

  function Max(a: int, b: int): int {
    if a >= b then a else b
  }

  function Min(a: int, b: int): int {
    if a <= b then a else b
  }
}
