/** The widget, state and action types of the newer (`project/pcComponents`) source
    tree, reduced to the attributes the selection strategy, the widget actions and
    the action counter read. */
module PcModel {
  import opened Wrappers

  /** `java.util.UUID`, by its textual form. */
  type UUID = string

  /** A widget's `ConcreteId`, by its textual form. */
  type ConcreteId = string

  /** `Rectangle(leftX, topY, width, height)`. */
  datatype Rectangle = Rectangle(leftX: int, topY: int, width: int, height: int)

  /** Kotlin `Int` division by two, which truncates toward zero. */
  function Half(n: int): int {
    if n >= 0 then n / 2 else -((-n) / 2)
  }

  /** The centre point of a rectangle. */
  function Center(r: Rectangle): (int, int) {
    (r.leftX + Half(r.width), r.topY + Half(r.height))
  }

  /** `firstOrEmpty()` on an empty list of areas. */
  const EmptyRectangle: Rectangle := Rectangle(0, 0, 0, 0)

  datatype Widget = Widget(
    uid: UUID,
    id: ConcreteId,
    parentId: Option<ConcreteId>,
    packageName: string,
    text: string,
    idHash: int,
    isKeyboard: bool,
    isInputField: bool,
    clickable: bool,
    longClickable: bool,
    /** `null` for a widget that cannot be checked */
    checked: Option<bool>,
    selected: Option<bool>,
    scrollable: bool,
    enabled: bool,
    definedAsVisible: bool,
    isInteractive: bool,
    visibleBounds: Rectangle,
    visibleAreas: seq<Rectangle>)

  /** `selected.isEnabled()` on a nullable boolean: present and true. */
  predicate SelectedIsEnabled(w: Widget) {
    w.selected == Some(true)
  }

  /** A GUI state: its uid, all its widgets, the visible targets and the
      actionable widgets (the last two as the state computes them). */
  datatype State = State(uid: UUID, widgets: seq<Widget>, visibleTargets: seq<Widget>, actionableWidgets: seq<Widget>)

  /** The exploration actions the core creates. */
  datatype ExplorationAction =
    | Click(x: int, y: int, hasWait: bool, delay: int)
    | ClickEvent(idHash: int, x: int, y: int, hasWait: bool, delay: int)
    | Tick(idHash: int, x: int, y: int, hasWait: bool, delay: int)
    | LongClick(x: int, y: int, hasWait: bool, delay: int)
    | LongClickEvent(idHash: int, x: int, y: int, hasWait: bool, delay: int)
    | TextInsert(idHash: int, text: string, hasWait: bool, delay: int, sendEnter: bool, closeKeyboard: bool)
    | Swipe(start: (int, int), end: (int, int), stepSize: int, hasWait: bool)
    | LaunchApp
    | CloseAndReturn
}
