/** The widget action constructors: each checks that the widget can take the
    action (throwing otherwise), records the widget in the shared list of
    widget targets, and builds the action. The shared list is threaded
    explicitly through `Outcome`. */
module WidgetActions {
  import opened Wrappers
  import opened PcModel

  /** A call that returned `value` or threw `message`, with the widget-target
      list as the call left it. */
  datatype Outcome<+T> = Returned(value: T, targets: seq<Widget>) | Threw(message: string, targets: seq<Widget>)

  /** `n` copies of `w`. */
  function Repeat(w: Widget, n: nat): (r: seq<Widget>)
    ensures |r| == n && forall i :: 0 <= i < n ==> r[i] == w
  {
    seq(n, _ => w)
  }

  /** `clickCoordinate()`: the centre of the first visible area, or the centre
      of the visible bounds when there is none. */
  function ClickCoordinate(w: Widget): (int, int) {
    if |w.visibleAreas| > 0 then Center(w.visibleAreas[0]) else Center(w.visibleBounds)
  }

  /** The click point lies inside the first visible area when there is one,
      and inside the visible bounds otherwise (for rectangles of non-negative
      extent). */
  lemma ClickCoordinateInside(w: Widget)
    ensures var r := if |w.visibleAreas| > 0 then w.visibleAreas[0] else w.visibleBounds;
            var (x, y) := ClickCoordinate(w);
            r.width >= 0 && r.height >= 0 ==>
              r.leftX <= x <= r.leftX + r.width && r.topY <= y <= r.topY + r.height
  {
  }

  /** Throw `message` unless `allowed`; otherwise record `w` and return `action`. */
  function Act(w: Widget, targets: seq<Widget>, allowed: bool, action: ExplorationAction, message: string): (r: Outcome<ExplorationAction>)
    ensures r.Returned? <==> allowed
    ensures r.Returned? ==> r.value == action && r.targets == targets + [w]
    ensures r.Threw? ==> r.targets == targets
  {
    if allowed then Returned(action, targets + [w]) else Threw(message, targets)
  }

  /** `click`: needs a visible (or declared visible), enabled widget that is
      clickable or selected, unless clickability is ignored. */
  function Click(w: Widget, targets: seq<Widget>, delay: int, isVisible: bool, ignoreClickable: bool): (r: Outcome<ExplorationAction>)
    ensures r.Returned? <==> (w.definedAsVisible || isVisible) && w.enabled && (w.clickable || SelectedIsEnabled(w) || ignoreClickable)
    ensures r.Returned? ==> r.targets == targets + [w]
    ensures r.Returned? ==> r.value == PcModel.Click(ClickCoordinate(w).0, ClickCoordinate(w).1, true, delay)
    ensures r.Threw? ==> r.targets == targets
  {
    var (x, y) := ClickCoordinate(w);
    Act(w, targets, (w.definedAsVisible || isVisible) && w.enabled && (w.clickable || SelectedIsEnabled(w) || ignoreClickable),
        PcModel.Click(x, y, true, delay), "ERROR: tried to click non-actionable Widget")
  }

  /** `clickEvent`: like `click` without the visibility check; a widget that is
      not itself clickable gets a coordinate click. */
  function ClickEvent(w: Widget, targets: seq<Widget>, delay: int, ignoreClickable: bool): (r: Outcome<ExplorationAction>)
    ensures r.Returned? <==> w.enabled && (w.clickable || SelectedIsEnabled(w) || ignoreClickable)
    ensures r.Returned? ==> r.targets == targets + [w]
    ensures r.Returned? ==> (r.value.Click? <==> !w.clickable) && (r.value.ClickEvent? <==> w.clickable)
    ensures r.Returned? && !w.clickable ==>
              r.value == PcModel.Click(ClickCoordinate(w).0, ClickCoordinate(w).1, true, delay)
    ensures r.Returned? && w.clickable ==>
              r.value == PcModel.ClickEvent(w.idHash, ClickCoordinate(w).0, ClickCoordinate(w).1, true, delay)
    ensures r.Threw? ==> r.targets == targets
  {
    var (x, y) := ClickCoordinate(w);
    var action := if !w.clickable then PcModel.Click(x, y, true, delay) else PcModel.ClickEvent(w.idHash, x, y, true, delay);
    Act(w, targets, w.enabled && (w.clickable || SelectedIsEnabled(w) || ignoreClickable), action,
        "ERROR: tried to click non-actionable Widget")
  }

  /** `tick`: needs only a visible (or visibility-ignored), enabled widget. */
  function Tick(w: Widget, targets: seq<Widget>, delay: int, ignoreVisibility: bool): (r: Outcome<ExplorationAction>)
    ensures r.Returned? <==> (w.definedAsVisible || ignoreVisibility) && w.enabled
    ensures r.Returned? ==> r.targets == targets + [w]
    ensures r.Returned? ==> r.value == PcModel.Tick(w.idHash, ClickCoordinate(w).0, ClickCoordinate(w).1, true, delay)
    ensures r.Threw? ==> r.targets == targets
  {
    var (x, y) := ClickCoordinate(w);
    Act(w, targets, (w.definedAsVisible || ignoreVisibility) && w.enabled, PcModel.Tick(w.idHash, x, y, true, delay),
        "ERROR: tried to tick non-actionable (checkbox) Widget")
  }

  /** `longClick`: needs a visible, enabled, long-clickable widget. */
  function LongClick(w: Widget, targets: seq<Widget>, delay: int, isVisible: bool): (r: Outcome<ExplorationAction>)
    ensures r.Returned? <==> (w.definedAsVisible || isVisible) && w.enabled && w.longClickable
    ensures r.Returned? ==> r.targets == targets + [w]
    ensures r.Returned? ==> r.value == PcModel.LongClick(ClickCoordinate(w).0, ClickCoordinate(w).1, true, delay)
    ensures r.Threw? ==> r.targets == targets
  {
    var (x, y) := ClickCoordinate(w);
    Act(w, targets, (w.definedAsVisible || isVisible) && w.enabled && w.longClickable, PcModel.LongClick(x, y, true, delay),
        "ERROR: tried to long-click non-actionable Widget")
  }

  /** `longClickEvent`: same requirements as `longClick`. */
  function LongClickEvent(w: Widget, targets: seq<Widget>, delay: int, ignoreVisibility: bool): (r: Outcome<ExplorationAction>)
    ensures r.Returned? <==> (w.definedAsVisible || ignoreVisibility) && w.enabled && w.longClickable
    ensures r.Returned? ==> r.targets == targets + [w]
    ensures r.Returned? ==> r.value == PcModel.LongClickEvent(w.idHash, ClickCoordinate(w).0, ClickCoordinate(w).1, true, delay)
    ensures r.Threw? ==> r.targets == targets
  {
    var (x, y) := ClickCoordinate(w);
    Act(w, targets, (w.definedAsVisible || ignoreVisibility) && w.enabled && w.longClickable,
        PcModel.LongClickEvent(w.idHash, x, y, true, delay), "ERROR: tried to long-click non-actionable Widget")
  }

  /** `setText`: with validation on, needs a visible, enabled input field;
      with validation off it never throws. */
  function SetText(w: Widget, targets: seq<Widget>, newContent: string, ignoreVisibility: bool, enableValidation: bool,
                   delay: int, sendEnter: bool, closeKeyboard: bool): (r: Outcome<ExplorationAction>)
    ensures r.Threw? <==> enableValidation && (!(w.definedAsVisible || ignoreVisibility) || !w.enabled || !w.isInputField)
    ensures r.Returned? ==> r.targets == targets + [w] && r.value == TextInsert(w.idHash, newContent, true, delay, sendEnter, closeKeyboard)
    ensures r.Threw? ==> r.targets == targets
  {
    Act(w, targets, !(enableValidation && (!(w.definedAsVisible || ignoreVisibility) || !w.enabled || !w.isInputField)),
        TextInsert(w.idHash, newContent, true, delay, sendEnter, closeKeyboard), "ERROR: tried to enter text on non-actionable Widget")
  }

  /* ---------------------------------------------------------------------------
     Swipes: from one edge of the visible bounds to the opposite edge, through
     the centre line; the step size defaults to half the first visible area.
     ------------------------------------------------------------------------ */

  function FirstOrEmpty(areas: seq<Rectangle>): Rectangle {
    if |areas| > 0 then areas[0] else EmptyRectangle
  }

  function SwipeUp(w: Widget): ExplorationAction {
    var b := w.visibleBounds;
    Swipe((Center(b).0, b.topY + b.height), (Center(b).0, b.topY), Half(FirstOrEmpty(w.visibleAreas).height), true)
  }

  function SwipeDown(w: Widget): ExplorationAction {
    var b := w.visibleBounds;
    Swipe((Center(b).0, b.topY), (Center(b).0, b.topY + b.height), Half(FirstOrEmpty(w.visibleAreas).height), true)
  }

  function SwipeLeft(w: Widget): ExplorationAction {
    var b := w.visibleBounds;
    Swipe((b.leftX + b.width, Center(b).1), (b.leftX, Center(b).1), Half(FirstOrEmpty(w.visibleAreas).width), true)
  }

  function SwipeRight(w: Widget): ExplorationAction {
    var b := w.visibleBounds;
    Swipe((b.leftX, Center(b).1), (b.leftX + b.width, Center(b).1), Half(FirstOrEmpty(w.visibleAreas).width), true)
  }

  /** Up and down are the same stroke in opposite directions along a vertical
      line through the centre, spanning the bounds' height; left and right
      likewise along a horizontal line, spanning the width. */
  lemma SwipeGeometry(w: Widget)
    ensures SwipeUp(w).start == SwipeDown(w).end && SwipeUp(w).end == SwipeDown(w).start
    ensures SwipeUp(w).start.0 == SwipeUp(w).end.0 == ClickCoordinateOfBounds(w).0
    ensures SwipeUp(w).start.1 - SwipeUp(w).end.1 == w.visibleBounds.height
    ensures SwipeLeft(w).start == SwipeRight(w).end && SwipeLeft(w).end == SwipeRight(w).start
    ensures SwipeLeft(w).start.1 == SwipeLeft(w).end.1 == ClickCoordinateOfBounds(w).1
    ensures SwipeLeft(w).start.0 - SwipeLeft(w).end.0 == w.visibleBounds.width
  {
  }

  /** The click point of a widget without visible areas. */
  function ClickCoordinateOfBounds(w: Widget): (int, int) {
    ClickCoordinate(w.(visibleAreas := []))
  }

  /* ---------------------------------------------------------------------------
     availableActions
     ------------------------------------------------------------------------ */

  /** The three kinds of target-recording action `availableActions` may build. */
  datatype ActionKind = LongClickKind | ClickKind | TickKind

  /** The kind of a built action; swipes and the other actions have none. */
  function KindOf(a: ExplorationAction): Option<ActionKind> {
    match a
    case LongClick(_, _, _, _) => Some(LongClickKind)
    case LongClickEvent(_, _, _, _, _) => Some(LongClickKind)
    case Click(_, _, _, _) => Some(ClickKind)
    case ClickEvent(_, _, _, _, _) => Some(ClickKind)
    case Tick(_, _, _, _, _) => Some(TickKind)
    case _ => None
  }

  /** The kinds a widget's flags call for, in the order they are built:
      long-click, click, tick. */
  function NonSwipeKinds(w: Widget): seq<ActionKind> {
    (if w.longClickable then [LongClickKind] else [])
    + (if w.clickable || SelectedIsEnabled(w) then [ClickKind] else [])
    + (if w.checked.Some? then [TickKind] else [])
  }

  /** The four swipes, in the order they are built: up, down, right, left. */
  function Swipes(w: Widget): seq<ExplorationAction> {
    [SwipeUp(w), SwipeDown(w), SwipeRight(w), SwipeLeft(w)]
  }

  /** Build one action of the given kind the way `availableActions` does. */
  function Perform(kind: ActionKind, w: Widget, targets: seq<Widget>, delay: int, useCoordinateClicks: bool): Outcome<ExplorationAction> {
    match kind
    case LongClickKind => if useCoordinateClicks then LongClick(w, targets, delay, false) else LongClickEvent(w, targets, delay, false)
    case ClickKind => if useCoordinateClicks then Click(w, targets, delay, false, false) else ClickEvent(w, targets, delay, false)
    case TickKind => Tick(w, targets, delay, false)
  }

  /** Whether building an action of `kind` (whose own flag is set) succeeds:
      visible and enabled, except that an event click skips visibility. */
  predicate Allowed(kind: ActionKind, w: Widget, useCoordinateClicks: bool) {
    match kind
    case ClickKind => w.enabled && (w.definedAsVisible || !useCoordinateClicks)
    case _ => w.definedAsVisible && w.enabled
  }

  lemma PerformSpec(kind: ActionKind, w: Widget, targets: seq<Widget>, delay: int, useCoordinateClicks: bool)
    requires kind in NonSwipeKinds(w)
    ensures var r := Perform(kind, w, targets, delay, useCoordinateClicks);
            && (r.Returned? <==> Allowed(kind, w, useCoordinateClicks))
            && (r.Returned? ==> r.targets == targets + [w] && KindOf(r.value) == Some(kind))
            && (r.Threw? ==> r.targets == targets)
  {
  }

  /** Build the actions of `kinds` in order, stopping at the first that throws. */
  function PerformAll(kinds: seq<ActionKind>, w: Widget, delay: int, useCoordinateClicks: bool, built: seq<ExplorationAction>, targets: seq<Widget>): Outcome<seq<ExplorationAction>>
    decreases |kinds|
  {
    if |kinds| == 0 then Returned(built, targets)
    else match Perform(kinds[0], w, targets, delay, useCoordinateClicks)
      case Returned(a, ts) => PerformAll(kinds[1..], w, delay, useCoordinateClicks, built + [a], ts)
      case Threw(m, ts) => Threw(m, ts)
  }

  /** `PerformAll` succeeds iff every kind is allowed. */
  lemma {:induction false} PerformAllReturnedIff(kinds: seq<ActionKind>, w: Widget, delay: int, useCoordinateClicks: bool, built: seq<ExplorationAction>, targets: seq<Widget>)
    requires forall k :: k in kinds ==> k in NonSwipeKinds(w)
    ensures PerformAll(kinds, w, delay, useCoordinateClicks, built, targets).Returned?
            <==> forall i :: 0 <= i < |kinds| ==> Allowed(kinds[i], w, useCoordinateClicks)
    decreases |kinds|
  {
    if |kinds| > 0 {
      PerformSpec(kinds[0], w, targets, delay, useCoordinateClicks);
      var p := Perform(kinds[0], w, targets, delay, useCoordinateClicks);
      if p.Returned? {
        assert forall k :: k in kinds[1..] ==> k in kinds;
        PerformAllReturnedIff(kinds[1..], w, delay, useCoordinateClicks, built + [p.value], p.targets);
        assert forall i :: 1 <= i < |kinds| ==> kinds[i] == kinds[1..][i - 1];
      }
    }
  }

  /** A successful `PerformAll` appends one action of each kind, in order. */
  lemma {:induction false} PerformAllValue(kinds: seq<ActionKind>, w: Widget, delay: int, useCoordinateClicks: bool, built: seq<ExplorationAction>, targets: seq<Widget>)
    requires forall k :: k in kinds ==> k in NonSwipeKinds(w)
    ensures var r := PerformAll(kinds, w, delay, useCoordinateClicks, built, targets);
            r.Returned? ==> && |r.value| == |built| + |kinds| && r.value[..|built|] == built
                            && (forall i :: 0 <= i < |kinds| ==> KindOf(r.value[|built| + i]) == Some(kinds[i]))
    decreases |kinds|
  {
    if |kinds| > 0 {
      PerformSpec(kinds[0], w, targets, delay, useCoordinateClicks);
      var p := Perform(kinds[0], w, targets, delay, useCoordinateClicks);
      if p.Returned? {
        assert forall k :: k in kinds[1..] ==> k in kinds;
        PerformAllValue(kinds[1..], w, delay, useCoordinateClicks, built + [p.value], p.targets);
        var r := PerformAll(kinds, w, delay, useCoordinateClicks, built, targets);
        if r.Returned? {
          assert forall i :: 1 <= i < |kinds| ==> kinds[i] == kinds[1..][i - 1];
          assert r.value[..|built| + 1][..|built|] == built;
          assert r.value[|built|] == r.value[..|built| + 1][|built|];
        }
      }
    }
  }

  /** `PerformAll` records the widget once per action built before it stops. */
  lemma {:induction false} PerformAllTargets(kinds: seq<ActionKind>, w: Widget, delay: int, useCoordinateClicks: bool, built: seq<ExplorationAction>, targets: seq<Widget>)
    requires forall k :: k in kinds ==> k in NonSwipeKinds(w)
    ensures var r := PerformAll(kinds, w, delay, useCoordinateClicks, built, targets);
            && (r.Returned? ==> r.targets == targets + Repeat(w, |kinds|))
            && (r.Threw? ==> exists n :: 0 <= n < |kinds| && r.targets == targets + Repeat(w, n))
    decreases |kinds|
  {
    if |kinds| > 0 {
      PerformSpec(kinds[0], w, targets, delay, useCoordinateClicks);
      var p := Perform(kinds[0], w, targets, delay, useCoordinateClicks);
      if p.Returned? {
        assert forall k :: k in kinds[1..] ==> k in kinds;
        PerformAllTargets(kinds[1..], w, delay, useCoordinateClicks, built + [p.value], p.targets);
        var r := PerformAll(kinds, w, delay, useCoordinateClicks, built, targets);
        if r.Returned? {
          assert targets + [w] + Repeat(w, |kinds| - 1) == targets + Repeat(w, |kinds|);
        } else {
          var n :| 0 <= n < |kinds[1..]| && r.targets == targets + [w] + Repeat(w, n);
          assert targets + [w] + Repeat(w, n) == targets + Repeat(w, n + 1);
        }
      } else {
        assert targets == targets + Repeat(w, 0);
      }
    }
  }

  /** Everything `availableActions` relies on about `PerformAll`. */
  lemma PerformAllSpec(kinds: seq<ActionKind>, w: Widget, delay: int, useCoordinateClicks: bool, built: seq<ExplorationAction>, targets: seq<Widget>)
    requires forall k :: k in kinds ==> k in NonSwipeKinds(w)
    ensures var r := PerformAll(kinds, w, delay, useCoordinateClicks, built, targets);
            && (r.Returned? <==> forall i :: 0 <= i < |kinds| ==> Allowed(kinds[i], w, useCoordinateClicks))
            && (r.Returned? ==> |r.value| == |built| + |kinds| && r.value[..|built|] == built
                                && (forall i :: 0 <= i < |kinds| ==> KindOf(r.value[|built| + i]) == Some(kinds[i]))
                                && r.targets == targets + Repeat(w, |kinds|))
            && (r.Threw? ==> exists n :: 0 <= n < |kinds| && r.targets == targets + Repeat(w, n))
  {
    PerformAllReturnedIff(kinds, w, delay, useCoordinateClicks, built, targets);
    PerformAllValue(kinds, w, delay, useCoordinateClicks, built, targets);
    PerformAllTargets(kinds, w, delay, useCoordinateClicks, built, targets);
  }


  /** Number of swipes a widget offers. */
  function SwipeCount(w: Widget): nat {
    if w.scrollable then 4 else 0
  }

  /** `availableActions`: long-click, click and tick as the flags allow, then
      the four swipes of a scrollable widget. Only the non-swipe actions record
      the widget as a target. */
  function AvailableActions(w: Widget, targets: seq<Widget>, delay: int, useCoordinateClicks: bool): (r: Outcome<seq<ExplorationAction>>)
    ensures r.Returned? <==> forall i :: 0 <= i < |NonSwipeKinds(w)| ==> Allowed(NonSwipeKinds(w)[i], w, useCoordinateClicks)
    ensures r.Returned? ==> |r.value| == |NonSwipeKinds(w)| + SwipeCount(w)
    ensures r.Returned? ==> forall i :: 0 <= i < |NonSwipeKinds(w)| ==> KindOf(r.value[i]) == Some(NonSwipeKinds(w)[i])
    ensures r.Returned? ==> r.value[|NonSwipeKinds(w)|..] == (if w.scrollable then Swipes(w) else [])
    ensures r.Returned? ==> r.targets == targets + Repeat(w, |NonSwipeKinds(w)|)
    ensures r.Threw? ==> exists n :: 0 <= n < |NonSwipeKinds(w)| && r.targets == targets + Repeat(w, n)
  {
    var kinds := NonSwipeKinds(w);
    PerformAllSpec(kinds, w, delay, useCoordinateClicks, [], targets);
    match PerformAll(kinds, w, delay, useCoordinateClicks, [], targets)
    case Returned(built, ts) =>
      var swipes := if w.scrollable then Swipes(w) else [];
      var all := built + swipes;
      assert forall i :: 0 <= i < |kinds| ==> all[i] == built[i];
      assert all[|built|..] == swipes;
      Returned(all, ts)
    case Threw(m, ts) => Threw(m, ts)
  }

  /** The length of the action list, in terms of the widget's flags. */
  lemma AvailableActionsLength(w: Widget, targets: seq<Widget>, delay: int, useCoordinateClicks: bool)
    requires AvailableActions(w, targets, delay, useCoordinateClicks).Returned?
    ensures |AvailableActions(w, targets, delay, useCoordinateClicks).value|
            == (if w.longClickable then 1 else 0) + (if w.clickable || SelectedIsEnabled(w) then 1 else 0)
               + (if w.checked.Some? then 1 else 0) + (if w.scrollable then 4 else 0)
  {
  }

  /** When `availableActions` throws, in terms of the widget's flags: some
      non-swipe action is due on a widget that is invisible or disabled,
      except that an event click only needs the widget enabled. */
  lemma AvailableActionsThrows(w: Widget, targets: seq<Widget>, delay: int, useCoordinateClicks: bool)
    ensures AvailableActions(w, targets, delay, useCoordinateClicks).Threw? <==>
            var clickDue := w.clickable || SelectedIsEnabled(w);
            || ((w.longClickable || w.checked.Some? || (clickDue && useCoordinateClicks)) && !(w.definedAsVisible && w.enabled))
            || (clickDue && !w.enabled)
  {
    var kinds := NonSwipeKinds(w);
    var clickDue := w.clickable || SelectedIsEnabled(w);
    if w.longClickable { assert kinds[0] == LongClickKind; }
    if clickDue { assert ClickKind in kinds; var i :| 0 <= i < |kinds| && kinds[i] == ClickKind; }
    if w.checked.Some? { assert kinds[|kinds| - 1] == TickKind; }
  }
}
