/** The `LoginWithGoogle` strategy: a four-state machine that clicks through the
    "sign in with Google" screens — the Google button, then the account entry,
    then the accept button — with the state threaded explicitly. */
module LoginWithGoogle {
  import opened Wrappers
  import opened Seqs
  import opened Text
  import opened DevModel

  const DefaultActionDelay: int := 1000
  const ResIdPackage: string := "com.google.android.gms"
  const ResIdAccount: string := ResIdPackage + ":id/account_display_name"
  const ResIdAccept: string := ResIdPackage + ":id/accept_button"

  datatype LoginState = Start | AccountDisplayed | AccountSelected | Done

  /** The two `StrategyPriority` values this strategy reports. */
  datatype StrategyPriority = NoFitness | SpecificWidget

  /** `newWidgetExplorationAction(widget, delay)`; a `None` delay is the
      factory's default. */
  datatype ExplorationAction = WidgetExplorationAction(widget: Widget, delay: Option<int>)

  /** The screen: all its widgets, and for a runtime-permission dialog its
      "allow" widget. */
  datatype GuiState = GuiState(widgets: seq<Widget>, permissionAllow: Option<Widget>)

  /** `WidgetContext`: the screen and `getActionableWidgetsInclChildren()`. */
  datatype WidgetContext = WidgetContext(guiState: GuiState, actionable: seq<Widget>)

  /** The action chosen and the login state after choosing it. */
  datatype Step = Step(action: ExplorationAction, next: LoginState)

  predicate IsGoogle(w: Widget) {
    LowerAscii(w.text) == "google"
  }

  predicate IsAccount(w: Widget) {
    w.resourceId == ResIdAccount
  }

  predicate IsAccept(w: Widget) {
    w.resourceId == ResIdAccept
  }

  predicate CanClickGoogle(state: LoginState, widgets: seq<Widget>) {
    state == Start && exists i :: 0 <= i < |widgets| && IsGoogle(widgets[i])
  }

  predicate CanClickAccount(widgets: seq<Widget>) {
    exists i :: 0 <= i < |widgets| && IsAccount(widgets[i])
  }

  predicate CanClickAccept(widgets: seq<Widget>) {
    exists i :: 0 <= i < |widgets| && IsAccept(widgets[i])
  }

  /** Click the first widget satisfying `p` and move to `next`; throws when
      there is none. */
  function ClickFirst(widgets: seq<Widget>, p: Widget -> bool, next: LoginState): (r: Result<Step>)
    ensures r.Ok? <==> exists i :: 0 <= i < |widgets| && p(widgets[i])
    ensures r.Ok? ==> r.value.next == next && r.value.action.delay == Some(DefaultActionDelay)
    ensures r.Ok? ==> r.value.action.widget in widgets && p(r.value.action.widget)
    ensures r.Ok? ==> exists i :: 0 <= i < |widgets| && widgets[i] == r.value.action.widget && forall j :: 0 <= j < i ==> !p(widgets[j])
  {
    match First(widgets, p)
    case Some(w) => Ok(Step(WidgetExplorationAction(w, Some(DefaultActionDelay)), next))
    case None => Err("The exploration shouldn' have reached this point.")
  }

  function ClickGoogle(widgets: seq<Widget>): Result<Step> {
    ClickFirst(widgets, IsGoogle, AccountDisplayed)
  }

  function ClickAccount(widgets: seq<Widget>): Result<Step> {
    ClickFirst(widgets, IsAccount, AccountSelected)
  }

  function ClickAccept(widgets: seq<Widget>): Result<Step> {
    ClickFirst(widgets, IsAccept, Done)
  }

  /** `getWidgetAction`: the Google button first, then the account, then the
      accept button; anything else is an unexpected fall-through. */
  function GetWidgetAction(state: LoginState, widgets: seq<Widget>): (r: Result<Step>)
    ensures r.Ok? <==> CanClickGoogle(state, widgets) || CanClickAccount(widgets) || CanClickAccept(widgets)
    ensures r.Ok? ==> r.value.action.widget in widgets
    ensures r.Ok? && CanClickGoogle(state, widgets) ==>
              r.value.next == AccountDisplayed && IsGoogle(r.value.action.widget)
    ensures r.Ok? && !CanClickGoogle(state, widgets) && CanClickAccount(widgets) ==>
              r.value.next == AccountSelected && IsAccount(r.value.action.widget)
    ensures r.Ok? && !CanClickGoogle(state, widgets) && !CanClickAccount(widgets) ==>
              r.value.next == Done && IsAccept(r.value.action.widget)
  {
    if CanClickGoogle(state, widgets) then ClickGoogle(widgets)
    else if CanClickAccount(widgets) then ClickAccount(widgets)
    else if CanClickAccept(widgets) then ClickAccept(widgets)
    else Err("Should not have reached this point.")
  }

  /** `getFitness`: nothing to do once logged in; otherwise specific exactly
      when one of the three login widgets is on screen. */
  function GetFitness(state: LoginState, ctx: WidgetContext): (r: StrategyPriority)
    ensures state == Done ==> r == NoFitness
    ensures state != Done ==>
              (r == SpecificWidget <==>
                 CanClickGoogle(state, ctx.actionable) || CanClickAccount(ctx.actionable) || CanClickAccept(ctx.actionable))
  {
    if state == Done then NoFitness
    else if CanClickGoogle(state, ctx.actionable) || CanClickAccount(ctx.actionable) || CanClickAccept(ctx.actionable)
    then SpecificWidget
    else NoFitness
  }

  /** `chooseAction`: a permission dialog is answered with its allow widget and
      the login state is kept; otherwise the login action is chosen. */
  function ChooseAction(state: LoginState, ctx: WidgetContext): (r: Result<Step>)
    ensures ctx.guiState.permissionAllow.Some? ==>
              r == Ok(Step(WidgetExplorationAction(ctx.guiState.permissionAllow.value, None), state))
    ensures ctx.guiState.permissionAllow.None? ==> r == GetWidgetAction(state, ctx.actionable)
  {
    match ctx.guiState.permissionAllow
    case Some(allow) => Ok(Step(WidgetExplorationAction(allow, None), state))
    case None => GetWidgetAction(state, ctx.actionable)
  }

  /** `mustPerformMoreActions`: true until an account entry is visible. */
  function MustPerformMoreActions(ctx: WidgetContext): (r: bool)
    ensures r <==> forall i :: 0 <= i < |ctx.guiState.widgets| ==>
                     !(ctx.guiState.widgets[i].visibleOnDisplay && IsAccount(ctx.guiState.widgets[i]))
  {
    !exists i :: 0 <= i < |ctx.guiState.widgets| && ctx.guiState.widgets[i].visibleOnDisplay && IsAccount(ctx.guiState.widgets[i])
  }

  /** When the actionable widgets are exactly the visible widgets of the screen,
      the strategy must keep acting exactly until an account entry can be
      clicked; from `AccountDisplayed`, the first screen that ends the need
      selects the account. */
  lemma MoreActionsUntilAccountClickable(state: LoginState, ctx: WidgetContext)
    requires forall w :: w in ctx.actionable <==> w in ctx.guiState.widgets && w.visibleOnDisplay
    ensures MustPerformMoreActions(ctx) <==> !CanClickAccount(ctx.actionable)
    ensures !MustPerformMoreActions(ctx) && state == AccountDisplayed && ctx.guiState.permissionAllow.None? ==>
              ChooseAction(state, ctx).Ok? && ChooseAction(state, ctx).value.next == AccountSelected
  {
    var ws := ctx.guiState.widgets;
    if CanClickAccount(ctx.actionable) {
      var i :| 0 <= i < |ctx.actionable| && IsAccount(ctx.actionable[i]);
      assert ctx.actionable[i] in ctx.actionable;
      var k :| 0 <= k < |ws| && ws[k] == ctx.actionable[i];
      assert ws[k].visibleOnDisplay && IsAccount(ws[k]);
    }
    if !MustPerformMoreActions(ctx) {
      var k :| 0 <= k < |ws| && ws[k].visibleOnDisplay && IsAccount(ws[k]);
      assert ws[k] in ctx.actionable;
      var i :| 0 <= i < |ctx.actionable| && ctx.actionable[i] == ws[k];
      assert IsAccount(ctx.actionable[i]);
    }
  }

  /** Before login is done, the strategy claims a specific widget exactly when
      it can choose an action on a screen without a permission dialog. */
  lemma FitnessMeansChoosable(state: LoginState, ctx: WidgetContext)
    requires state != Done && ctx.guiState.permissionAllow.None?
    ensures GetFitness(state, ctx) == SpecificWidget <==> ChooseAction(state, ctx).Ok?
  {
  }

  /** Three screens offering, in turn, the Google button, an account entry and
      the accept button take the machine from `Start` to `Done`, clicking one
      widget of each kind. */
  lemma LoginRun(s1: seq<Widget>, s2: seq<Widget>, s3: seq<Widget>)
    requires exists i :: 0 <= i < |s1| && IsGoogle(s1[i])
    requires CanClickAccount(s2)
    requires CanClickAccept(s3) && !CanClickAccount(s3)
    ensures GetWidgetAction(Start, s1).Ok? && GetWidgetAction(Start, s1).value.next == AccountDisplayed
    ensures var st2 := GetWidgetAction(AccountDisplayed, s2);
            st2.Ok? && st2.value.next == AccountSelected && IsAccount(st2.value.action.widget)
    ensures var st3 := GetWidgetAction(AccountSelected, s3);
            st3.Ok? && st3.value.next == Done && IsAccept(st3.value.action.widget)
  {
  }

  /** The Google button is only clicked from `Start`: in any later state a
      screen holding nothing but Google buttons leaves no action. */
  lemma GoogleOnlyFromStart(state: LoginState, widgets: seq<Widget>)
    requires state != Start
    requires forall i :: 0 <= i < |widgets| ==> IsGoogle(widgets[i]) && !IsAccount(widgets[i]) && !IsAccept(widgets[i])
    ensures GetWidgetAction(state, widgets).Err?
  {
  }
}
