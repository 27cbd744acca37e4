# DroidMate widget selection, modelled in Dafny

This project models the core of DroidMate's GUI exploration as pure functions over immutable data, and proves properties of it. DroidMate is an automated test generator for Android apps. The core has these parts:

- the random-widget strategy. It filters the widgets on screen into candidates and prefers the least-interacted ones. It draws a widget and one of that widget's actions.
- the widget action constructors. Each one checks that the widget can take the action, then records the widget as an action target.
- the action counter. It counts interactions per (widget, state), per state and per package.
- the action trace. This covers the 8-column record format, the append-only trace with its current-state cursor, the targets history, edit-field bucketing, `unexplored` and the prefix-style `equals`.
- two small strategies: the action-budget termination criterion and the "login with Google" state machine.
- the report helpers derived from an exploration log.

The repository has two source trees. They define different versions of the widget and state types, so each tree gets its own modules:

- the older `dev/droidmate` tree: `DevModel`, `ExplorationTraces`, `LoginWithGoogle`, `ActionBasedTerminate`, `ReportExtensions`.
- the newer `project/pcComponents` tree: `PcModel`, `WidgetActions`, `ActionCounter`, `RandomWidget`.

Shared helpers live in `Wrappers`, `Seqs` (filter, count, distinct, `firstOrNull`, `listOfSmallest`, group-by order, split and join), `Text` (decimal and boolean codecs, ASCII lower-casing) and `Int32` (Kotlin `Int` wrap-around).

Randomness is passed in explicitly. Each `random.nextInt(n)` is a draw `pick % n` taken from a `Draws` record. The global `ExplorationTrace.widgetTargets` list is passed in and returned:

- in `WidgetActions`, through `Outcome`: `Returned` or `Threw`, each with the list as the call left it.
- in `RandomWidget`, through `Choice`: `Chosen`, `Thrown` or `Diverges`.

This keeps visible the partial appends that happen before an exception.

## Model

Paths are relative to the repository root.

| member | source | states |
|---|---|---|
| WidgetActions.ClickCoordinateInside | project/pcComponents/exploration/src/main/kotlin/org/droidmate/exploration/actions/WidgetActions.kt:90 | The click point is the centre of the first visible area if there is one, else of the visible bounds. It lies inside that rectangle. |
| WidgetActions.Click | project/pcComponents/exploration/src/main/kotlin/org/droidmate/exploration/actions/WidgetActions.kt:26-31 | Returns iff (visible or `isVisible`) and enabled and (clickable or selected or `ignoreClickable`). On return it appends exactly this widget to the targets and gives a click at `ClickCoordinate(w)` with the given delay. On a throw the targets are unchanged. |
| WidgetActions.ClickEvent | project/pcComponents/exploration/src/main/kotlin/org/droidmate/exploration/actions/WidgetActions.kt:33-39 | Skips the visibility check: returns iff enabled and (clickable or selected or ignored). A widget that is not clickable gets a coordinate click at `ClickCoordinate(w)`; a clickable one gets a click event on its `idHash` at that point. Both carry the given delay. |
| WidgetActions.Tick | project/pcComponents/exploration/src/main/kotlin/org/droidmate/exploration/actions/WidgetActions.kt:42-47 | Returns iff visible (or ignored) and enabled, with no checkable test. It appends the widget and ticks its `idHash` at `ClickCoordinate(w)` with the given delay. |
| WidgetActions.LongClick | project/pcComponents/exploration/src/main/kotlin/org/droidmate/exploration/actions/WidgetActions.kt:50-55 | Returns iff visible (or `isVisible`), enabled and long-clickable. It appends the widget on success only, and long-clicks at `ClickCoordinate(w)` with the given delay. |
| WidgetActions.LongClickEvent | project/pcComponents/exploration/src/main/kotlin/org/droidmate/exploration/actions/WidgetActions.kt:58-63 | Same guard as a long click. It appends the widget and targets its `idHash` at `ClickCoordinate(w)` with the given delay. |
| WidgetActions.SetText | project/pcComponents/exploration/src/main/kotlin/org/droidmate/exploration/actions/WidgetActions.kt:66-73 | Throws iff validation is on and the widget is invisible, disabled or not an input field. Otherwise it appends the widget and inserts the text with the given flags. |
| WidgetActions.SwipeGeometry | project/pcComponents/exploration/src/main/kotlin/org/droidmate/exploration/actions/WidgetActions.kt:77-80 | Up and down are the same stroke reversed, at the constant x of the bounds' centre, spanning the height. Left and right are reversed at the constant centre y, spanning the width. |
| WidgetActions.PerformAllSpec | project/pcComponents/exploration/src/main/kotlin/org/droidmate/exploration/actions/WidgetActions.kt:96-110 | Building the due non-swipe actions in order succeeds iff each is allowed. On success there is one action of each kind in order, and one target per action. On a throw the targets hold a proper prefix of the appends. |
| WidgetActions.AvailableActions | project/pcComponents/exploration/src/main/kotlin/org/droidmate/exploration/actions/WidgetActions.kt:96-119 | The order is long-click, click, tick, then the four swipes (up, down, right, left). Targets grow by one per non-swipe action and by nothing for swipes. The call returns iff every due action is allowed. |
| WidgetActions.AvailableActionsLength | project/pcComponents/exploration/src/main/kotlin/org/droidmate/exploration/actions/WidgetActions.kt:96-119 | The length is [longClickable] + [clickable or selected] + [checked present] + 4·[scrollable]. |
| WidgetActions.AvailableActionsThrows | project/pcComponents/exploration/src/main/kotlin/org/droidmate/exploration/actions/WidgetActions.kt:96-119 | Throws iff a long click, a tick or a coordinate click is due on an invisible or disabled widget, or any click is due on a disabled one. |
| ActionCounter.IncAt | project/pcComponents/core/src/main/kotlin/org/droidmate/exploration/statemodel/features/ActionCounterMF.kt:53 | Incrementing a widget's per-state map raises that state's count by one and no other state's count. The sum rises by one. |
| ActionCounter.IncAtWellFormed | project/pcComponents/core/src/main/kotlin/org/droidmate/exploration/statemodel/features/ActionCounterMF.kt:53 | The incremented map has exactly the old states plus the incremented one, and still one positive entry per state. |
| ActionCounter.Record | project/pcComponents/core/src/main/kotlin/org/droidmate/exploration/statemodel/features/ActionCounterMF.kt:48-54 | Recording one target gives a count to exactly the old states plus the one acted from. |
| ActionCounter.RecordCounts | project/pcComponents/core/src/main/kotlin/org/droidmate/exploration/statemodel/features/ActionCounterMF.kt:48-54 | One target raises its (widget, state) count, its widget total, the state count and its package count by exactly one. No other count changes. |
| ActionCounter.RecordWellFormed | project/pcComponents/core/src/main/kotlin/org/droidmate/exploration/statemodel/features/ActionCounterMF.kt:48-54 | Recording a target keeps every stored count positive and one entry per state. |
| ActionCounter.OnNewInteracted | project/pcComponents/core/src/main/kotlin/org/droidmate/exploration/statemodel/features/ActionCounterMF.kt:47-55 | After an update, the states with a count are the old ones, plus the previous state iff there was a target. |
| ActionCounter.OnNewInteractedCounts | project/pcComponents/core/src/main/kotlin/org/droidmate/exploration/statemodel/features/ActionCounterMF.kt:47-55 | Each (widget, state) count rises by the number of targets with that uid, for the previous state only. Each widget total rises by its number of targets, and the state count by the number of targets. Each package count rises by the number of targets in that package, the app's own package included. |
| ActionCounter.OnNewInteractedWellFormed | project/pcComponents/core/src/main/kotlin/org/droidmate/exploration/statemodel/features/ActionCounterMF.kt:47-55 | An update keeps the counter well formed. |
| ActionCounter.CountersNeverDecrease | project/pcComponents/core/src/main/kotlin/org/droidmate/exploration/statemodel/features/ActionCounterMF.kt:47-55 | No counter decreases across an update. |
| ActionCounter.WidgetCntBoundsStateCnt | project/pcComponents/core/src/main/kotlin/org/droidmate/exploration/statemodel/features/ActionCounterMF.kt:101-113 | In a well-formed counter, a widget's per-state count is never negative and never exceeds its overall count, the sum over states. |
| ActionCounter.ReplayCounts | project/pcComponents/core/src/main/kotlin/org/droidmate/exploration/statemodel/features/ActionCounterMF.kt:47-55 | After any sequence of updates from empty counters, each (widget, state) count and each state count equals its number of occurrences in the history. |
| ActionCounter.ReplayStates | project/pcComponents/core/src/main/kotlin/org/droidmate/exploration/statemodel/features/ActionCounterMF.kt:51 | After a replay, the states with a count are exactly those some target was acted on from, and every stored count is positive. |
| ActionCounter.NumStatesAfterReplay | project/pcComponents/core/src/main/kotlin/org/droidmate/exploration/statemodel/features/ActionCounterMF.kt:73-76 | `numStates` is the number of states with at least one interaction. |
| ActionCounter.NumExploredAfterReplay | project/pcComponents/core/src/main/kotlin/org/droidmate/exploration/statemodel/features/ActionCounterMF.kt:84-99 | After any sequence of updates from empty counters, `numExplored` (over the actionable widgets or a given selection) maps each widget to the number of times a target with its uid was acted on from that state. |
| ActionCounter.Unexplored | project/pcComponents/core/src/main/kotlin/org/droidmate/exploration/statemodel/features/ActionCounterMF.kt:66-69 | The result is exactly the actionable widgets of the state whose in-state count is 0. |
| ActionCounter.UnexploredAfterInteraction | project/pcComponents/core/src/main/kotlin/org/droidmate/exploration/statemodel/features/ActionCounterMF.kt:47-69 | A widget stays unexplored in a state exactly until an update from that state targets its uid. |
| RandomWidget.GetAvailableWidgets | project/pcComponents/exploration/src/main/kotlin/org/droidmate/exploration/strategy/widget/RandomWidget.kt:110-113 | Exactly the visible targets that are not keyboard widgets and are not input fields whose text was already inserted. |
| RandomWidget.ExcludeBlacklisted | project/pcComponents/exploration/src/main/kotlin/org/droidmate/exploration/strategy/widget/RandomWidget.kt:120-129 | The widgets not blacklisted in the state (threshold 1), and the subset of those not blacklisted overall (threshold 2). |
| RandomWidget.ComputeCandidates | project/pcComponents/exploration/src/main/kotlin/org/droidmate/exploration/strategy/widget/RandomWidget.kt:138-148 | Candidates are usable supported widgets: clickable, long-clickable, checkable or input field. The first non-empty tier is used: blacklisted nowhere, else not blacklisted in the state, else all usable. |
| RandomWidget.LeastInState | project/pcComponents/exploration/src/main/kotlin/org/droidmate/exploration/strategy/widget/RandomWidget.kt:154-167 | Exactly the candidates with the least effective count: the package count for other packages, the in-state count for the app. It is absent iff there is no candidate. |
| RandomWidget.TieBreakKeepsLeastOverall | project/pcComponents/exploration/src/main/kotlin/org/droidmate/exploration/strategy/widget/RandomWidget.kt:167-175 | Among several least-interacted candidates, the tie-break keeps exactly those with the least overall count among candidates tied with them. |
| RandomWidget.GetCandidates | project/pcComponents/exploration/src/main/kotlin/org/droidmate/exploration/strategy/widget/RandomWidget.kt:151-176 | The result is a subset of the candidates with the minimal effective count, then the minimal overall count among the tied ones, and every widget meeting both is in it. It is empty iff there are no candidates. |
| RandomWidget.RandomStringAsWritten | project/pcComponents/exploration/src/main/kotlin/org/droidmate/exploration/strategy/widget/RandomWidget.kt:201-205 | As written: a one-word dictionary gives that word, a larger one never yields its last word, and with no dictionary the result is 3 to 22 lower-case letters. |
| RandomWidget.RandomStringAsWrittenMissesLast | project/pcComponents/exploration/src/main/kotlin/org/droidmate/exploration/strategy/widget/RandomWidget.kt:204 | As written, the dictionary ["a", "b"] always gives "a", whatever the draw. |
| RandomWidget.WrittenDrawIsIntendedDraw | project/pcComponents/exploration/src/main/kotlin/org/droidmate/exploration/strategy/widget/RandomWidget.kt:201-212 | Every word the written `randomString` gives is one the intended version gives for some draw, so the intended version only adds the last word. |
| RandomWidget.RandomString | project/pcComponents/exploration/src/main/kotlin/org/droidmate/exploration/strategy/widget/RandomWidget.kt:201-212 | A one-word dictionary gives that word; a larger one gives one of its words. With no dictionary the result is 3 to 22 lower-case letters. |
| RandomWidget.RandomStringReachesAll | project/pcComponents/exploration/src/main/kotlin/org/droidmate/exploration/strategy/widget/RandomWidget.kt:201-212 | In the corrected version every dictionary word can be drawn, and so can every length from 3 to 22. |
| RandomWidget.ResolveAsWritten | project/pcComponents/exploration/src/main/kotlin/org/droidmate/exploration/strategy/widget/RandomWidget.kt:215-219 | As written, only an interactive chosen widget is ever resolved, and it resolves to itself. |
| RandomWidget.ResolveInteractive | project/pcComponents/exploration/src/main/kotlin/org/droidmate/exploration/strategy/widget/RandomWidget.kt:215-219 | The intended parent walk: an interactive widget resolves to itself. Any resolved widget is interactive and is the chosen widget or one on screen. |
| RandomWidget.ResolveAsWrittenLoops | project/pcComponents/exploration/src/main/kotlin/org/droidmate/exploration/strategy/widget/RandomWidget.kt:217-218 | Take a non-interactive widget whose parent on screen is interactive. The written loop never ends, while the intended walk acts on the parent. |
| RandomWidget.ActionList | project/pcComponents/exploration/src/main/kotlin/org/droidmate/exploration/strategy/widget/RandomWidget.kt:224-228 | An input field gets exactly one text insertion of a random string. Any other widget gets its available actions, with the swipes dropped unless random scrolling is on. |
| RandomWidget.ChooseActionForWidget | project/pcComponents/exploration/src/main/kotlin/org/droidmate/exploration/strategy/widget/RandomWidget.kt:214-245 | An action is chosen iff the widget resolves and its action list is built and non-empty. Then the action is in that list, and the targets are their value before the call plus exactly the resolved widget. |
| RandomWidget.InteractiveWidgetIsTarget | project/pcComponents/exploration/src/main/kotlin/org/droidmate/exploration/strategy/widget/RandomWidget.kt:214-219 | An interactive chosen widget is acted on itself: a chosen action adds exactly that widget to the targets. |
| RandomWidget.ChooseRandomlyFrom | project/pcComponents/exploration/src/main/kotlin/org/droidmate/exploration/strategy/widget/RandomWidget.kt:132-136 | An empty list launches the app with the targets untouched. Otherwise the decision acts on some element `ws[i]` with `0 <= i < size`. |
| RandomWidget.EveryWidgetReachable | project/pcComponents/exploration/src/main/kotlin/org/droidmate/exploration/strategy/widget/RandomWidget.kt:132-136 | Every element of the list is the one acted on for some draw. |
| RandomWidget.ChooseBiased | project/pcComponents/exploration/src/main/kotlin/org/droidmate/exploration/strategy/widget/RandomWidget.kt:178-186 | With no candidate it closes and returns. Otherwise it acts on one of the least-interacted candidates. |
| RandomWidget.ChooseRandomly | project/pcComponents/exploration/src/main/kotlin/org/droidmate/exploration/strategy/widget/RandomWidget.kt:188-190 | Plain mode chooses among the state's actionable widgets, and launches the app when there are none. |
| RandomWidget.ChooseRandomWidget | project/pcComponents/exploration/src/main/kotlin/org/droidmate/exploration/strategy/widget/RandomWidget.kt:192-199 | Biased: closes and returns iff there are no candidates, otherwise acts on one of the least-interacted candidates. Plain: launches the app iff the state has no actionable widget, otherwise acts on one of them. |
| RandomWidget.ComputeNextAction | project/pcComponents/exploration/src/main/kotlin/org/droidmate/exploration/strategy/widget/RandomWidget.kt:247-254 | An empty trace gives launch-app with the targets untouched. On a non-empty trace the decision is the configured one: biased closes and returns iff there is no candidate and otherwise acts on a candidate; plain launches iff nothing is actionable and otherwise acts on an actionable widget. |
| RandomWidget.EmptyTraceLaunches | project/pcComponents/exploration/src/main/kotlin/org/droidmate/exploration/strategy/widget/RandomWidget.kt:247-254 | On an empty trace the decision does not depend on state, counters, configuration or draws. |
| RandomWidget.BiasedChoiceActsOnLeastInteracted | project/pcComponents/exploration/src/main/kotlin/org/droidmate/exploration/strategy/widget/RandomWidget.kt:178-245 | Suppose a biased decision acts on a widget. That widget is the interactive one resolved from a usable, supported, least-interacted candidate, and it is the only target added. |
| ExplorationTraces.EmptyRowRoundTrip | dev/droidmate/projects/core/src/main/kotlin/org/droidmate/device/datatypes/statemodel/ExplorationTraces.kt:56-77 | The placeholder record, written as a row, has the 8 columns and reads back as itself, with its missing action type as "" and a decision time of 0. |
| ExplorationTraces.HeaderColumns | dev/droidmate/projects/core/src/main/kotlin/org/droidmate/device/datatypes/statemodel/ExplorationTraces.kt:79-85 | The header has 8 columns in the order Source State, Action, Interacted Widget, Resulting State, StartTime, EndTime, SuccessFul, Exception. |
| ExplorationTraces.ActionStringColumns | dev/droidmate/projects/core/src/main/kotlin/org/droidmate/device/datatypes/statemodel/ExplorationTraces.kt:56-65 | A record line has 8 columns, with the source state first, the resulting state fourth and the exception last. |
| ExplorationTraces.CreateFromString | dev/droidmate/projects/core/src/main/kotlin/org/droidmate/device/datatypes/statemodel/ExplorationTraces.kt:71-74 | Parsing succeeds iff there are at least 8 fields and both timestamps parse. The fields land in their columns' attributes, and the screenshot is absent. |
| ExplorationTraces.RowRoundTrip | dev/droidmate/projects/core/src/main/kotlin/org/droidmate/device/datatypes/statemodel/ExplorationTraces.kt:56-74 | Parsing the split record line recovers the record, provided no field holds the separator. A missing action type comes back as "" and the screenshot as absent. |
| ExplorationTraces.DecisionTimeRoundTrip | dev/droidmate/projects/core/src/main/kotlin/org/droidmate/device/datatypes/statemodel/ExplorationTraces.kt:53-74 | The decision time (end minus start) survives a round trip through the text form. |
| ExplorationTraces.AddActionExtends | dev/droidmate/projects/core/src/main/kotlin/org/droidmate/device/datatypes/statemodel/ExplorationTraces.kt:136-163 | After appending a record, the old trace equals the new one and comparing the new one against the old one throws index-out-of-bounds. Appending alone leaves `unexplored` unchanged. |
| ExplorationTraces.InternalUpdate | dev/droidmate/projects/core/src/main/kotlin/org/droidmate/device/datatypes/statemodel/ExplorationTraces.kt:119-126 | Appends the target, possibly null, to the targets. An edit-field target adds (state, target) to the bucket keyed by the state's `iEditId`, and every other bucket is unchanged. |
| ExplorationTraces.Advance | dev/droidmate/projects/core/src/main/kotlin/org/droidmate/device/datatypes/statemodel/ExplorationTraces.kt:101-104 | The update after its record is built: exactly one record is appended, the cursor moves to the new state, the record's target is appended, and watchers are told (record, old state, new state). |
| ExplorationTraces.UpdateAsWritten | dev/droidmate/projects/core/src/main/kotlin/org/droidmate/device/datatypes/statemodel/ExplorationTraces.kt:128-132 | As written, one record is appended and the earlier ones kept; it stores resState = the old cursor and prevState = the new state. The cursor becomes the new state, the result's target is appended, and watchers are told (record, old state, new state). |
| ExplorationTraces.UpdateAsWrittenKeepsSwappedLinks | dev/droidmate/projects/core/src/main/kotlin/org/droidmate/device/datatypes/statemodel/ExplorationTraces.kt:68-69 | As written, each record's prevState is the next record's resState, and the first record's resState is `emptyId`. |
| ExplorationTraces.UpdateStoresSwappedIds | dev/droidmate/projects/core/src/main/kotlin/org/droidmate/device/datatypes/statemodel/ExplorationTraces.kt:129 | As written, the first update of a new trace stores `emptyId` as its resulting state and the reached state as its source, so the trace is not linked. The corrected update stores them the other way. |
| ExplorationTraces.UpdatesTrackTargets | dev/droidmate/projects/core/src/main/kotlin/org/droidmate/device/datatypes/statemodel/ExplorationTraces.kt:101-132 | Both the written and the corrected update keep one target per record, the `i`-th target being the `i`-th record's target widget. |
| ExplorationTraces.Update | dev/droidmate/projects/core/src/main/kotlin/org/droidmate/device/datatypes/statemodel/ExplorationTraces.kt:128-134 | The corrected update appends one record and keeps the earlier ones. The record's source is the old cursor and its result is the new state. The cursor becomes the new state and the target is appended. |
| ExplorationTraces.UpdateKeepsLinked | dev/droidmate/projects/core/src/main/kotlin/org/droidmate/device/datatypes/statemodel/ExplorationTraces.kt:101-140 | The corrected update keeps a trace linked: one target per record, each record's resState is the next record's prevState, the first source is `emptyId` and the last result is the cursor. |
| ExplorationTraces.ReplayLinked | dev/droidmate/projects/core/src/main/kotlin/org/droidmate/device/datatypes/statemodel/ExplorationTraces.kt:128-134 | Any sequence of corrected updates from a new trace gives a linked trace with one record per update, whose cursor is the last state. |
| ExplorationTraces.Unexplored | dev/droidmate/projects/core/src/main/kotlin/org/droidmate/device/datatypes/statemodel/ExplorationTraces.kt:136 | The order-preserving sub-list of candidates whose uid matches no non-null target. |
| ExplorationTraces.UnexploredIdempotent | dev/droidmate/projects/core/src/main/kotlin/org/droidmate/device/datatypes/statemodel/ExplorationTraces.kt:136 | Filtering twice is filtering once. |
| ExplorationTraces.UnexploredShrinks | dev/droidmate/projects/core/src/main/kotlin/org/droidmate/device/datatypes/statemodel/ExplorationTraces.kt:119-136 | Neither the written nor the corrected update makes a widget unexplored again, and after either one no widget with the target's uid is unexplored. |
| ExplorationTraces.FoldEqualsPrefix | dev/droidmate/projects/core/src/main/kotlin/org/droidmate/device/datatypes/statemodel/ExplorationTraces.kt:159-163 | The short-circuiting fold is true iff the records are a prefix of the other's. It throws index-out-of-bounds when this trace is longer and still matches everywhere it can. |
| ExplorationTraces.EqualsIsPrefix | dev/droidmate/projects/core/src/main/kotlin/org/droidmate/device/datatypes/statemodel/ExplorationTraces.kt:159-163 | `equals` holds iff this trace's records are the first `size` records of the other. A longer trace whose prefix matches throws. |
| ExplorationTraces.EqualsReflexive | dev/droidmate/projects/core/src/main/kotlin/org/droidmate/device/datatypes/statemodel/ExplorationTraces.kt:159-163 | Every trace equals itself. |
| ExplorationTraces.EqualsExtension | dev/droidmate/projects/core/src/main/kotlin/org/droidmate/device/datatypes/statemodel/ExplorationTraces.kt:128-163 | A trace equals its extension by the written or the corrected update, since prefix semantics makes `equals` asymmetric. |
| ExplorationTraces.DumpReadsBack | dev/droidmate/projects/core/src/main/kotlin/org/droidmate/device/datatypes/statemodel/ExplorationTraces.kt:144-153 | The dump has the header and then one line per record. Each line has as many columns as the header and reads back as its record. |
| ActionBasedTerminate.UpdateState | dev/droidmate/projects/core/src/main/kotlin/org/droidmate/exploration/strategy/termination/ActionBasedTerminate.kt:51-59 | One action is spent exactly when the memory is non-empty. The budget is unchanged. |
| ActionBasedTerminate.RunSpendsBudget | dev/droidmate/projects/core/src/main/kotlin/org/droidmate/exploration/strategy/termination/ActionBasedTerminate.kt:51-59 | After any run of updates, the actions left are the start minus the number of updates with a non-empty memory. |
| ActionBasedTerminate.MetAfterBudget | dev/droidmate/projects/core/src/main/kotlin/org/droidmate/exploration/strategy/termination/ActionBasedTerminate.kt:34-67 | From the initial state, `met` holds iff the updates with a non-empty memory reach the budget: the number of widget indexes when there are any, else the action limit. The budget never changes. |
| ActionBasedTerminate.LogMessageReadsBack | dev/droidmate/projects/core/src/main/kotlin/org/droidmate/exploration/strategy/termination/ActionBasedTerminate.kt:43-45 | The message splits into performed and budget, both of which parse back. Performed is the budget minus the actions left. |
| ActionBasedTerminate.EqualsContract | dev/droidmate/projects/core/src/main/kotlin/org/droidmate/exploration/strategy/termination/ActionBasedTerminate.kt:69-78 | `equals` is an equivalence on the budget that ignores the actions left, and equal instances hash alike. |
| LoginWithGoogle.ClickFirst | dev/droidmate/projects/core/src/main/kotlin/org/droidmate/exploration/strategy/login/LoginWithGoogle.kt:46-85 | A click succeeds iff a matching widget exists. It clicks the first matching widget (no earlier widget matches) with the 1000 ms delay and moves to the given next state; otherwise it throws. |
| LoginWithGoogle.GetWidgetAction | dev/droidmate/projects/core/src/main/kotlin/org/droidmate/exploration/strategy/login/LoginWithGoogle.kt:110-118 | Priority is Google (only from Start), then account, then accept, moving to AccountDisplayed, AccountSelected and Done respectively. With none applicable it throws. |
| LoginWithGoogle.FitnessMeansChoosable | dev/droidmate/projects/core/src/main/kotlin/org/droidmate/exploration/strategy/login/LoginWithGoogle.kt:95-128 | Before login is done and without a permission dialog, the fitness is SPECIFIC_WIDGET iff choosing an action succeeds. |
| LoginWithGoogle.MoreActionsUntilAccountClickable | dev/droidmate/projects/core/src/main/kotlin/org/droidmate/exploration/strategy/login/LoginWithGoogle.kt:87-128 | When the actionable widgets are the screen's visible widgets, more actions are needed iff no account entry can be clicked. From AccountDisplayed, a screen that ends the need makes the strategy select the account. |
| LoginWithGoogle.LoginRun | dev/droidmate/projects/core/src/main/kotlin/org/droidmate/exploration/strategy/login/LoginWithGoogle.kt:41-118 | Screens offering the Google button, then an account entry, then the accept button take the machine from Start through AccountDisplayed and AccountSelected to Done. |
| LoginWithGoogle.GoogleOnlyFromStart | dev/droidmate/projects/core/src/main/kotlin/org/droidmate/exploration/strategy/login/LoginWithGoogle.kt:41-44 | After Start, a screen with only Google buttons leaves no action to take. |
| ReportExtensions.UniqueActionableWidgets | dev/droidmate/projects/reporter/src/main/kotlin/org/droidmate/report/misc/extensions_IExplorationLog.kt:28-32 | Holds only actionable widgets, at most one per uid, and every actionable uid is represented. |
| ReportExtensions.UniqueClickedWidgets | dev/droidmate/projects/reporter/src/main/kotlin/org/droidmate/report/misc/extensions_IExplorationLog.kt:34-37 | Exactly the non-null record targets. |
| ReportExtensions.ClickedUidsAreTargetUids | dev/droidmate/projects/reporter/src/main/kotlin/org/droidmate/report/misc/extensions_IExplorationLog.kt:34-37 | When the targets follow the records one to one, as both the written and the corrected update keep them, the clicked widgets' uids are the uids that `unexplored` excludes. |
| ReportExtensions.UniqueEventApiPairs | dev/droidmate/projects/reporter/src/main/kotlin/org/droidmate/report/misc/extensions_IExplorationLog.kt:43-48 | A pair is present iff its uid is some record's target uid (or `emptyUUID` for a record without target) and its API is one of the logged APIs. |
| ReportExtensions.UniqueApis | dev/droidmate/projects/reporter/src/main/kotlin/org/droidmate/report/misc/extensions_IExplorationLog.kt:39-48 | The unique APIs are every logged API once the trace has a record, and none before. |
| ReportExtensions.UniqueApisAreLoggedApis | dev/droidmate/projects/reporter/src/main/kotlin/org/droidmate/report/misc/extensions_IExplorationLog.kt:40-48 | The unique APIs are the second components of the pairs: all logged APIs once there is a record, none before. A pair's uid is a record target's uid or `emptyUUID`. |
| ReportExtensions.ResetActionsCount | dev/droidmate/projects/reporter/src/main/kotlin/org/droidmate/report/misc/extensions_IExplorationLog.kt:50-51 | The count is the number of positions whose record has the reset action type, so it is at most the trace length. |
| ReportExtensions.ResetCountAfterUpdate | dev/droidmate/projects/reporter/src/main/kotlin/org/droidmate/report/misc/extensions_IExplorationLog.kt:50-51 | The written and the corrected update each raise the reset count by one exactly for a reset action. |
| ReportExtensions.UnderscoresForDots | dev/droidmate/projects/reporter/src/main/kotlin/org/droidmate/report/misc/extensions_IExplorationLog.kt:53-54 | Same length, no '.', every '.' becomes '_' and every other character is unchanged. |
| ReportExtensions.UnderscoresForDotsIdempotent | dev/droidmate/projects/reporter/src/main/kotlin/org/droidmate/report/misc/extensions_IExplorationLog.kt:53-54 | Replacing dots twice is the same as replacing them once. |

## Left out

- Coroutines, `launch`, `job.joinChildren`, `synchronized` and the dump mutex are left out. Updates are synchronous and the joins are no-ops, because that code exists only for concurrency.
- File I/O is left out: `Trace.dump` writing its file, and the timestamp/hash file name. Only the dumped lines are modelled.
- `java.util.Random`, `random.ints`, the random seed and configuration loading are left out. Each draw is an explicit `Draws` field, taken modulo the bound.
- Logging, `debugT` timing and `LocalDateTime` are left out. Timestamps are integers written in decimal, so `decisionTime` is a plain difference.
- `MarkerFilter.kt` is not part of this model. It is a logback filter over library state that is not in the repository's core.
- The deprecated `RandomWidget` constructor and the JVM `assert` checks are left out. Assertions are off by default, so the checks do not change behaviour; an empty action list fails at `nextInt(0)` instead.
- `BlackListMF`, `nonCrashingWidgets`, `insertedTextValues`, `listOfSmallest`, `getCounter`/`sumCounter`/`incCnt`, `ConcreteId` and `emptyId` are not part of this model. They are modelled from their names and their use:
  - blacklisting is a failure count at or above a threshold;
  - crashing widgets are a set of uids;
  - inserted texts are a set of strings;
  - `listOfSmallest` keeps the entries with the least key and is null on an empty input;
  - a missing counter reads as 0;
  - ids are strings.
- The trace separator `sep` is not defined in the modelled files and is taken to be ';'.
- `LowerAscii` lower-cases ASCII letters only, not the whole of Unicode as `toLowerCase()` does.
- ExplorationTraces.Equals: compares records structurally, while the source's `ActionData` compares by reference. `Trace.hashCode` is left out.
- `super.updateState` of the termination base class is not part of this model.
- ActionCounter.OnNewInteractedCounts: does not model 32-bit overflow of the counters. It would take 2^31 interactions.
- ActionCounter.OnNewInteracted: takes the previous state's uid only. The trace id and the new state are unused by the source.
- RandomWidget.ResolveInteractive: is bounded by one step per widget on screen plus one. A longer walk has revisited a widget and would repeat forever, and it is reported as `Cycles`. That this bound is exact is argued, not proved.
- RandomWidget.ChooseActionForWidget: uses the intended parent walk and the intended `randomString`. The as-written versions are modelled separately (see Findings).
- RandomWidget.ActionList: inserts the intended `randomString`, which draws from the whole dictionary, while the written one never draws a dictionary's last word (see Findings). ChooseBiased, ChooseRandomly, ChooseRandomWidget and ComputeNextAction inherit this. Every written answer is also an intended one (RandomWidget.WrittenDrawIsIntendedDraw), so the model allows one more word than the source and never fewer.
- PcModel.Center: `Rectangle.center` is not part of this model. It is taken to be (leftX + width/2, topY + height/2) with Kotlin's truncating division, on unbounded integers. The source's `Int` sums would wrap for coordinates near 2^31, far beyond any screen.
- ExplorationTraces.ReplayLinked: holds for the corrected update only. A trace built by the written update keeps the swapped chain instead (ExplorationTraces.UpdateAsWrittenKeepsSwappedLinks).
- ExplorationTraces.CreateFromString: parses timestamps as decimal integers, and the screenshot URI and the device logs are not modelled.
- The `launchApp` and `closeAndReturn` actions are treated as not touching the widget-target list.

## Findings

| source | as written | input that shows it | evidently intended | confidence | as-written member | corrected member |
|---|---|---|---|---|---|---|
| project/pcComponents/exploration/src/main/kotlin/org/droidmate/exploration/strategy/widget/RandomWidget.kt:204 | `dictionary[random.nextInt(dictionary.size-1)]` | dictionary ["a", "b"]: every draw gives "a" | draw from the whole dictionary, `nextInt(dictionary.size)` | high; not executed | RandomWidget.RandomStringAsWrittenMissesLast | RandomWidget.RandomStringReachesAll |
| project/pcComponents/exploration/src/main/kotlin/org/droidmate/exploration/strategy/widget/RandomWidget.kt:217-218 | the loop tests `chosenWidget.isInteractive` and matches `chosenWidget.parentId`; neither ever changes | a non-interactive widget whose parent is on screen: the loop never ends | climb from `widget` until an interactive ancestor is reached | high; not executed | RandomWidget.ResolveAsWrittenLoops | RandomWidget.ResolveInteractive |
| dev/droidmate/projects/core/src/main/kotlin/org/droidmate/device/datatypes/statemodel/ExplorationTraces.kt:129 | `ActionData(action, this.newState.stateId, newState.stateId)` against the parameters `(resStateId, prevStateId)` at line 68 | the first update of a new trace stores resState `emptyId` and prevState the reached state | resState = the reached state, prevState = the old cursor | medium; not executed | ExplorationTraces.UpdateStoresSwappedIds | ExplorationTraces.UpdateKeepsLinked |
