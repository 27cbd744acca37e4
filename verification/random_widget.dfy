/** The `RandomWidget` exploration strategy: filter the screen's widgets down to
    candidates, prefer the least-interacted ones, pick one with an explicit
    random draw, and pick one of its actions. Every `random.nextInt(n)` is an
    explicit draw `pick % n`; the shared widget-target list is threaded through
    the result. */
module RandomWidget {
  import opened Wrappers
  import opened Seqs
  import opened PcModel
  import opened WidgetActions
  import opened ActionCounter

  /* ---------------------------------------------------------------------------
     Inputs
     ------------------------------------------------------------------------ */

  /** Failed-action counts of the blacklist watcher, per (widget, state) and per
      widget over all states. */
  datatype BlackList = BlackList(inState: map<(UUID, UUID), int>, overall: map<UUID, int>)

  /** `isBlacklistedInState`: the widget failed at least `threshold` times in the state. */
  predicate IsBlacklistedInState(b: BlackList, wId: UUID, sId: UUID, threshold: int) {
    Get(b.inState, (wId, sId)) >= threshold
  }

  /** `isBlacklisted`: the widget failed at least `threshold` times overall. */
  predicate IsBlacklisted(b: BlackList, wId: UUID, threshold: int) {
    Get(b.overall, wId) >= threshold
  }

  /** The default thresholds of `excludeBlacklisted`. */
  const InStateThreshold: int := 1
  const OverallThreshold: int := 2

  /** The strategy's configuration. */
  datatype Config = Config(dictionary: seq<string>, useCoordinateClicks: bool, biased: bool, randomScroll: bool, delay: int)

  /** What the strategy reads from the exploration context: the current state,
      whether the trace is empty, the app's package, the text values already
      inserted, the uids of widgets whose actions crashed, and the two watchers. */
  datatype Context = Context(
    state: State,
    traceIsEmpty: bool,
    apkPackage: string,
    insertedTextValues: set<string>,
    crashingUids: set<UUID>,
    counter: Counter,
    blackList: BlackList)

  /** The random draws one decision consumes. */
  datatype Draws = Draws(widgetPick: nat, dictionaryPick: nat, lengthPick: nat, letterPick: nat -> nat, actionPick: nat)

  /** The strategy's decision with the widget-target list as it leaves it; a
      walk up the parent chain that never ends is `Diverges`. */
  datatype Choice =
    | Chosen(action: ExplorationAction, targets: seq<Widget>)
    | Thrown(message: string, targets: seq<Widget>)
    | Diverges(targets: seq<Widget>)

  /* ---------------------------------------------------------------------------
     Candidates
     ------------------------------------------------------------------------ */

  /** `getAvailableWidgets`: the visible targets, minus keyboard widgets and
      input fields whose text was already inserted. */
  function GetAvailableWidgets(ctx: Context): (r: seq<Widget>)
    ensures forall w :: w in r <==> w in ctx.state.visibleTargets && !w.isKeyboard && !(w.isInputField && w.text in ctx.insertedTextValues)
  {
    Filter(ctx.state.visibleTargets, (w: Widget) => !w.isKeyboard && (!w.isInputField || w.text !in ctx.insertedTextValues))
  }

  /** `nonCrashingWidgets`: drop the widgets whose actions crashed. */
  function NonCrashing(ctx: Context, ws: seq<Widget>): (r: seq<Widget>)
    ensures forall w :: w in r <==> w in ws && w.uid !in ctx.crashingUids
  {
    Filter(ws, (w: Widget) => w.uid !in ctx.crashingUids)
  }

  /** The available, non-crashing widgets. */
  function Usable(ctx: Context): seq<Widget> {
    NonCrashing(ctx, GetAvailableWidgets(ctx))
  }

  predicate CleanInState(ctx: Context, w: Widget) {
    !IsBlacklistedInState(ctx.blackList, w.uid, ctx.state.uid, InStateThreshold)
  }

  predicate CleanOverall(ctx: Context, w: Widget) {
    !IsBlacklisted(ctx.blackList, w.uid, OverallThreshold)
  }

  /** `excludeBlacklisted` before its block: the candidates not blacklisted in
      the state, and of those the ones not blacklisted overall. */
  function ExcludeBlacklisted(ctx: Context, candidates: seq<Widget>): (r: (seq<Widget>, seq<Widget>))
    ensures forall w :: w in r.0 <==> w in candidates && CleanInState(ctx, w)
    ensures forall w :: w in r.1 <==> w in r.0 && CleanOverall(ctx, w)
  {
    var noBlacklistedInState := Filter(candidates, (w: Widget) => CleanInState(ctx, w));
    (noBlacklistedInState, Filter(noBlacklistedInState, (w: Widget) => CleanOverall(ctx, w)))
  }

  /** The widgets some action of the strategy supports. */
  predicate Supported(w: Widget) {
    w.clickable || w.longClickable || w.checked.Some? || w.isInputField
  }

  /** `computeCandidates`: the widgets blacklisted nowhere if there are any,
      else those not blacklisted in the state if there are any, else all usable
      widgets; then only those with a supported action. */
  function ComputeCandidates(ctx: Context): (r: seq<Widget>)
    ensures forall w :: w in r ==> w in Usable(ctx) && Supported(w)
    ensures (exists v :: v in Usable(ctx) && CleanInState(ctx, v) && CleanOverall(ctx, v)) ==>
              forall w :: w in r <==> w in Usable(ctx) && CleanInState(ctx, w) && CleanOverall(ctx, w) && Supported(w)
    ensures (forall v :: v in Usable(ctx) && CleanInState(ctx, v) ==> !CleanOverall(ctx, v))
            && (exists v :: v in Usable(ctx) && CleanInState(ctx, v)) ==>
              forall w :: w in r <==> w in Usable(ctx) && CleanInState(ctx, w) && Supported(w)
    ensures (forall v :: v in Usable(ctx) ==> !CleanInState(ctx, v)) ==>
              forall w :: w in r <==> w in Usable(ctx) && Supported(w)
  {
    var nonCrashing := Usable(ctx);
    var (noBlacklistedInState, noBlacklisted) := ExcludeBlacklisted(ctx, nonCrashing);
    var chosen := if |noBlacklisted| > 0 then noBlacklisted
                  else if |noBlacklistedInState| > 0 then noBlacklistedInState
                  else nonCrashing;
    assert |noBlacklisted| > 0 <==> exists v :: v in nonCrashing && CleanInState(ctx, v) && CleanOverall(ctx, v) by {
      if |noBlacklisted| > 0 { assert noBlacklisted[0] in noBlacklisted; }
    }
    assert |noBlacklistedInState| > 0 <==> exists v :: v in nonCrashing && CleanInState(ctx, v) by {
      if |noBlacklistedInState| > 0 { assert noBlacklistedInState[0] in noBlacklistedInState; }
    }
    Filter(chosen, Supported)
  }

  /** The count a candidate competes with: the package's count for a widget of
      another package, its count in the current state otherwise. */
  function EffectiveCount(ctx: Context, w: Widget): int {
    if w.packageName != ctx.apkPackage then PkgCount(ctx.counter, w.packageName)
    else CntForState(ctx.counter, w.uid, ctx.state.uid)
  }

  function EffectiveKey(ctx: Context): Widget -> int {
    (w: Widget) => EffectiveCount(ctx, w)
  }

  function OverallKey(c: Counter): Widget -> int {
    (w: Widget) => WidgetCnt(c, w.uid)
  }

  /** Least effective count among the candidates. */
  predicate LeastEffective(ctx: Context, cands: seq<Widget>, w: Widget) {
    forall v :: v in cands ==> EffectiveCount(ctx, w) <= EffectiveCount(ctx, v)
  }

  /** Least overall count among the candidates tied with `w`. */
  predicate LeastOverallAmongTied(ctx: Context, cands: seq<Widget>, w: Widget) {
    forall v :: v in cands && EffectiveCount(ctx, v) == EffectiveCount(ctx, w) ==>
      WidgetCnt(ctx.counter, w.uid) <= WidgetCnt(ctx.counter, v.uid)
  }

  /** The candidates with the least effective count, grouped by package as
      `groupBy`/`flatMap` orders them; `None` when there is no candidate. */
  function LeastInState(ctx: Context): (r: Option<seq<Widget>>)
    ensures r.None? <==> |ComputeCandidates(ctx)| == 0
    ensures r.Some? ==> |r.value| > 0
    ensures r.Some? ==> forall w :: w in r.value <==> w in ComputeCandidates(ctx) && LeastEffective(ctx, ComputeCandidates(ctx), w)
  {
    var filtered := ComputeCandidates(ctx);
    var grouped := GroupedOrder(Distinct(filtered), (w: Widget) => w.packageName);
    assert forall w :: w in grouped <==> w in filtered;
    assert |filtered| > 0 <==> |grouped| > 0 by {
      if |filtered| > 0 { assert filtered[0] in grouped; }
      if |grouped| > 0 { assert grouped[0] in filtered; }
    }
    ListOfSmallest(grouped, EffectiveKey(ctx))
  }

  /** The tie-break: of several least-interacted candidates, those with the
      least overall count. */
  function TieBreak(c: Counter, leastInState: seq<Widget>): (r: seq<Widget>)
    requires |leastInState| > 0
    ensures |r| > 0
    ensures forall w :: w in r <==> w in leastInState && forall v :: v in leastInState ==> WidgetCnt(c, w.uid) <= WidgetCnt(c, v.uid)
  {
    ListOfSmallest(leastInState, OverallKey(c)).GetOr([leastInState[0]])
  }

  /** Breaking ties by overall count keeps exactly the least-interacted
      candidates that are least overall among those tied with them. */
  lemma TieBreakKeepsLeastOverall(ctx: Context, filtered: seq<Widget>, leastInState: seq<Widget>, least: seq<Widget>)
    requires forall w :: w in leastInState <==> w in filtered && LeastEffective(ctx, filtered, w)
    requires forall w :: w in least <==> w in leastInState && forall v :: v in leastInState ==> WidgetCnt(ctx.counter, w.uid) <= WidgetCnt(ctx.counter, v.uid)
    ensures forall w :: w in least <==> w in filtered && LeastEffective(ctx, filtered, w) && LeastOverallAmongTied(ctx, filtered, w)
  {
    forall w | w in filtered && LeastEffective(ctx, filtered, w) && LeastOverallAmongTied(ctx, filtered, w)
      ensures w in least
    {
      forall v | v in leastInState ensures WidgetCnt(ctx.counter, w.uid) <= WidgetCnt(ctx.counter, v.uid) {
        assert EffectiveCount(ctx, v) == EffectiveCount(ctx, w);
      }
    }
  }

  /** A single least-interacted candidate needs no tie-break. */
  lemma SingleLeastNeedsNoTieBreak(ctx: Context, filtered: seq<Widget>, leastInState: seq<Widget>)
    requires |leastInState| == 1
    requires forall w :: w in leastInState <==> w in filtered && LeastEffective(ctx, filtered, w)
    ensures forall w :: w in leastInState <==> w in filtered && LeastEffective(ctx, filtered, w) && LeastOverallAmongTied(ctx, filtered, w)
  {
    forall w | w in leastInState ensures LeastOverallAmongTied(ctx, filtered, w) {
      forall v | v in filtered && EffectiveCount(ctx, v) == EffectiveCount(ctx, w)
        ensures WidgetCnt(ctx.counter, w.uid) <= WidgetCnt(ctx.counter, v.uid)
      {
        assert v in leastInState;
        assert leastInState[0] == w && leastInState[0] == v;
      }
    }
  }

  /** `getCandidates`: of the candidates, those with the least effective count;
      among several such, those with the least overall count. Empty exactly
      when there are no candidates. */
  function GetCandidates(ctx: Context): (r: seq<Widget>)
    ensures |r| == 0 <==> |ComputeCandidates(ctx)| == 0
    ensures forall w :: w in r <==> && w in ComputeCandidates(ctx)
                                    && LeastEffective(ctx, ComputeCandidates(ctx), w)
                                    && LeastOverallAmongTied(ctx, ComputeCandidates(ctx), w)
  {
    match LeastInState(ctx)
    case None => []
    case Some(leastInState) =>
      if |leastInState| > 1 then
        var least := TieBreak(ctx.counter, leastInState);
        TieBreakKeepsLeastOverall(ctx, ComputeCandidates(ctx), leastInState, least);
        least
      else
        SingleLeastNeedsNoTieBreak(ctx, ComputeCandidates(ctx), leastInState);
        leastInState
  }

  /* ---------------------------------------------------------------------------
     randomString
     ------------------------------------------------------------------------ */

  const Alphabet: string := "abcdefghijklmnopqrstuvwxyz"

  predicate IsLowerLetter(c: char) {
    'a' <= c <= 'z'
  }

  /** Between 3 and 22 letters, each drawn from the alphabet. */
  function RandomLetters(d: Draws): (r: string)
    ensures |r| == d.lengthPick % 20 + 3
    ensures forall i :: 0 <= i < |r| ==> IsLowerLetter(r[i])
  {
    seq(d.lengthPick % 20 + 3, i requires 0 <= i => Alphabet[d.letterPick(i) % |Alphabet|])
  }

  /** `randomString` as written: a larger dictionary is indexed with
      `nextInt(size - 1)`, which never yields the last index. */
  function RandomStringAsWritten(dictionary: seq<string>, d: Draws): (r: string)
    ensures |dictionary| == 1 ==> r == dictionary[0]
    ensures |dictionary| > 1 ==> r in dictionary[..|dictionary| - 1]
    ensures |dictionary| == 0 ==> 3 <= |r| <= 22 && forall i :: 0 <= i < |r| ==> IsLowerLetter(r[i])
  {
    if |dictionary| > 0 then
      if |dictionary| == 1 then dictionary[0] else dictionary[d.dictionaryPick % (|dictionary| - 1)]
    else RandomLetters(d)
  }

  /** With the dictionary ["a", "b"] the written code never answers "b". */
  lemma RandomStringAsWrittenMissesLast(d: Draws)
    ensures RandomStringAsWritten(["a", "b"], d) == "a"
  {
  }

  /** `randomString` as intended: a dictionary word drawn from the whole
      dictionary, or 3 to 22 lower-case letters when there is none. */
  function RandomString(dictionary: seq<string>, d: Draws): (r: string)
    ensures |dictionary| == 1 ==> r == dictionary[0]
    ensures |dictionary| > 0 ==> r in dictionary
    ensures |dictionary| == 0 ==> 3 <= |r| <= 22 && forall i :: 0 <= i < |r| ==> IsLowerLetter(r[i])
  {
    if |dictionary| > 0 then
      if |dictionary| == 1 then dictionary[0] else dictionary[d.dictionaryPick % |dictionary|]
    else RandomLetters(d)
  }

  /** Every dictionary word, and every word length from 3 to 22, can be drawn. */
  lemma {:induction false} RandomStringReachesAll(dictionary: seq<string>, i: nat, n: nat)
    requires i < |dictionary|
    requires 3 <= n <= 22
    ensures RandomString(dictionary, Draws(0, i, 0, _ => 0, 0)) == dictionary[i]
    ensures |RandomString([], Draws(0, 0, n - 3, _ => 0, 0))| == n
  {
    assert i % |dictionary| == i;
    assert (n - 3) % 20 == n - 3;
  }

  /** Every answer of the written `randomString` is an answer of the intended
      one, for the draw reduced below the written bound: the intended version
      only adds the dictionary's last word. */
  lemma WrittenDrawIsIntendedDraw(dictionary: seq<string>, d: Draws)
    ensures var pick := if |dictionary| > 1 then d.dictionaryPick % (|dictionary| - 1) else d.dictionaryPick;
            RandomStringAsWritten(dictionary, d) == RandomString(dictionary, d.(dictionaryPick := pick))
  {
    if |dictionary| > 1 {
      var pick := d.dictionaryPick % (|dictionary| - 1);
      assert pick % |dictionary| == pick;
    }
  }

  /* ---------------------------------------------------------------------------
     chooseActionForWidget
     ------------------------------------------------------------------------ */

  /** How the widget to act on is found from the chosen one. */
  datatype Resolution = Resolved(widget: Widget) | NoSuchElement | Cycles

  function IsParentOf(child: Widget): Widget -> bool {
    (w: Widget) => child.parentId == Some(w.id)
  }

  /** The ancestor loop as written: its condition tests the chosen widget,
      which the body never changes, so a non-interactive widget either makes
      `first` throw (no parent on screen) or loops forever. */
  function ResolveAsWritten(widgets: seq<Widget>, chosen: Widget): (r: Resolution)
    ensures r.Resolved? <==> chosen.isInteractive
    ensures r.Resolved? ==> r.widget == chosen
  {
    if chosen.isInteractive then Resolved(chosen)
    else if First(widgets, IsParentOf(chosen)).Some? then Cycles
    else NoSuchElement
  }

  /** The ancestor walk as intended: climb parents until an interactive widget
      is reached. After `fuel` steps without one the walk has revisited a
      widget and would repeat forever. */
  function ResolveInteractive(widgets: seq<Widget>, w: Widget, fuel: nat): (r: Resolution)
    ensures w.isInteractive ==> r == Resolved(w)
    ensures r.Resolved? ==> r.widget.isInteractive && (r.widget == w || r.widget in widgets)
    decreases fuel
  {
    if w.isInteractive then Resolved(w)
    else if fuel == 0 then Cycles
    else match First(widgets, IsParentOf(w))
      case None => NoSuchElement
      case Some(parent) => ResolveInteractive(widgets, parent, fuel - 1)
  }

  /** The walk over the state's widgets, one step per widget and one more. */
  function Resolve(ctx: Context, chosen: Widget): Resolution {
    ResolveInteractive(ctx.state.widgets, chosen, |ctx.state.widgets| + 1)
  }

  /** A non-interactive widget with an interactive parent on screen: the
      written loop never ends, the intended walk acts on the parent. */
  lemma ResolveAsWrittenLoops(ctx: Context, chosen: Widget)
    requires !chosen.isInteractive
    requires First(ctx.state.widgets, IsParentOf(chosen)).Some?
    requires First(ctx.state.widgets, IsParentOf(chosen)).value.isInteractive
    ensures ResolveAsWritten(ctx.state.widgets, chosen) == Cycles
    ensures Resolve(ctx, chosen) == Resolved(First(ctx.state.widgets, IsParentOf(chosen)).value)
  {
  }

  /** The actions offered for the resolved widget: a text insertion for an
      input field, otherwise its available actions, without swipes unless
      random scrolling is on. */
  function ActionList(w: Widget, cfg: Config, d: Draws, targets: seq<Widget>): (r: Outcome<seq<ExplorationAction>>)
    ensures w.isInputField && r.Returned? ==>
              r.value == [TextInsert(w.idHash, RandomString(cfg.dictionary, d), true, cfg.delay, true, false)]
    ensures !w.isInputField ==> r.Returned? == AvailableActions(w, targets, cfg.delay, cfg.useCoordinateClicks).Returned?
    ensures !w.isInputField && r.Returned? ==>
              forall a :: a in r.value <==> a in AvailableActions(w, targets, cfg.delay, cfg.useCoordinateClicks).value
                                             && (cfg.randomScroll || !a.Swipe?)
  {
    if w.isInputField then
      match SetText(w, targets, RandomString(cfg.dictionary, d), false, true, cfg.delay, true, false)
      case Returned(a, ts) => Returned([a], ts)
      case Threw(m, ts) => Threw(m, ts)
    else
      match AvailableActions(w, targets, cfg.delay, cfg.useCoordinateClicks)
      case Returned(actions, ts) =>
        Returned(if cfg.randomScroll then actions else Filter(actions, (a: ExplorationAction) => !a.Swipe?), ts)
      case Threw(m, ts) => Threw(m, ts)
  }

  /** `chooseActionForWidget`: resolve the widget to act on, build its action
      list, draw one action, and leave the target list as it was before plus
      exactly the resolved widget. */
  function ChooseActionForWidget(chosen: Widget, ctx: Context, cfg: Config, d: Draws, targets: seq<Widget>): (r: Choice)
    ensures r.Chosen? <==> Resolve(ctx, chosen).Resolved?
                           && ActionList(Resolve(ctx, chosen).widget, cfg, d, targets).Returned?
                           && |ActionList(Resolve(ctx, chosen).widget, cfg, d, targets).value| > 0
    ensures r.Chosen? ==> r.targets == targets + [Resolve(ctx, chosen).widget]
    ensures r.Chosen? ==> r.action in ActionList(Resolve(ctx, chosen).widget, cfg, d, targets).value
    ensures r.Diverges? <==> Resolve(ctx, chosen).Cycles?
  {
    match Resolve(ctx, chosen)
    case NoSuchElement => Thrown("NoSuchElementException", targets)
    case Cycles => Diverges(targets)
    case Resolved(w) =>
      match ActionList(w, cfg, d, targets)
      case Threw(m, ts) => Thrown(m, ts)
      case Returned(actions, ts) =>
        if |actions| == 0 then Thrown("IllegalArgumentException: bound must be positive", ts)
        else Chosen(actions[d.actionPick % |actions|], targets + [w])
  }

  /** An interactive widget is acted on itself. */
  lemma InteractiveWidgetIsTarget(chosen: Widget, ctx: Context, cfg: Config, d: Draws, targets: seq<Widget>)
    requires chosen.isInteractive
    ensures var r := ChooseActionForWidget(chosen, ctx, cfg, d, targets);
            r.Chosen? ==> r.targets == targets + [chosen]
  {
  }

  /* ---------------------------------------------------------------------------
     Choosing
     ------------------------------------------------------------------------ */

  /** `List<Widget>.chooseRandomly`: launch the app when the list is empty,
      otherwise act on the widget at the drawn index. */
  function ChooseRandomlyFrom(ws: seq<Widget>, ctx: Context, cfg: Config, d: Draws, targets: seq<Widget>): (r: Choice)
    ensures |ws| == 0 ==> r == Chosen(LaunchApp, targets)
    ensures |ws| > 0 ==> exists i :: 0 <= i < |ws| && r == ChooseActionForWidget(ws[i], ctx, cfg, d, targets)
  {
    if |ws| == 0 then Chosen(LaunchApp, targets)
    else ChooseActionForWidget(ws[d.widgetPick % |ws|], ctx, cfg, d, targets)
  }

  /** Every widget of the list is the one acted on for some draw. */
  lemma EveryWidgetReachable(ws: seq<Widget>, i: nat, ctx: Context, cfg: Config, d: Draws, targets: seq<Widget>)
    requires i < |ws|
    ensures ChooseRandomlyFrom(ws, ctx, cfg, d.(widgetPick := i), targets) == ChooseActionForWidget(ws[i], ctx, cfg, d.(widgetPick := i), targets)
  {
    assert i % |ws| == i;
  }

  /** `chooseBiased`: close and return when there is no candidate, otherwise
      choose among the least-interacted candidates. */
  function ChooseBiased(ctx: Context, cfg: Config, d: Draws, targets: seq<Widget>): (r: Choice)
    ensures |GetCandidates(ctx)| == 0 ==> r == Chosen(CloseAndReturn, targets)
    ensures |GetCandidates(ctx)| > 0 ==>
              exists i :: 0 <= i < |GetCandidates(ctx)| && r == ChooseActionForWidget(GetCandidates(ctx)[i], ctx, cfg, d, targets)
  {
    var candidates := GetCandidates(ctx);
    if |candidates| == 0 then Chosen(CloseAndReturn, targets)
    else ChooseRandomlyFrom(candidates, ctx, cfg, d, targets)
  }

  /** `chooseRandomly`: choose among the state's actionable widgets. */
  function ChooseRandomly(ctx: Context, cfg: Config, d: Draws, targets: seq<Widget>): (r: Choice)
    ensures |ctx.state.actionableWidgets| == 0 ==> r == Chosen(LaunchApp, targets)
    ensures |ctx.state.actionableWidgets| > 0 ==>
              exists i :: 0 <= i < |ctx.state.actionableWidgets| && r == ChooseActionForWidget(ctx.state.actionableWidgets[i], ctx, cfg, d, targets)
  {
    ChooseRandomlyFrom(ctx.state.actionableWidgets, ctx, cfg, d, targets)
  }

  /** The decision a configured strategy makes on a non-empty trace. Biased:
      close and return exactly when there is no candidate, otherwise act on
      one of the least-interacted candidates. Plain: launch the app exactly
      when the state has no actionable widget, otherwise act on one of them. */
  predicate ActsAsConfigured(ctx: Context, cfg: Config, d: Draws, targets: seq<Widget>, r: Choice) {
    && (cfg.biased ==> (r == Chosen(CloseAndReturn, targets) <==> |GetCandidates(ctx)| == 0))
    && (cfg.biased && |GetCandidates(ctx)| > 0 ==>
          exists i :: 0 <= i < |GetCandidates(ctx)| && r == ChooseActionForWidget(GetCandidates(ctx)[i], ctx, cfg, d, targets))
    && (!cfg.biased ==> (r == Chosen(LaunchApp, targets) <==> |ctx.state.actionableWidgets| == 0))
    && (!cfg.biased && |ctx.state.actionableWidgets| > 0 ==>
          exists i :: 0 <= i < |ctx.state.actionableWidgets|
                      && r == ChooseActionForWidget(ctx.state.actionableWidgets[i], ctx, cfg, d, targets))
  }

  /** Acting on a widget always adds a target, so it is never mistaken for
      launching the app or closing it. */
  lemma ActingAddsTarget(chosen: Widget, ctx: Context, cfg: Config, d: Draws, targets: seq<Widget>, a: ExplorationAction)
    ensures ChooseActionForWidget(chosen, ctx, cfg, d, targets) != Chosen(a, targets)
  {
    var r := ChooseActionForWidget(chosen, ctx, cfg, d, targets);
    if r.Chosen? {
      assert |r.targets| == |targets| + 1;
    }
  }

  /** `chooseRandomWidget`: biased or plain, as configured. */
  function ChooseRandomWidget(ctx: Context, cfg: Config, d: Draws, targets: seq<Widget>): (r: Choice)
    ensures ActsAsConfigured(ctx, cfg, d, targets, r)
  {
    if cfg.biased then
      var r := ChooseBiased(ctx, cfg, d, targets);
      assert |GetCandidates(ctx)| > 0 ==> r != Chosen(CloseAndReturn, targets) by {
        if |GetCandidates(ctx)| > 0 {
          var i :| 0 <= i < |GetCandidates(ctx)| && r == ChooseActionForWidget(GetCandidates(ctx)[i], ctx, cfg, d, targets);
          ActingAddsTarget(GetCandidates(ctx)[i], ctx, cfg, d, targets, CloseAndReturn);
        }
      }
      r
    else
      var r := ChooseRandomly(ctx, cfg, d, targets);
      assert |ctx.state.actionableWidgets| > 0 ==> r != Chosen(LaunchApp, targets) by {
        if |ctx.state.actionableWidgets| > 0 {
          var i :| 0 <= i < |ctx.state.actionableWidgets|
                   && r == ChooseActionForWidget(ctx.state.actionableWidgets[i], ctx, cfg, d, targets);
          ActingAddsTarget(ctx.state.actionableWidgets[i], ctx, cfg, d, targets, LaunchApp);
        }
      }
      r
  }

  /** `computeNextAction`: the very first action launches the app; later ones
      are chosen as configured. */
  function ComputeNextAction(ctx: Context, cfg: Config, d: Draws, targets: seq<Widget>): (r: Choice)
    ensures ctx.traceIsEmpty ==> r == Chosen(LaunchApp, targets)
    ensures !ctx.traceIsEmpty ==> ActsAsConfigured(ctx, cfg, d, targets, r)
  {
    if ctx.traceIsEmpty then Chosen(LaunchApp, targets) else ChooseRandomWidget(ctx, cfg, d, targets)
  }

  /** On an empty trace the decision ignores the screen, the counters, the
      configuration and the draws. */
  lemma EmptyTraceLaunches(ctx1: Context, ctx2: Context, cfg1: Config, cfg2: Config, d1: Draws, d2: Draws, targets: seq<Widget>)
    requires ctx1.traceIsEmpty && ctx2.traceIsEmpty
    ensures ComputeNextAction(ctx1, cfg1, d1, targets) == ComputeNextAction(ctx2, cfg2, d2, targets)
  {
  }

  /** A biased decision that acts on a widget acts on the interactive widget
      resolved from a least-interacted, supported, usable candidate, and adds
      exactly that widget to the target list. */
  lemma BiasedChoiceActsOnLeastInteracted(ctx: Context, cfg: Config, d: Draws, targets: seq<Widget>)
    requires !ctx.traceIsEmpty && cfg.biased
    requires ComputeNextAction(ctx, cfg, d, targets).Chosen?
    requires ComputeNextAction(ctx, cfg, d, targets).action != CloseAndReturn
    ensures exists c, w :: && c in ComputeCandidates(ctx) && c in Usable(ctx) && Supported(c)
                           && LeastEffective(ctx, ComputeCandidates(ctx), c)
                           && Resolve(ctx, c) == Resolved(w) && w.isInteractive
                           && ComputeNextAction(ctx, cfg, d, targets).targets == targets + [w]
  {
    var cands := GetCandidates(ctx);
    var r := ComputeNextAction(ctx, cfg, d, targets);
    assert |cands| > 0;
    var i :| 0 <= i < |cands| && r == ChooseActionForWidget(cands[i], ctx, cfg, d, targets);
    assert cands[i] in cands;
    var w := Resolve(ctx, cands[i]).widget;
    assert Resolve(ctx, cands[i]) == Resolved(w);
  }
}
