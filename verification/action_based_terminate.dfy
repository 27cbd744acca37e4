/** `ActionBasedTerminate`: ends the exploration once an action budget is used
    up. Counters are Kotlin `Int`s and wrap around. */
module ActionBasedTerminate {
  import opened Wrappers
  import opened Seqs
  import opened Text
  import opened Int32

  datatype Terminate = Terminate(startingActionsLeft: Int, actionsLeft: Int)

  /** The constructor: the budget is the number of configured widget indexes
      when there are any, otherwise the configured action limit. */
  function Init(widgetIndexes: seq<int>, actionsLimit: Int): (t: Terminate)
    requires |widgetIndexes| <= MaxInt
    ensures |widgetIndexes| > 0 ==> t.startingActionsLeft == |widgetIndexes|
    ensures |widgetIndexes| == 0 ==> t.startingActionsLeft == actionsLimit
    ensures t.actionsLeft == t.startingActionsLeft
  {
    var start := if |widgetIndexes| > 0 then |widgetIndexes| else actionsLimit;
    Terminate(start, start)
  }

  /** `updateState`: one action is spent whenever the exploration memory holds
      an action. */
  function UpdateState(t: Terminate, memoryIsEmpty: bool): (r: Terminate)
    ensures r.startingActionsLeft == t.startingActionsLeft
    ensures memoryIsEmpty ==> r.actionsLeft == t.actionsLeft
    ensures !memoryIsEmpty && t.actionsLeft > MinInt ==> r.actionsLeft == t.actionsLeft - 1
  {
    if !memoryIsEmpty then t.(actionsLeft := Wrap(t.actionsLeft - 1)) else t
  }

  /** `met`: the budget is exhausted. */
  predicate Met(t: Terminate) {
    t.actionsLeft <= 0
  }

  /** The state after one `updateState` per entry of `memoryEmpty`. */
  function Run(t: Terminate, memoryEmpty: seq<bool>): Terminate
    decreases |memoryEmpty|
  {
    if |memoryEmpty| == 0 then t
    else UpdateState(Run(t, memoryEmpty[..|memoryEmpty| - 1]), memoryEmpty[|memoryEmpty| - 1])
  }

  /** Updates with a non-empty memory each spend one action, so from the
      initial state the criterion is met exactly when at least the budget of
      actions has been performed (while no counter wraps). */
  lemma {:induction false} RunSpendsBudget(t: Terminate, memoryEmpty: seq<bool>)
    requires t.actionsLeft - |memoryEmpty| >= MinInt
    ensures Run(t, memoryEmpty).startingActionsLeft == t.startingActionsLeft
    ensures Run(t, memoryEmpty).actionsLeft == t.actionsLeft - Count(memoryEmpty, (e: bool) => !e)
    decreases |memoryEmpty|
  {
    if |memoryEmpty| > 0 {
      var prefix := memoryEmpty[..|memoryEmpty| - 1];
      RunSpendsBudget(t, prefix);
      assert memoryEmpty == prefix + [memoryEmpty[|memoryEmpty| - 1]];
      CountSnoc(prefix, memoryEmpty[|memoryEmpty| - 1], (e: bool) => !e);
    }
  }

  /** From the initial state, the criterion is met exactly when the number of
      updates with a non-empty memory reaches the budget: the number of widget
      indexes when there are any, the action limit otherwise. */
  lemma MetAfterBudget(widgetIndexes: seq<int>, actionsLimit: Int, memoryEmpty: seq<bool>)
    requires |widgetIndexes| <= MaxInt
    requires Init(widgetIndexes, actionsLimit).actionsLeft - |memoryEmpty| >= MinInt
    ensures var budget := if |widgetIndexes| > 0 then |widgetIndexes| else actionsLimit as int;
            Met(Run(Init(widgetIndexes, actionsLimit), memoryEmpty)) <==> Count(memoryEmpty, (e: bool) => !e) >= budget
    ensures Run(Init(widgetIndexes, actionsLimit), memoryEmpty).startingActionsLeft == Init(widgetIndexes, actionsLimit).startingActionsLeft
  {
    RunSpendsBudget(Init(widgetIndexes, actionsLimit), memoryEmpty);
  }

  /** Number of actions performed so far (an `Int` subtraction). */
  function Performed(t: Terminate): Int {
    Wrap(t.startingActionsLeft - t.actionsLeft)
  }

  /** `getLogMessage`: "performed/budget". */
  function LogMessage(t: Terminate): string {
    IntToString(Performed(t)) + "/" + IntToString(t.startingActionsLeft)
  }

  /** The log message reads back as the performed count and the budget, and
      performed is budget minus actions left while that does not wrap. */
  lemma LogMessageReadsBack(t: Terminate)
    ensures var parts := Split(LogMessage(t), '/');
            |parts| == 2 && ParseInt(parts[0]) == Some(Performed(t))
            && ParseInt(parts[1]) == Some(t.startingActionsLeft as int)
    ensures MinInt <= t.startingActionsLeft - t.actionsLeft <= MaxInt ==>
              Performed(t) == t.startingActionsLeft - t.actionsLeft
  {
    var a := IntToString(Performed(t));
    var b := IntToString(t.startingActionsLeft);
    assert LogMessage(t) == Join([a, b], '/');
    assert SeparatorFree([a, b], '/') by {
      assert forall k :: 0 <= k < |a| ==> a[k] != '/';
      assert forall k :: 0 <= k < |b| ==> b[k] != '/';
    }
    SplitJoin([a, b], '/');
    IntRoundTrip(Performed(t));
    IntRoundTrip(t.startingActionsLeft);
  }

  /** `equals`: two instances are equal when their budgets are. */
  predicate Equals(a: Terminate, b: Terminate) {
    a.startingActionsLeft == b.startingActionsLeft
  }

  /** `hashCode`: the budget's hash, which for an `Int` is the value itself. */
  function HashCode(t: Terminate): Int {
    t.startingActionsLeft
  }

  /** `equals` is an equivalence that ignores the actions left, and equal
      instances hash alike. */
  lemma EqualsContract(a: Terminate, b: Terminate, c: Terminate)
    ensures Equals(a, a)
    ensures Equals(a, b) ==> Equals(b, a) && HashCode(a) == HashCode(b)
    ensures Equals(a, b) && Equals(b, c) ==> Equals(a, c)
    ensures Equals(a, a.(actionsLeft := b.actionsLeft))
  {
  }
}
