/** The action trace: one `ActionData` record per executed action, its eight-column textual form, and the append-only `Trace` with its
    current-state cursor, target history and edit-field buckets. */
module ExplorationTraces {
  import opened Wrappers
  import opened Seqs
  import opened Text
  import opened DevModel

  /** Column separator of the trace file (`sep`). */
  const Sep: char := ';'

  /** `LocalDateTime.MIN`, as a timestamp. */
  const MinTimestamp: int := -999_999_999

  /** What the device reports for one executed action (`ActionResult`). */
  datatype ActionResult = ActionResult(
    /** the action's class name; `None` for an anonymous action class */
    actionType: Option<string>,
    /** the widget of a widget action, `None` for other actions */
    targetWidget: Option<Widget>,
    startTimestamp: int,
    endTimestamp: int,
    screenshot: Option<string>,
    exception: string,
    successful: bool)

  /** One record of the trace. `resState` is the "Resulting State" column and
      `prevState` the "Source State" column. */
  datatype ActionData = ActionData(
    actionType: Option<string>,
    targetWidget: Option<Widget>,
    startTimestamp: int,
    endTimestamp: int,
    screenshot: Option<string>,
    successful: bool,
    exception: string,
    resState: ConcreteId,
    prevState: ConcreteId)

  /** `ActionData(res, resStateId, prevStateId)`. */
  function FromResult(res: ActionResult, resStateId: ConcreteId, prevStateId: ConcreteId): ActionData {
    ActionData(res.actionType, res.targetWidget, res.startTimestamp, res.endTimestamp, res.screenshot,
               res.successful, res.exception, resStateId, prevStateId)
  }

  /** Time the strategy took to decide, in the timestamps' unit. */
  function DecisionTime(a: ActionData): int {
    a.endTimestamp - a.startTimestamp
  }

  /** The placeholder record `ActionData.empty()`. */
  function Empty(): (a: ActionData)
    ensures a.prevState == EmptyId && a.resState == EmptyId
    ensures a.successful && a.exception == "empty action"
    ensures a.actionType.None? && a.targetWidget.None? && a.screenshot.None?
    ensures DecisionTime(a) == 0
  {
    ActionData(None, None, MinTimestamp, MinTimestamp, None, true, "empty action", EmptyId, EmptyId)
  }

  /* ---------------------------------------------------------------------------
     The eight-column textual form
     ------------------------------------------------------------------------ */

  /** Column titles, in the declaration order of the column enumeration. */
  const HeaderNames: seq<string> := ["Source State", "Action", "Interacted Widget", "Resulting State",
                                     "StartTime", "EndTime", "SuccessFul", "Exception"]

  /** The header row of a trace file. */
  function Header(): string {
    Join(HeaderNames, Sep)
  }

  /** The "Interacted Widget" column: the target's uid, or "null" for no target. */
  function WidgetColumn(a: ActionData): string {
    match a.targetWidget
    case Some(w) => w.uid
    case None => "null"
  }

  /** The column values of a record, in header order. */
  function Columns(a: ActionData): seq<string> {
    [a.prevState, a.actionType.GetOr(""), WidgetColumn(a), a.resState,
     IntToString(a.startTimestamp), IntToString(a.endTimestamp), BoolToString(a.successful), a.exception]
  }

  /** `actionString()`: one data row of the trace file. */
  function ActionString(a: ActionData): string {
    Join(Columns(a), Sep)
  }

  /** The free-text columns of a record hold no separator. */
  predicate SeparatorFreeRecord(a: ActionData) {
    && Sep !in a.prevState && Sep !in a.resState && Sep !in a.exception
    && Sep !in a.actionType.GetOr("") && Sep !in WidgetColumn(a)
  }

  /** The header splits into exactly the eight titles, in order. */
  lemma HeaderColumns()
    ensures Split(Header(), Sep) == HeaderNames
    ensures |Split(Header(), Sep)| == 8
    ensures Split(Header(), Sep)[0] == "Source State" && Split(Header(), Sep)[3] == "Resulting State"
  {
    assert SeparatorFree(HeaderNames, Sep);
    SplitJoin(HeaderNames, Sep);
  }

  /** A data row splits into eight columns lined up with the header. */
  lemma ActionStringColumns(a: ActionData)
    requires SeparatorFreeRecord(a)
    ensures |Split(ActionString(a), Sep)| == |HeaderNames| == 8
    ensures Split(ActionString(a), Sep)[0] == a.prevState
    ensures Split(ActionString(a), Sep)[3] == a.resState
    ensures Split(ActionString(a), Sep)[7] == a.exception
  {
    ColumnsSeparatorFree(a);
    SplitJoin(Columns(a), Sep);
  }

  lemma ColumnsSeparatorFree(a: ActionData)
    requires SeparatorFreeRecord(a)
    ensures SeparatorFree(Columns(a), Sep)
  {
    var c := Columns(a);
    assert forall k :: 0 <= k < |c[4]| ==> c[4][k] != Sep;
    assert forall k :: 0 <= k < |c[5]| ==> c[5][k] != Sep;
  }

  /** Message of the exception `createFromString` throws for a bad row. */
  function ColumnError(column: nat, what: string): string
    requires column < 8
  {
    "column " + HeaderNames[column] + ": " + what
  }

  /** `ActionData.createFromString(e, target)`: reads the columns in the order
      the constructor arguments are evaluated; a missing column or a timestamp
      that does not parse throws. The screenshot is not stored in the row. */
  function CreateFromString(e: seq<string>, target: Option<Widget>): (r: Result<ActionData>)
    ensures r.Ok? <==> |e| >= 8 && ParseInt(e[4]).Some? && ParseInt(e[5]).Some?
    ensures r.Ok? ==> r.value.actionType == Some(e[1]) && r.value.targetWidget == target
    ensures r.Ok? ==> r.value.prevState == e[0] && r.value.resState == e[3] && r.value.exception == e[7]
    ensures r.Ok? ==> r.value.screenshot.None? && r.value.successful == ParseBool(e[6])
  {
    if |e| <= 1 then Err(ColumnError(1, "missing"))
    else if |e| <= 4 then Err(ColumnError(4, "missing"))
    else if ParseInt(e[4]).None? then Err(ColumnError(4, "malformed timestamp"))
    else if |e| <= 5 then Err(ColumnError(5, "missing"))
    else if ParseInt(e[5]).None? then Err(ColumnError(5, "malformed timestamp"))
    else if |e| <= 7 then Err(ColumnError(|e|, "missing"))
    else Ok(ActionData(Some(e[1]), target, ParseInt(e[4]).value, ParseInt(e[5]).value, None,
                       ParseBool(e[6]), e[7], e[3], e[0]))
  }

  /** Reading a written row back recovers the record, except that a missing
      action type comes back as "" and the screenshot is dropped. */
  lemma RowRoundTrip(a: ActionData)
    requires SeparatorFreeRecord(a)
    ensures CreateFromString(Split(ActionString(a), Sep), a.targetWidget)
            == Ok(a.(actionType := Some(a.actionType.GetOr("")), screenshot := None))
  {
    ColumnsSeparatorFree(a);
    SplitJoin(Columns(a), Sep);
    IntRoundTrip(a.startTimestamp);
    IntRoundTrip(a.endTimestamp);
    BoolRoundTrip(a.successful);
  }

  /** The decision time survives the round trip. */
  lemma DecisionTimeRoundTrip(a: ActionData)
    requires SeparatorFreeRecord(a)
    ensures CreateFromString(Split(ActionString(a), Sep), a.targetWidget).Ok?
    ensures DecisionTime(CreateFromString(Split(ActionString(a), Sep), a.targetWidget).value) == DecisionTime(a)
  {
    RowRoundTrip(a);
  }

  lemma EmptyIdSeparatorFree()
    ensures Sep !in EmptyId
  {
    assert Sep !in "0000" && Sep !in "00000000" && Sep !in "000000000000";
    assert Sep !in EmptyUUID;
  }

  /** The placeholder record survives the text form: its row has the eight
      columns and reads back as the placeholder, with the missing action type
      as "". */
  lemma EmptyRowRoundTrip()
    ensures |Split(ActionString(Empty()), Sep)| == 8
    ensures CreateFromString(Split(ActionString(Empty()), Sep), None) == Ok(Empty().(actionType := Some("")))
    ensures DecisionTime(CreateFromString(Split(ActionString(Empty()), Sep), None).value) == 0
  {
    var a := Empty();
    EmptyIdSeparatorFree();
    assert SeparatorFreeRecord(a);
    ActionStringColumns(a);
    RowRoundTrip(a);
  }

  /* ---------------------------------------------------------------------------
     The trace
     ------------------------------------------------------------------------ */

  /** `Trace`: the records, the current-state cursor (`newState`), the target of
      every state change (`targets`) and the edit-field buckets
      (`iEditId -> [(state, widget)]`). */
  datatype Trace = Trace(
    records: seq<ActionData>,
    current: StateData,
    targets: seq<Option<Widget>>,
    editFields: map<UUID, seq<(StateData, Widget)>>)

  /** A fresh trace. */
  const NewTrace: Trace := Trace([], EmptyState, [], map[])

  /** What every registered watcher receives after a state change:
      `onNewAction(trace.last, old, new)`. */
  datatype Notification = Notification(action: ActionData, previous: StateData, next: StateData)

  /** `addAction`: append one record. */
  function AddAction(t: Trace, a: ActionData): (r: Trace)
    ensures r.records == t.records + [a]
    ensures r.current == t.current && r.targets == t.targets && r.editFields == t.editFields
  {
    t.(records := t.records + [a])
  }

  /** Appending a record extends the trace in the sense of `equals`: the old
      trace equals the new one, the new one is longer and matches the old one
      everywhere, so comparing it against the old one throws. Appending alone
      explores nothing: `unexplored` reads only the targets. */
  lemma AddActionExtends(t: Trace, a: ActionData, candidates: seq<Widget>)
    ensures Equals(t, AddAction(t, a)) == Ok(true)
    ensures Equals(AddAction(t, a), t) == Err("index out of bounds")
    ensures Unexplored(AddAction(t, a), candidates) == Unexplored(t, candidates)
  {
    var r := AddAction(t, a);
    assert r.records[..|t.records|] == t.records;
    EqualsIsPrefix(t, r);
    EqualsIsPrefix(r, t);
  }

  /** The bucket of an edit-field key; an absent key is an empty bucket. */
  function Bucket(t: Trace, key: UUID): seq<(StateData, Widget)> {
    if key in t.editFields then t.editFields[key] else []
  }

  /** `internalUpdate(target, state)`: remember the target; an edit-field target
      is also filed, with the state it was interacted in, under that state's
      `iEditId`. */
  function InternalUpdate(t: Trace, target: Option<Widget>, state: StateData): (r: Trace)
    ensures r.records == t.records && r.current == t.current
    ensures r.targets == t.targets + [target]
    ensures target.Some? && target.value.isEdit ==>
              r.editFields.Keys == t.editFields.Keys + {state.iEditId}
              && Bucket(r, state.iEditId) == Bucket(t, state.iEditId) + [(state, target.value)]
    ensures forall k :: k != state.iEditId ==> Bucket(r, k) == Bucket(t, k)
    ensures !(target.Some? && target.value.isEdit) ==> r.editFields == t.editFields
  {
    var r := t.(targets := t.targets + [target]);
    if target.Some? && target.value.isEdit then
      r.(editFields := t.editFields[state.iEditId := Bucket(t, state.iEditId) + [(state, target.value)]])
    else r
  }

  /** The rest of `update` once its record is built: append the record, move
      the cursor, and let the observable's callback run `internalUpdate` on the
      previous state and notify the watchers. */
  function Advance(t: Trace, rec: ActionData, newState: StateData): (r: (Trace, Notification))
    ensures |r.0.records| == |t.records| + 1 && r.0.records[..|t.records|] == t.records
    ensures r.0.records[|t.records|] == rec
    ensures r.0.current == newState
    ensures r.0.targets == t.targets + [rec.targetWidget]
    ensures r.1 == Notification(rec, t.current, newState)
  {
    var t1 := AddAction(t, rec);
    var previous := t1.current;
    var t2 := t1.(current := newState);
    assert (t.records + [rec])[..|t.records|] == t.records;
    (InternalUpdate(t2, rec.targetWidget, previous), Notification(rec, previous, newState))
  }

  /** `update(action, newState)` as written: the record is built with the
      arguments `(this.newState.stateId, newState.stateId)`, which the record
      constructor takes as `(resStateId, prevStateId)`, so the two ids land in
      each other's columns. */
  function UpdateAsWritten(t: Trace, res: ActionResult, newState: StateData): (r: (Trace, Notification))
    ensures |r.0.records| == |t.records| + 1 && r.0.records[..|t.records|] == t.records
    ensures r.0.current == newState
    ensures r.0.records[|t.records|].resState == t.current.stateId
    ensures r.0.records[|t.records|].prevState == newState.stateId
    ensures r.0.records[|t.records|].targetWidget == res.targetWidget
    ensures r.0.targets == t.targets + [res.targetWidget]
    ensures r.1 == Notification(r.0.records[|t.records|], t.current, newState)
  {
    Advance(t, FromResult(res, t.current.stateId, newState.stateId), newState)
  }

  /** The links a trace built by the written `update` keeps: the first
      record's "Resulting State" is the empty id, each record's "Source State"
      is the next record's "Resulting State", and the last record's "Source
      State" is the cursor. */
  predicate SwappedLinks(t: Trace) {
    && (|t.records| == 0 ==> t.current == EmptyState)
    && (|t.records| > 0 ==> t.records[0].resState == EmptyId)
    && (|t.records| > 0 ==> t.records[|t.records| - 1].prevState == t.current.stateId)
    && (forall i :: 0 <= i < |t.records| - 1 ==> t.records[i].prevState == t.records[i + 1].resState)
  }

  lemma UpdateAsWrittenKeepsSwappedLinks(t: Trace, res: ActionResult, newState: StateData)
    requires SwappedLinks(t)
    ensures SwappedLinks(UpdateAsWritten(t, res, newState).0)
  {
    var r := UpdateAsWritten(t, res, newState).0;
    var n := |t.records|;
    forall i | 0 <= i < |r.records| - 1
      ensures r.records[i].prevState == r.records[i + 1].resState
    {
      if i < n - 1 {
        assert r.records[i] == t.records[i] && r.records[i + 1] == t.records[i + 1];
      } else {
        assert r.records[i] == t.records[n - 1];
      }
    }
    if n == 0 {
      assert r.records[0].resState == EmptyState.stateId;
    } else {
      assert r.records[0] == t.records[0];
    }
  }

  /** `update(action, newState)` with the ids in their intended columns: the
      source state of the record is the cursor before the update, its
      resulting state the new state. */
  function Update(t: Trace, res: ActionResult, newState: StateData): (r: (Trace, Notification))
    ensures |r.0.records| == |t.records| + 1 && r.0.records[..|t.records|] == t.records
    ensures r.0.current == newState
    ensures r.0.records[|t.records|].prevState == t.current.stateId
    ensures r.0.records[|t.records|].resState == newState.stateId
    ensures r.0.records[|t.records|].targetWidget == res.targetWidget
    ensures r.0.targets == t.targets + [res.targetWidget]
    ensures r.1 == Notification(r.0.records[|t.records|], t.current, newState)
  {
    Advance(t, FromResult(res, newState.stateId, t.current.stateId), newState)
  }

  /** One target per record, in order: the `i`-th target is the `i`-th
      record's target widget. */
  predicate TargetsTrackRecords(t: Trace) {
    && |t.targets| == |t.records|
    && (forall i :: 0 <= i < |t.records| ==> t.targets[i] == t.records[i].targetWidget)
  }

  /** Both the written and the corrected update keep the targets in step with
      the records, whatever state ids they store. */
  lemma UpdatesTrackTargets(t: Trace, res: ActionResult, newState: StateData)
    requires TargetsTrackRecords(t)
    ensures TargetsTrackRecords(UpdateAsWritten(t, res, newState).0)
    ensures TargetsTrackRecords(Update(t, res, newState).0)
  {
    var w := UpdateAsWritten(t, res, newState).0;
    var c := Update(t, res, newState).0;
    forall i | 0 <= i < |t.records|
      ensures w.records[i] == t.records[i] && c.records[i] == t.records[i]
    {
      assert w.records[i] == w.records[..|t.records|][i];
      assert c.records[i] == c.records[..|t.records|][i];
    }
  }

  /** The causal chain a trace keeps: one target per record, the first source
      state is the empty id, each record's resulting state is the next record's
      source state, and the last resulting state is the cursor. */
  predicate Linked(t: Trace) {
    && TargetsTrackRecords(t)
    && (|t.records| == 0 ==> t.current == EmptyState)
    && (|t.records| > 0 ==> t.records[0].prevState == EmptyId)
    && (|t.records| > 0 ==> t.records[|t.records| - 1].resState == t.current.stateId)
    && (forall i :: 0 <= i < |t.records| - 1 ==> t.records[i].resState == t.records[i + 1].prevState)
  }

  lemma UpdateKeepsLinked(t: Trace, res: ActionResult, newState: StateData)
    requires Linked(t)
    ensures Linked(Update(t, res, newState).0)
  {
    var r := Update(t, res, newState).0;
    var n := |t.records|;
    forall i | 0 <= i < |r.records| - 1
      ensures r.records[i].resState == r.records[i + 1].prevState
    {
      if i < n - 1 {
        assert r.records[i] == t.records[i] && r.records[i + 1] == t.records[i + 1];
      } else {
        assert r.records[i] == t.records[n - 1];
      }
    }
    forall i | 0 <= i < |r.records|
      ensures r.targets[i] == r.records[i].targetWidget
    {
      if i < n {
        assert r.records[i] == t.records[i];
      }
    }
    if n == 0 {
      assert r.records[0].prevState == EmptyState.stateId;
    } else {
      assert r.records[0] == t.records[0];
    }
  }

  /** The trace after a run of updates from a fresh trace. */
  function Replay(history: seq<(ActionResult, StateData)>): Trace
    decreases |history|
  {
    if |history| == 0 then NewTrace
    else
      var last := history[|history| - 1];
      Update(Replay(history[..|history| - 1]), last.0, last.1).0
  }

  /** Every trace a run produces is linked, has one record per update, and its
      cursor is the last state updated to. */
  lemma {:induction false} ReplayLinked(history: seq<(ActionResult, StateData)>)
    ensures Linked(Replay(history))
    ensures |Replay(history).records| == |history|
    ensures |history| > 0 ==> Replay(history).current == history[|history| - 1].1
    decreases |history|
  {
    if |history| > 0 {
      var prefix := history[..|history| - 1];
      ReplayLinked(prefix);
      UpdateKeepsLinked(Replay(prefix), history[|history| - 1].0, history[|history| - 1].1);
    }
  }

  /** As written, the first record of a trace names the empty state as its
      resulting state and the state actually reached as its source, so the
      trace is not linked; the intended update stores them the other way. */
  lemma UpdateStoresSwappedIds(res: ActionResult, reached: StateData)
    requires reached.stateId != EmptyId
    ensures UpdateAsWritten(NewTrace, res, reached).0.records[0].resState == EmptyId
    ensures UpdateAsWritten(NewTrace, res, reached).0.records[0].prevState == reached.stateId
    ensures !Linked(UpdateAsWritten(NewTrace, res, reached).0)
    ensures Update(NewTrace, res, reached).0.records[0].resState == reached.stateId
    ensures Update(NewTrace, res, reached).0.records[0].prevState == EmptyId
  {
  }

  /** Uids of all non-null targets ever recorded. */
  function TargetUids(t: Trace): set<UUID> {
    set i | 0 <= i < |t.targets| && t.targets[i].Some? :: t.targets[i].value.uid
  }

  /** `unexplored(candidates)`: the candidates, in order, whose uid no recorded
      target has. */
  function Unexplored(t: Trace, candidates: seq<Widget>): (r: seq<Widget>)
    ensures forall w :: w in r <==>
              w in candidates && forall i :: 0 <= i < |t.targets| && t.targets[i].Some? ==> t.targets[i].value.uid != w.uid
  {
    var uids := TargetUids(t);
    var r := Filter(candidates, (w: Widget) => w.uid !in uids);
    assert forall w: Widget :: w.uid in uids <==> exists i :: 0 <= i < |t.targets| && t.targets[i].Some? && t.targets[i].value.uid == w.uid;
    r
  }

  lemma UnexploredIdempotent(t: Trace, candidates: seq<Widget>)
    ensures Unexplored(t, Unexplored(t, candidates)) == Unexplored(t, candidates)
  {
    FilterIdempotent(candidates, (w: Widget) => w.uid !in TargetUids(t));
  }

  /** Appending one target to the history shrinks `unexplored`: nothing explored
      becomes unexplored again, and no widget with the new target's uid stays. */
  lemma UnexploredShrinksWith(t: Trace, r: Trace, target: Option<Widget>, candidates: seq<Widget>)
    requires r.targets == t.targets + [target]
    ensures var after := Unexplored(r, candidates);
            && (forall w :: w in after ==> w in Unexplored(t, candidates))
            && (target.Some? ==> forall w :: w in after ==> w.uid != target.value.uid)
  {
    assert r.targets[|t.targets|] == target;
    forall w | w in Unexplored(r, candidates)
      ensures w in Unexplored(t, candidates)
    {
      forall i | 0 <= i < |t.targets| && t.targets[i].Some?
        ensures t.targets[i].value.uid != w.uid
      {
        assert r.targets[i] == t.targets[i];
      }
    }
  }

  /** After an update that targeted `w`, no widget with `w`'s uid is unexplored,
      and nothing explored before becomes unexplored again; this holds for the
      update as written and for the corrected one alike. */
  lemma UnexploredShrinks(t: Trace, res: ActionResult, newState: StateData, candidates: seq<Widget>)
    ensures var after := Unexplored(UpdateAsWritten(t, res, newState).0, candidates);
            && (forall w :: w in after ==> w in Unexplored(t, candidates))
            && (res.targetWidget.Some? ==> forall w :: w in after ==> w.uid != res.targetWidget.value.uid)
    ensures var after := Unexplored(Update(t, res, newState).0, candidates);
            && (forall w :: w in after ==> w in Unexplored(t, candidates))
            && (res.targetWidget.Some? ==> forall w :: w in after ==> w.uid != res.targetWidget.value.uid)
  {
    UnexploredShrinksWith(t, UpdateAsWritten(t, res, newState).0, res.targetWidget, candidates);
    UnexploredShrinksWith(t, Update(t, res, newState).0, res.targetWidget, candidates);
  }

  /** `equals` as written: a left fold over this trace that short-circuits once a
      pair differs and otherwise indexes the other trace, throwing when it runs
      past the other's end. */
  function FoldEquals(a: seq<ActionData>, b: seq<ActionData>, i: nat, res: bool): Result<bool>
    requires i <= |a|
    decreases |a| - i
  {
    if i == |a| then Ok(res)
    else if !res then FoldEquals(a, b, i + 1, false)
    else if i >= |b| then Err("index out of bounds")
    else FoldEquals(a, b, i + 1, a[i] == b[i])
  }

  function Equals(t: Trace, other: Trace): Result<bool> {
    FoldEquals(t.records, other.records, 0, true)
  }

  lemma {:induction false} FoldEqualsFalse(a: seq<ActionData>, b: seq<ActionData>, i: nat)
    requires i <= |a|
    ensures FoldEquals(a, b, i, false) == Ok(false)
    decreases |a| - i
  {
    if i < |a| {
      FoldEqualsFalse(a, b, i + 1);
    }
  }

  lemma {:induction false} FoldEqualsPrefix(a: seq<ActionData>, b: seq<ActionData>, i: nat)
    requires i <= |a|
    requires i <= |b| && a[..i] == b[..i]
    ensures |a| <= |b| ==> FoldEquals(a, b, i, true) == Ok(a == b[..|a|])
    ensures |a| > |b| ==> FoldEquals(a, b, i, true) == (if a[..|b|] == b then Err("index out of bounds") else Ok(false))
    decreases |a| - i
  {
    if i < |a| {
      if i >= |b| {
        assert a[..|b|] == b;
      } else if a[i] == b[i] {
        assert a[..i + 1] == b[..i + 1] by {
          assert a[..i + 1] == a[..i] + [a[i]];
          assert b[..i + 1] == b[..i] + [b[i]];
        }
        FoldEqualsPrefix(a, b, i + 1);
      } else {
        FoldEqualsFalse(a, b, i + 1);
        if |a| <= |b| {
          assert a[i] != b[..|a|][i];
        } else {
          assert a[..|b|][i] != b[i];
        }
      }
    } else {
      assert a == a[..i];
    }
  }

  /** `equals` is prefix comparison: against a trace at least as long it
      answers whether this trace's records are the other's first records;
      against a shorter trace it is false, or throws when the shorter trace is a
      prefix of this one. */
  lemma EqualsIsPrefix(t: Trace, other: Trace)
    ensures |t.records| <= |other.records| ==>
              Equals(t, other) == Ok(t.records == other.records[..|t.records|])
    ensures |t.records| > |other.records| ==>
              Equals(t, other) == (if t.records[..|other.records|] == other.records then Err("index out of bounds") else Ok(false))
  {
    FoldEqualsPrefix(t.records, other.records, 0);
  }

  lemma EqualsReflexive(t: Trace)
    ensures Equals(t, t) == Ok(true)
  {
    EqualsIsPrefix(t, t);
  }

  /** A trace equals every trace it was extended to, by the written update or
      the corrected one. */
  lemma EqualsExtension(t: Trace, res: ActionResult, newState: StateData)
    ensures Equals(t, UpdateAsWritten(t, res, newState).0) == Ok(true)
    ensures Equals(t, Update(t, res, newState).0) == Ok(true)
  {
    EqualsIsPrefix(t, UpdateAsWritten(t, res, newState).0);
    EqualsIsPrefix(t, Update(t, res, newState).0);
  }

  /** The lines `dump` writes: the header, then one row per record in order. */
  function DumpLines(t: Trace): (lines: seq<string>)
    ensures |lines| == |t.records| + 1
  {
    [Header()] + seq(|t.records|, i requires 0 <= i < |t.records| => ActionString(t.records[i]))
  }

  /** Every line of a dump has the eight header columns, and every data row
      reads back as its record. */
  lemma DumpReadsBack(t: Trace, i: nat)
    requires 0 < i <= |t.records|
    requires SeparatorFreeRecord(t.records[i - 1])
    ensures |Split(DumpLines(t)[0], Sep)| == |Split(DumpLines(t)[i], Sep)| == 8
    ensures var a := t.records[i - 1];
            CreateFromString(Split(DumpLines(t)[i], Sep), a.targetWidget)
              == Ok(a.(actionType := Some(a.actionType.GetOr("")), screenshot := None))
  {
    var lines := DumpLines(t);
    assert lines[0] == Header();
    assert lines[i] == ActionString(t.records[i - 1]);
    HeaderColumns();
    ActionStringColumns(t.records[i - 1]);
    RowRoundTrip(t.records[i - 1]);
  }
}
