/** Derived facts the reporter computes from an exploration log: unique widgets,
    (event, API) pairs, the number of app resets and the file-name form of the
    apk name. */
module ReportExtensions {
  import opened Wrappers
  import opened Seqs
  import opened DevModel
  import opened ExplorationTraces

  /** An API call observed in the device log, by its identifying text. */
  datatype ApiLogcatMessage = ApiLogcatMessage(uniqueString: string)

  /** Class name of the action that resets the app. */
  const ResetActionType: string := "ResetAppExplorationAction"

  /** Position `i` holds the first widget of `ws` with its uid. */
  predicate FirstOfUid(ws: seq<Widget>, i: nat)
    requires i < |ws|
  {
    forall j :: 0 <= j < i ==> ws[j].uid != ws[i].uid
  }

  /** Every uid of `ws` has a first position. */
  lemma {:induction false} FirstIndexOfUid(ws: seq<Widget>, m: nat) returns (i: nat)
    requires m < |ws|
    ensures i <= m && ws[i].uid == ws[m].uid && FirstOfUid(ws, i)
    decreases m
  {
    if j :| 0 <= j < m && ws[j].uid == ws[m].uid {
      i := FirstIndexOfUid(ws, j);
    } else {
      i := m;
    }
  }

  /** The first widget of each uid in `ws`. */
  function FirstsByUid(ws: seq<Widget>): set<Widget> {
    set i | 0 <= i < |ws| && FirstOfUid(ws, i) :: ws[i]
  }

  /** No two widgets of `FirstsByUid` share a uid. */
  lemma FirstsByUidDistinct(ws: seq<Widget>, a: Widget, b: Widget)
    requires a in FirstsByUid(ws) && b in FirstsByUid(ws) && a.uid == b.uid
    ensures a == b
  {
    var i :| 0 <= i < |ws| && FirstOfUid(ws, i) && ws[i] == a;
    var k :| 0 <= k < |ws| && FirstOfUid(ws, k) && ws[k] == b;
    assert !(i < k) && !(k < i);
  }

  /** Every uid of `ws` is represented in `FirstsByUid`. */
  lemma FirstsByUidCover(ws: seq<Widget>, w: Widget)
    requires w in ws
    ensures exists v :: v in FirstsByUid(ws) && v.uid == w.uid
  {
    var m :| 0 <= m < |ws| && ws[m] == w;
    var i := FirstIndexOfUid(ws, m);
    assert ws[i] in FirstsByUid(ws);
  }

  /** `uniqueActionableWidgets`: of the actionable widgets grouped by uid, the
      first of each group. */
  function UniqueActionableWidgets(widgets: seq<Widget>): (r: set<Widget>)
    ensures forall w :: w in r ==> w in widgets && w.canBeActedUpon
    ensures forall a, b :: a in r && b in r && a.uid == b.uid ==> a == b
    ensures forall w :: w in widgets && w.canBeActedUpon ==> exists v :: v in r && v.uid == w.uid
  {
    var f := Filter(widgets, (w: Widget) => w.canBeActedUpon);
    var r := FirstsByUid(f);
    assert forall w :: w in r ==> w in f;
    forall a, b | a in r && b in r && a.uid == b.uid ensures a == b {
      FirstsByUidDistinct(f, a, b);
    }
    forall w | w in widgets && w.canBeActedUpon ensures exists v :: v in r && v.uid == w.uid {
      FirstsByUidCover(f, w);
    }
    r
  }

  /** `uniqueClickedWidgets`: every widget some record targeted. */
  function UniqueClickedWidgets(records: seq<ActionData>): (r: set<Widget>)
    ensures forall w :: w in r <==> exists i :: 0 <= i < |records| && records[i].targetWidget == Some(w)
  {
    set i | 0 <= i < |records| && records[i].targetWidget.Some? :: records[i].targetWidget.value
  }

  /** In a trace whose targets follow its records, as both the written and the
      corrected update keep them, the clicked widgets' uids are the uids the
      trace's `unexplored` filter excludes. */
  lemma ClickedUidsAreTargetUids(t: Trace)
    requires TargetsTrackRecords(t)
    ensures (set w | w in UniqueClickedWidgets(t.records) :: w.uid) == TargetUids(t)
  {
    var clicked := UniqueClickedWidgets(t.records);
    forall u | u in TargetUids(t) ensures u in (set w | w in clicked :: w.uid) {
      var i :| 0 <= i < |t.targets| && t.targets[i].Some? && t.targets[i].value.uid == u;
      assert t.records[i].targetWidget == t.targets[i];
      assert t.targets[i].value in clicked;
    }
    forall u | u in (set w | w in clicked :: w.uid) ensures u in TargetUids(t) {
      var w :| w in clicked && w.uid == u;
      var i :| 0 <= i < |t.records| && t.records[i].targetWidget == Some(w);
      assert t.targets[i] == Some(w);
    }
  }

  /** The uid a record stands for in the pairs: its target's, or `emptyUUID`. */
  function TargetUid(a: ActionData): UUID {
    match a.targetWidget
    case Some(w) => w.uid
    case None => EmptyUUID
  }

  /** `uniqueEventApiPairs`: for every record, every API of the log paired with
      the record's target uid. */
  function UniqueEventApiPairs(records: seq<ActionData>, apiLogs: seq<seq<ApiLogcatMessage>>): (r: set<(UUID, ApiLogcatMessage)>)
    ensures forall p :: p in r <==>
              (exists i :: 0 <= i < |records| && TargetUid(records[i]) == p.0) && p.1 in AllApis(apiLogs)
  {
    var r := set i, j, k | 0 <= i < |records| && 0 <= j < |apiLogs| && 0 <= k < |apiLogs[j]| :: (TargetUid(records[i]), apiLogs[j][k]);
    assert forall p: (UUID, ApiLogcatMessage) :: (exists i :: 0 <= i < |records| && TargetUid(records[i]) == p.0) && p.1 in AllApis(apiLogs) ==> p in r by {
      forall p: (UUID, ApiLogcatMessage) | (exists i :: 0 <= i < |records| && TargetUid(records[i]) == p.0) && p.1 in AllApis(apiLogs)
        ensures p in r
      {
        var i :| 0 <= i < |records| && TargetUid(records[i]) == p.0;
        var j, k :| 0 <= j < |apiLogs| && 0 <= k < |apiLogs[j]| && apiLogs[j][k] == p.1;
        assert p == (TargetUid(records[i]), apiLogs[j][k]);
      }
    }
    r
  }

  /** `uniqueApis`: the API halves of the pairs, which are every logged API
      once the trace has a record and none before. */
  function UniqueApis(records: seq<ActionData>, apiLogs: seq<seq<ApiLogcatMessage>>): (r: set<ApiLogcatMessage>)
    ensures r == (if |records| > 0 then AllApis(apiLogs) else {})
  {
    var pairs := UniqueEventApiPairs(records, apiLogs);
    var r := set p | p in pairs :: p.1;
    assert |records| > 0 ==> AllApis(apiLogs) <= r by {
      if |records| > 0 {
        forall api | api in AllApis(apiLogs) ensures api in r {
          assert (TargetUid(records[0]), api) in pairs;
        }
      }
    }
    r
  }

  /** Every API of the log, regardless of records. */
  function AllApis(apiLogs: seq<seq<ApiLogcatMessage>>): set<ApiLogcatMessage> {
    set j, k | 0 <= j < |apiLogs| && 0 <= k < |apiLogs[j]| :: apiLogs[j][k]
  }

  /** The unique APIs are all logged APIs once the trace has a record, and none
      before; each pair's uid is a record's target uid or `emptyUUID`. */
  lemma UniqueApisAreLoggedApis(records: seq<ActionData>, apiLogs: seq<seq<ApiLogcatMessage>>)
    ensures UniqueApis(records, apiLogs) == (if |records| > 0 then AllApis(apiLogs) else {})
    ensures forall p :: p in UniqueEventApiPairs(records, apiLogs) ==>
              p.0 == EmptyUUID || exists i :: 0 <= i < |records| && records[i].targetWidget.Some? && records[i].targetWidget.value.uid == p.0
  {
    if |records| > 0 {
      forall api | api in AllApis(apiLogs) ensures api in UniqueApis(records, apiLogs) {
        var j, k :| 0 <= j < |apiLogs| && 0 <= k < |apiLogs[j]| && apiLogs[j][k] == api;
        assert (TargetUid(records[0]), api) in UniqueEventApiPairs(records, apiLogs);
      }
    }
  }

  /** A record of an app reset. */
  predicate IsReset(a: ActionData) {
    a.actionType == Some(ResetActionType)
  }

  /** Positions of the reset records. */
  function ResetIndices(records: seq<ActionData>): set<int> {
    set i | 0 <= i < |records| && records[i].actionType == Some(ResetActionType)
  }

  /** `resetActionsCount`: records whose action is an app reset. */
  function ResetActionsCount(records: seq<ActionData>): (n: nat)
    ensures n <= |records|
    ensures n == |ResetIndices(records)|
  {
    ResetIndicesCount(records);
    Count(records, IsReset)
  }

  lemma {:induction false} ResetIndicesCount(records: seq<ActionData>)
    ensures Count(records, IsReset) == |ResetIndices(records)|
    decreases |records|
  {
    if |records| > 0 {
      ResetIndicesCount(records[..|records| - 1]);
      CountLast(records, IsReset);
      ResetIndicesLast(records);
    }
  }

  /** The reset positions of a non-empty trace are those of all but its last
      record, plus the last position if that record is a reset. */
  lemma ResetIndicesLast(records: seq<ActionData>)
    requires |records| > 0
    ensures |ResetIndices(records)| == |ResetIndices(records[..|records| - 1])| + (if IsReset(records[|records| - 1]) then 1 else 0)
  {
    var n := |records| - 1;
    var pre := records[..n];
    var extra: set<int> := if IsReset(records[n]) then {n} else {};
    forall i: int ensures i in ResetIndices(records) <==> i in ResetIndices(pre) + extra {
      if 0 <= i < n {
        assert records[i] == pre[i];
      }
    }
    assert ResetIndices(records) == ResetIndices(pre) + extra;
    assert n !in ResetIndices(pre);
  }

  /** A trace update, as written or corrected, raises the reset count by one
      exactly for a reset action. */
  lemma ResetCountAfterUpdate(t: Trace, res: ActionResult, newState: StateData)
    ensures ResetActionsCount(UpdateAsWritten(t, res, newState).0.records)
            == ResetActionsCount(t.records) + (if res.actionType == Some(ResetActionType) then 1 else 0)
    ensures ResetActionsCount(Update(t, res, newState).0.records)
            == ResetActionsCount(t.records) + (if res.actionType == Some(ResetActionType) then 1 else 0)
  {
    var w := UpdateAsWritten(t, res, newState).0;
    assert w.records == t.records + [w.records[|t.records|]];
    CountSnoc(t.records, w.records[|t.records|], IsReset);
    var r := Update(t, res, newState).0;
    assert r.records == t.records + [r.records[|t.records|]];
    CountSnoc(t.records, r.records[|t.records|], IsReset);
  }

  /** `apkFileNameWithUnderscoresForDots`: every '.' becomes '_'. */
  function UnderscoresForDots(name: string): (r: string)
    ensures |r| == |name|
    ensures '.' !in r
    ensures forall i :: 0 <= i < |name| && name[i] != '.' ==> r[i] == name[i]
    ensures forall i :: 0 <= i < |name| && name[i] == '.' ==> r[i] == '_'
  {
    seq(|name|, i requires 0 <= i < |name| => if name[i] == '.' then '_' else name[i])
  }

  lemma UnderscoresForDotsIdempotent(name: string)
    ensures UnderscoresForDots(UnderscoresForDots(name)) == UnderscoresForDots(name)
  {
  }
}
