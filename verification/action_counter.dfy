/** `ActionCounterMF`: how often each widget was acted on from each state, how
    often each state was acted from, and how often each package's widgets were
    targeted. Updates are applied synchronously; the coroutine join before each
    query is a no-op here. */
module ActionCounter {
  import opened Seqs
  import opened PcModel

  /** A map read with a default of zero for a missing key. */
  function Get<K(==)>(m: map<K, int>, k: K): int {
    if k in m then m[k] else 0
  }

  /** `compute(k) { _, c -> c?.inc() ?: 1 }`: add one, starting from zero. */
  function Inc<K(==,!new)>(m: map<K, int>, k: K): (r: map<K, int>)
    ensures r.Keys == m.Keys + {k}
    ensures Get(r, k) == Get(m, k) + 1
    ensures forall j :: j != k ==> Get(r, j) == Get(m, j)
  {
    m[k := Get(m, k) + 1]
  }

  /** A widget's per-state counts, in insertion order. */
  type StateCounts = seq<(UUID, int)>

  /** The count of state `s`, zero when absent. */
  function Lookup(l: StateCounts, s: UUID): int
    decreases |l|
  {
    if |l| == 0 then 0 else if l[0].0 == s then l[0].1 else Lookup(l[1..], s)
  }

  /** The sum of all per-state counts. */
  function Sum(l: StateCounts): int
    decreases |l|
  {
    if |l| == 0 then 0 else l[0].1 + Sum(l[1..])
  }

  /** The states that have an entry. */
  function StatesOf(l: StateCounts): set<UUID> {
    set i | 0 <= i < |l| :: l[i].0
  }

  /** The states of a list with one more entry in front. */
  lemma StatesOfCons(e: (UUID, int), l: StateCounts)
    ensures StatesOf([e] + l) == {e.0} + StatesOf(l)
  {
    var r := [e] + l;
    forall t | t in StatesOf(r)
      ensures t in {e.0} + StatesOf(l)
    {
      var i :| 0 <= i < |r| && r[i].0 == t;
      if i > 0 {
        assert l[i - 1].0 == t;
      }
    }
    forall t | t in StatesOf(l)
      ensures t in StatesOf(r)
    {
      var i :| 0 <= i < |l| && l[i].0 == t;
      assert r[i + 1].0 == t;
    }
    assert r[0].0 == e.0;
    assert e.0 in StatesOf(r);
  }

  /** One entry per state, every count positive. */
  predicate WellFormedCounts(l: StateCounts) {
    && (forall i, j :: 0 <= i < j < |l| ==> l[i].0 != l[j].0)
    && (forall i :: 0 <= i < |l| ==> l[i].1 > 0)
  }

  /** A list with one more entry in front is well formed iff the entry is
      positive and new and the rest is well formed. */
  lemma WellFormedCons(e: (UUID, int), l: StateCounts)
    ensures WellFormedCounts([e] + l) <==> e.1 > 0 && e.0 !in StatesOf(l) && WellFormedCounts(l)
  {
    var r := [e] + l;
    if WellFormedCounts(r) {
      forall i, j | 0 <= i < j < |l|
        ensures l[i].0 != l[j].0
      {
        assert r[i + 1] == l[i] && r[j + 1] == l[j];
      }
      forall i | 0 <= i < |l|
        ensures l[i].1 > 0
      {
        assert r[i + 1] == l[i];
      }
      forall k | 0 <= k < |l|
        ensures l[k].0 != e.0
      {
        assert r[0] == e && r[k + 1] == l[k];
      }
    }
    if e.1 > 0 && e.0 !in StatesOf(l) && WellFormedCounts(l) {
      forall i, j | 0 <= i < j < |r|
        ensures r[i].0 != r[j].0
      {
        if i == 0 {
          assert r[j].0 == l[j - 1].0 && l[j - 1].0 in StatesOf(l);
        } else {
          assert r[i] == l[i - 1] && r[j] == l[j - 1];
        }
      }
      forall i | 0 <= i < |r|
        ensures r[i].1 > 0
      {
        if i > 0 {
          assert r[i] == l[i - 1];
        }
      }
    }
  }

  /** `incCnt(sId)` on a widget's per-state map: add one to the state's count,
      inserting it with count one at the end when absent. */
  function IncAt(l: StateCounts, s: UUID): (r: StateCounts)
    ensures Lookup(r, s) == Lookup(l, s) + 1
    ensures forall t :: t != s ==> Lookup(r, t) == Lookup(l, t)
    ensures Sum(r) == Sum(l) + 1
    decreases |l|
  {
    if |l| == 0 then [(s, 1)]
    else if l[0].0 == s then
      var r := [(s, l[0].1 + 1)] + l[1..];
      assert r[1..] == l[1..];
      r
    else
      var rest := IncAt(l[1..], s);
      var r := [l[0]] + rest;
      assert r[1..] == rest;
      r
  }

  /** Incrementing adds the state to the entries and keeps one positive entry
      per state. */
  lemma {:induction false} IncAtWellFormed(l: StateCounts, s: UUID)
    ensures StatesOf(IncAt(l, s)) == StatesOf(l) + {s}
    ensures WellFormedCounts(l) ==> WellFormedCounts(IncAt(l, s))
    decreases |l|
  {
    if |l| == 0 {
      assert IncAt(l, s) == [(s, 1)] + [];
      StatesOfCons((s, 1), []);
      WellFormedCons((s, 1), []);
    } else {
      assert l == [l[0]] + l[1..];
      StatesOfCons(l[0], l[1..]);
      WellFormedCons(l[0], l[1..]);
      if l[0].0 == s {
        StatesOfCons((s, l[0].1 + 1), l[1..]);
        WellFormedCons((s, l[0].1 + 1), l[1..]);
      } else {
        IncAtWellFormed(l[1..], s);
        StatesOfCons(l[0], IncAt(l[1..], s));
        WellFormedCons(l[0], IncAt(l[1..], s));
      }
    }
  }

  /** With non-negative counts each state's count is at most the sum. */
  lemma {:induction false} LookupAtMostSum(l: StateCounts, s: UUID)
    requires forall i :: 0 <= i < |l| ==> l[i].1 >= 0
    ensures 0 <= Lookup(l, s) <= Sum(l)
    decreases |l|
  {
    if |l| > 0 {
      LookupAtMostSum(l[1..], s);
    }
  }

  /** The three counter maps: per state, per widget uid (then per state), and
      per package name. */
  datatype Counter = Counter(sCnt: map<UUID, int>, wCnt: map<UUID, StateCounts>, pCnt: map<string, int>)

  const EmptyCounter: Counter := Counter(map[], map[], map[])

  /** Every stored count is positive and every widget has one entry per state. */
  predicate WellFormed(c: Counter) {
    && (forall s :: s in c.sCnt ==> c.sCnt[s] > 0)
    && (forall p :: p in c.pCnt ==> c.pCnt[p] > 0)
    && (forall u :: u in c.wCnt ==> WellFormedCounts(c.wCnt[u]))
  }

  /** A widget's per-state counts, empty when it was never acted on. */
  function WidgetCounts(c: Counter, wId: UUID): StateCounts {
    if wId in c.wCnt then c.wCnt[wId] else []
  }

  /** `widgetCntForState` (and the private `cntForState`): how often the widget
      was acted on from the state; zero when unknown. */
  function CntForState(c: Counter, wId: UUID, sId: UUID): int {
    Lookup(WidgetCounts(c, wId), sId)
  }

  /** `widgetCnt`: how often the widget was acted on over all states. */
  function WidgetCnt(c: Counter, wId: UUID): int {
    Sum(WidgetCounts(c, wId))
  }

  /** `pkgCount`: how often widgets of the package were acted on; zero when
      unknown. */
  function PkgCount(c: Counter, pkgName: string): int {
    Get(c.pCnt, pkgName)
  }

  /** How often any widget was acted on from the state. */
  function StateCnt(c: Counter, sId: UUID): int {
    Get(c.sCnt, sId)
  }

  /** `numStates`: the number of states with a count. */
  function NumStates(c: Counter): nat {
    |c.sCnt|
  }

  /** A widget's overall count bounds each of its per-state counts. */
  lemma WidgetCntBoundsStateCnt(c: Counter, wId: UUID, sId: UUID)
    requires WellFormed(c)
    ensures 0 <= CntForState(c, wId, sId) <= WidgetCnt(c, wId)
  {
    LookupAtMostSum(WidgetCounts(c, wId), sId);
  }

  /** One target of `onNewInteracted`, acted on from state `sId`. */
  function Record(c: Counter, target: Widget, sId: UUID): (r: Counter)
    ensures r.sCnt.Keys == c.sCnt.Keys + {sId}
  {
    Counter(Inc(c.sCnt, sId), c.wCnt[target.uid := IncAt(WidgetCounts(c, target.uid), sId)], Inc(c.pCnt, target.packageName))
  }

  /** Recording a target keeps the counter well formed. */
  lemma RecordWellFormed(c: Counter, target: Widget, sId: UUID)
    requires WellFormed(c)
    ensures WellFormed(Record(c, target, sId))
  {
    IncAtWellFormed(WidgetCounts(c, target.uid), sId);
  }

  /** Recording one target raises its (widget, state) count, its widget total,
      the state's count and its package's count by one, and no other count. */
  lemma RecordCounts(c: Counter, target: Widget, sId: UUID, u: UUID, s: UUID, p: string)
    ensures var r := Record(c, target, sId);
            && CntForState(r, u, s) == CntForState(c, u, s) + (if target.uid == u && s == sId then 1 else 0)
            && WidgetCnt(r, u) == WidgetCnt(c, u) + (if target.uid == u then 1 else 0)
            && StateCnt(r, s) == StateCnt(c, s) + (if s == sId then 1 else 0)
            && PkgCount(r, p) == PkgCount(c, p) + (if target.packageName == p then 1 else 0)
  {
    var r := Record(c, target, sId);
    assert WidgetCounts(r, u) == if target.uid == u then IncAt(WidgetCounts(c, target.uid), sId) else WidgetCounts(c, u);
  }

  function HasUid(u: UUID): Widget -> bool {
    (w: Widget) => w.uid == u
  }

  function InPackage(p: string): Widget -> bool {
    (w: Widget) => w.packageName == p
  }

  /** Counting a uid over a non-empty list splits off its last element. */
  lemma CountUidLast(targets: seq<Widget>, u: UUID)
    requires |targets| > 0
    ensures var n := |targets| - 1;
            Count(targets, HasUid(u)) == Count(targets[..n], HasUid(u)) + (if targets[n].uid == u then 1 else 0)
  {
    CountLast(targets, HasUid(u));
    assert HasUid(u)(targets[|targets| - 1]) == (targets[|targets| - 1].uid == u);
  }

  /** Counting a package over a non-empty list splits off its last element. */
  lemma CountPackageLast(targets: seq<Widget>, p: string)
    requires |targets| > 0
    ensures var n := |targets| - 1;
            Count(targets, InPackage(p)) == Count(targets[..n], InPackage(p)) + (if targets[n].packageName == p then 1 else 0)
  {
    CountLast(targets, InPackage(p));
    assert InPackage(p)(targets[|targets| - 1]) == (targets[|targets| - 1].packageName == p);
  }

  /** `onNewInteracted`: every target is recorded as acted on from the
      previous state. */
  function OnNewInteracted(c: Counter, targets: seq<Widget>, prevState: UUID): (r: Counter)
    ensures r.sCnt.Keys == c.sCnt.Keys + (if |targets| > 0 then {prevState} else {})
    decreases |targets|
  {
    if |targets| == 0 then c
    else
      var n := |targets| - 1;
      Record(OnNewInteracted(c, targets[..n], prevState), targets[n], prevState)
  }

  /** `onNewInteracted` keeps the counter well formed. */
  lemma {:induction false} OnNewInteractedWellFormed(c: Counter, targets: seq<Widget>, prevState: UUID)
    requires WellFormed(c)
    ensures WellFormed(OnNewInteracted(c, targets, prevState))
    decreases |targets|
  {
    if |targets| > 0 {
      var n := |targets| - 1;
      OnNewInteractedWellFormed(c, targets[..n], prevState);
      RecordWellFormed(OnNewInteracted(c, targets[..n], prevState), targets[n], prevState);
    }
  }

  /** The counter after all targets is the counter after all but the last,
      with the last recorded. */
  lemma OnNewInteractedLast(c: Counter, targets: seq<Widget>, prevState: UUID)
    requires |targets| > 0
    ensures var n := |targets| - 1;
            OnNewInteracted(c, targets, prevState) == Record(OnNewInteracted(c, targets[..n], prevState), targets[n], prevState)
  {
  }

  /** One step of the induction for the widget counts: if `before` (the
      counter after all but the last target) has the counts of all but the
      last target, then `r` (it with the last recorded) has those of all. */
  lemma {:induction false} WidgetCountsStep(c: Counter, before: Counter, r: Counter, targets: seq<Widget>, prevState: UUID, u: UUID, s: UUID)
    requires |targets| > 0
    requires r == Record(before, targets[|targets| - 1], prevState)
    requires CntForState(before, u, s) == CntForState(c, u, s) + (if s == prevState then Count(targets[..|targets| - 1], HasUid(u)) else 0)
    requires WidgetCnt(before, u) == WidgetCnt(c, u) + Count(targets[..|targets| - 1], HasUid(u))
    ensures CntForState(r, u, s) == CntForState(c, u, s) + (if s == prevState then Count(targets, HasUid(u)) else 0)
    ensures WidgetCnt(r, u) == WidgetCnt(c, u) + Count(targets, HasUid(u))
  {
    RecordCounts(before, targets[|targets| - 1], prevState, u, s, "");
    CountUidLast(targets, u);
  }

  /** One step of the induction for the state and package counts. */
  lemma {:induction false} StateCountsStep(c: Counter, before: Counter, r: Counter, targets: seq<Widget>, prevState: UUID, s: UUID, p: string)
    requires |targets| > 0
    requires r == Record(before, targets[|targets| - 1], prevState)
    requires StateCnt(before, s) == StateCnt(c, s) + (if s == prevState then |targets| - 1 else 0)
    requires PkgCount(before, p) == PkgCount(c, p) + Count(targets[..|targets| - 1], InPackage(p))
    ensures StateCnt(r, s) == StateCnt(c, s) + (if s == prevState then |targets| else 0)
    ensures PkgCount(r, p) == PkgCount(c, p) + Count(targets, InPackage(p))
  {
    RecordCounts(before, targets[|targets| - 1], prevState, "", s, p);
    CountPackageLast(targets, p);
  }

  /** Every (widget, state) count rises by the number of targets with that uid
      when the state is the previous one, and each widget total by the number
      of its targets. */
  lemma {:induction false} OnNewInteractedWidgetCounts(c: Counter, targets: seq<Widget>, prevState: UUID, u: UUID, s: UUID)
    ensures var r := OnNewInteracted(c, targets, prevState);
            && CntForState(r, u, s) == CntForState(c, u, s) + (if s == prevState then Count(targets, HasUid(u)) else 0)
            && WidgetCnt(r, u) == WidgetCnt(c, u) + Count(targets, HasUid(u))
    decreases |targets|
  {
    if |targets| > 0 {
      var n := |targets| - 1;
      var before := OnNewInteracted(c, targets[..n], prevState);
      var r := OnNewInteracted(c, targets, prevState);
      OnNewInteractedLast(c, targets, prevState);
      assert r == Record(before, targets[n], prevState);
      OnNewInteractedWidgetCounts(c, targets[..n], prevState, u, s);
      WidgetCountsStep(c, before, r, targets, prevState, u, s);
    }
  }

  /** The previous state's count rises by the number of targets, and each
      package count by the number of targets in it. */
  lemma {:induction false} OnNewInteractedStateCounts(c: Counter, targets: seq<Widget>, prevState: UUID, s: UUID, p: string)
    ensures var r := OnNewInteracted(c, targets, prevState);
            && StateCnt(r, s) == StateCnt(c, s) + (if s == prevState then |targets| else 0)
            && PkgCount(r, p) == PkgCount(c, p) + Count(targets, InPackage(p))
    decreases |targets|
  {
    if |targets| > 0 {
      var n := |targets| - 1;
      OnNewInteractedStateCounts(c, targets[..n], prevState, s, p);
      OnNewInteractedLast(c, targets, prevState);
      StateCountsStep(c, OnNewInteracted(c, targets[..n], prevState), OnNewInteracted(c, targets, prevState), targets, prevState, s, p);
    }
  }

  /** All four counts after `onNewInteracted`. */
  lemma OnNewInteractedCounts(c: Counter, targets: seq<Widget>, prevState: UUID, u: UUID, s: UUID, p: string)
    ensures var r := OnNewInteracted(c, targets, prevState);
            && CntForState(r, u, s) == CntForState(c, u, s) + (if s == prevState then Count(targets, HasUid(u)) else 0)
            && WidgetCnt(r, u) == WidgetCnt(c, u) + Count(targets, HasUid(u))
            && StateCnt(r, s) == StateCnt(c, s) + (if s == prevState then |targets| else 0)
            && PkgCount(r, p) == PkgCount(c, p) + Count(targets, InPackage(p))
  {
    OnNewInteractedWidgetCounts(c, targets, prevState, u, s);
    OnNewInteractedStateCounts(c, targets, prevState, s, p);
  }

  /** No counter ever decreases. */
  lemma CountersNeverDecrease(c: Counter, targets: seq<Widget>, prevState: UUID, u: UUID, s: UUID, p: string)
    ensures var r := OnNewInteracted(c, targets, prevState);
            && CntForState(r, u, s) >= CntForState(c, u, s)
            && WidgetCnt(r, u) >= WidgetCnt(c, u)
            && StateCnt(r, s) >= StateCnt(c, s)
            && PkgCount(r, p) >= PkgCount(c, p)
  {
    OnNewInteractedCounts(c, targets, prevState, u, s, p);
  }

  /** One `onNewInteracted` call of an exploration: the targets and the uid of
      the state they were acted on from. */
  datatype Interaction = Interaction(targets: seq<Widget>, prevState: UUID)

  /** The counter after the given calls, starting from an empty one. */
  function Replay(history: seq<Interaction>): Counter
    decreases |history|
  {
    if |history| == 0 then EmptyCounter
    else
      var last := history[|history| - 1];
      OnNewInteracted(Replay(history[..|history| - 1]), last.targets, last.prevState)
  }

  /** How often widget `u` was targeted from state `s` in the history. */
  function Occurrences(history: seq<Interaction>, u: UUID, s: UUID): nat
    decreases |history|
  {
    if |history| == 0 then 0
    else
      var last := history[|history| - 1];
      Occurrences(history[..|history| - 1], u, s) + (if last.prevState == s then Count(last.targets, HasUid(u)) else 0)
  }

  /** How many targets were acted on from state `s` in the history. */
  function StateOccurrences(history: seq<Interaction>, s: UUID): nat
    decreases |history|
  {
    if |history| == 0 then 0
    else
      var last := history[|history| - 1];
      StateOccurrences(history[..|history| - 1], s) + (if last.prevState == s then |last.targets| else 0)
  }

  /** The states some target was acted on from. */
  function ActedFrom(history: seq<Interaction>): set<UUID> {
    set i | 0 <= i < |history| && |history[i].targets| > 0 :: history[i].prevState
  }

  /** The replayed counter holds exactly the occurrence counts of the history. */
  lemma {:induction false} ReplayCounts(history: seq<Interaction>, u: UUID, s: UUID)
    ensures CntForState(Replay(history), u, s) == Occurrences(history, u, s)
    ensures StateCnt(Replay(history), s) == StateOccurrences(history, s)
    decreases |history|
  {
    if |history| > 0 {
      var last := history[|history| - 1];
      ReplayCounts(history[..|history| - 1], u, s);
      OnNewInteractedCounts(Replay(history[..|history| - 1]), last.targets, last.prevState, u, s, "");
    }
  }

  /** Dropping the last call removes its state from the acted-from states
      only if it was acted from nowhere else. */
  lemma ActedFromLast(history: seq<Interaction>)
    requires |history| > 0
    ensures var n := |history| - 1;
            ActedFrom(history) == ActedFrom(history[..n]) + (if |history[n].targets| > 0 then {history[n].prevState} else {})
  {
    var n := |history| - 1;
    assert forall i :: 0 <= i < n ==> history[..n][i] == history[i];
  }

  /** The replayed counter has a state count exactly for the states some
      target was acted on from. */
  lemma {:induction false} ReplayKeys(history: seq<Interaction>)
    ensures Replay(history).sCnt.Keys == ActedFrom(history)
    decreases |history|
  {
    if |history| > 0 {
      ReplayKeys(history[..|history| - 1]);
      ActedFromLast(history);
    }
  }

  /** The replayed counter is well formed and has a state count exactly for
      the states some target was acted on from. */
  lemma {:induction false} ReplayStates(history: seq<Interaction>)
    ensures Replay(history).sCnt.Keys == ActedFrom(history)
    ensures WellFormed(Replay(history))
    decreases |history|
  {
    ReplayKeys(history);
    if |history| > 0 {
      var n := |history| - 1;
      ReplayStates(history[..n]);
      OnNewInteractedWellFormed(Replay(history[..n]), history[n].targets, history[n].prevState);
    }
  }

  /** `numStates` after a replay is the number of states acted from. */
  lemma NumStatesAfterReplay(history: seq<Interaction>)
    ensures NumStates(Replay(history)) == |ActedFrom(history)|
  {
    ReplayStates(history);
  }

  /** `numExplored(s, selection)`: exactly the selection, each widget with its
      count in state `s`. */
  function NumExploredFor(c: Counter, s: State, selection: seq<Widget>): (r: map<Widget, int>)
    ensures r.Keys == set w | w in selection
    ensures forall w :: w in r ==> r[w] == CntForState(c, w.uid, s.uid)
  {
    map w | w in selection :: CntForState(c, w.uid, s.uid)
  }

  /** `numExplored(s)`: the same, over the state's actionable widgets. */
  function NumExplored(c: Counter, s: State): (r: map<Widget, int>)
    ensures r.Keys == set w | w in s.actionableWidgets
    ensures forall w :: w in r ==> r[w] == CntForState(c, w.uid, s.uid)
  {
    NumExploredFor(c, s, s.actionableWidgets)
  }

  /** After any run of calls from an empty counter, `numExplored` maps each
      widget to the number of times a target with its uid was acted on from
      `s` in that run. */
  lemma NumExploredAfterReplay(history: seq<Interaction>, s: State, selection: seq<Widget>)
    ensures var m := NumExploredFor(Replay(history), s, selection);
            forall w :: w in m ==> m[w] == Occurrences(history, w.uid, s.uid)
    ensures var m := NumExplored(Replay(history), s);
            forall w :: w in m ==> m[w] == Occurrences(history, w.uid, s.uid)
  {
    forall w: Widget
      ensures CntForState(Replay(history), w.uid, s.uid) == Occurrences(history, w.uid, s.uid)
    {
      ReplayCounts(history, w.uid, s.uid);
    }
  }

  /** `unexplored(s)`: the actionable widgets of `s` never acted on from `s`. */
  function Unexplored(c: Counter, s: State): (r: set<Widget>)
    ensures forall w :: w in r <==> w in s.actionableWidgets && CntForState(c, w.uid, s.uid) == 0
  {
    var m := NumExplored(c, s);
    set w | w in m && m[w] == 0
  }

  /** A widget stays unexplored in `s` exactly until some call targets it from
      `s`. */
  lemma UnexploredAfterInteraction(c: Counter, s: State, targets: seq<Widget>, w: Widget)
    requires WellFormed(c)
    ensures w in Unexplored(OnNewInteracted(c, targets, s.uid), s) <==>
            w in Unexplored(c, s) && Count(targets, HasUid(w.uid)) == 0
  {
    WidgetCntBoundsStateCnt(c, w.uid, s.uid);
    OnNewInteractedCounts(c, targets, s.uid, w.uid, s.uid, "");
  }
}
