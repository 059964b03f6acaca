/** Grouping of a flat list of departures into runs (modules/departures.js):
    the departure-time comparator, the distinct run ids in first-occurrence
    order, and one time-ordered departure list per run. */
module Departures {
  import opened Common
  import Sorting

  // ---------------------------------------------------------------------
  // compareDeparturesTime

  /** The instant a departure is expected: the estimate when there is one,
      otherwise the timetabled instant. */
  function EffectiveTime(d: Departure): int {
    match d.estimated
    case Some(t) => t
    case None => d.scheduled
  }

  /** `compareDeparturesTime(a, b)` */
  function CompareDeparturesTime(a: Departure, b: Departure): (r: int)
    ensures r == 1 <==> EffectiveTime(a) > EffectiveTime(b)
    ensures r == -1 <==> EffectiveTime(a) < EffectiveTime(b)
    ensures r == 0 <==> EffectiveTime(a) == EffectiveTime(b)
  {
    var aTime := if a.estimated.Some? then a.estimated.value else a.scheduled;
    var bTime := if b.estimated.Some? then b.estimated.value else b.scheduled;
    if aTime > bTime then 1 else if aTime < bTime then -1 else 0
  }

  /** `compareDeparturesTime` is a consistent comparator, so the sort that
      uses it is the stable sort by effective time. */
  lemma CompareDeparturesTimeIsComparator()
    ensures forall a, b :: CompareDeparturesTime(a, b) == -CompareDeparturesTime(b, a)
    ensures forall a, b, c :: CompareDeparturesTime(a, b) <= 0 && CompareDeparturesTime(b, c) <= 0
                              ==> CompareDeparturesTime(a, c) <= 0
    ensures forall a, b :: CompareDeparturesTime(a, b) <= 0 <==> EffectiveTime(a) <= EffectiveTime(b)
  {
  }

  /** `departures.sort(compareDeparturesTime)` */
  function SortByTime(ds: seq<Departure>): seq<Departure> {
    Sorting.Sort(ds, EffectiveTime)
  }

  // ---------------------------------------------------------------------
  // getUniqueRuns

  function RunIdsOf(ds: seq<Departure>): (r: seq<int>)
    ensures |r| == |ds|
    ensures forall i :: 0 <= i < |ds| ==> r[i] == ds[i].runId
  {
    seq(|ds|, i requires 0 <= i < |ds| => ds[i].runId)
  }

  /** The distinct elements of `s`, each at the position of its first
      occurrence: what iterating a JavaScript `Set` filled from `s` yields. */
  function Dedup(s: seq<int>): seq<int> {
    if s == [] then []
    else
      var p := s[..|s| - 1];
      if s[|s| - 1] in p then Dedup(p) else Dedup(p) + [s[|s| - 1]]
  }

  /** The index of the first occurrence of `x` in `s`. */
  function FirstIndex(s: seq<int>, x: int): (i: nat)
    requires x in s
    ensures i < |s| && s[i] == x && x !in s[..i]
  {
    if s[0] == x then 0
    else
      assert s == [s[0]] + s[1..];
      1 + FirstIndex(s[1..], x)
  }

  lemma {:induction false} FirstIndexOfExtension(p: seq<int>, x: int, y: int)
    requires y in p
    ensures y in p + [x] && FirstIndex(p + [x], y) == FirstIndex(p, y)
  {
    if p[0] != y {
      assert (p + [x])[1..] == p[1..] + [x];
      FirstIndexOfExtension(p[1..], x, y);
    }
  }

  lemma {:induction false} DedupElements(s: seq<int>)
    ensures forall x :: x in Dedup(s) <==> x in s
  {
    if s != [] {
      var p := s[..|s| - 1];
      DedupElements(p);
      assert s == p + [s[|s| - 1]];
    }
  }

  lemma {:induction false} DedupNoDuplicates(s: seq<int>)
    ensures NoDuplicates(Dedup(s))
  {
    if s != [] {
      var p := s[..|s| - 1];
      DedupNoDuplicates(p);
      DedupElements(p);
    }
  }

  lemma FirstIndexOfNew(p: seq<int>, x: int)
    requires x !in p
    ensures x in p + [x] && FirstIndex(p + [x], x) == |p|
  {
    var s := p + [x];
    assert forall j :: 0 <= j < |p| ==> s[j] == p[j];
  }

  /** Ids come out in the order of their first occurrence in the input. */
  lemma {:induction false} DedupFirstOccurrenceOrder(s: seq<int>)
    ensures forall x :: x in Dedup(s) ==> x in s
    ensures forall i, j :: 0 <= i < j < |Dedup(s)| ==> FirstIndex(s, Dedup(s)[i]) < FirstIndex(s, Dedup(s)[j])
  {
    DedupElements(s);
    if s != [] {
      var p, x := s[..|s| - 1], s[|s| - 1];
      assert s == p + [x];
      DedupFirstOccurrenceOrder(p);
      DedupElements(p);
      var dp := Dedup(p);
      forall i | 0 <= i < |dp| ensures FirstIndex(s, dp[i]) == FirstIndex(p, dp[i]) {
        FirstIndexOfExtension(p, x, dp[i]);
      }
      if x !in p {
        var d := dp + [x];
        assert Dedup(s) == d;
        FirstIndexOfNew(p, x);
        forall i, j | 0 <= i < j < |d| ensures FirstIndex(s, d[i]) < FirstIndex(s, d[j]) {
          assert d[i] == dp[i];
          if j < |dp| {
            assert d[j] == dp[j];
          } else {
            assert FirstIndex(p, dp[i]) < |p|;
          }
        }
      } else {
        assert Dedup(s) == dp;
      }
    }
  }

  /** `getUniqueRuns(departures)`: the run ids of the departures, each once,
      in the order in which they first occur. */
  method GetUniqueRuns(departures: seq<Departure>) returns (runIds: seq<int>)
    ensures runIds == Dedup(RunIdsOf(departures))
    ensures NoDuplicates(runIds)
    ensures forall id :: id in runIds <==> exists d :: d in departures && d.runId == id
    ensures forall id :: id in runIds <==> id in RunIdsOf(departures)
    ensures forall i, j :: 0 <= i < j < |runIds|
              ==> FirstIndex(RunIdsOf(departures), runIds[i]) < FirstIndex(RunIdsOf(departures), runIds[j])
  {
    var all := RunIdsOf(departures);
    var seen: set<int> := {};
    runIds := [];
    for i := 0 to |departures|
      invariant runIds == Dedup(all[..i])
      invariant forall x :: x in seen <==> x in all[..i]
    {
      var id := departures[i].runId;
      assert all[..i + 1] == all[..i] + [id];
      DedupElements(all[..i]);
      if id !in seen {
        seen := seen + {id};
        runIds := runIds + [id];
      }
    }
    assert all[..|departures|] == all;
    DedupNoDuplicates(all);
    DedupElements(all);
    DedupFirstOccurrenceOrder(all);
    forall id | id in runIds ensures exists d :: d in departures && d.runId == id {
      var i :| 0 <= i < |all| && all[i] == id;
      assert departures[i] in departures;
    }
    forall id | exists d :: d in departures && d.runId == id ensures id in runIds {
      var d :| d in departures && d.runId == id;
      var i :| 0 <= i < |departures| && departures[i] == d;
      assert all[i] == id;
    }
  }

  // ---------------------------------------------------------------------
  // getDeparturesForRuns

  /** The departures of run `runId`, in input order. */
  function DeparturesOf(ds: seq<Departure>, runId: int): seq<Departure> {
    if ds == [] then []
    else
      var p, last := ds[..|ds| - 1], ds[|ds| - 1];
      DeparturesOf(p, runId) + (if last.runId == runId then [last] else [])
  }

  /** They are exactly the departures of `ds` of that run, each as often as
      in `ds`. */
  lemma {:induction false} DeparturesOfCount(ds: seq<Departure>, runId: int)
    ensures forall d :: multiset(DeparturesOf(ds, runId))[d] == if d.runId == runId then multiset(ds)[d] else 0
  {
    if ds != [] {
      var p, last := ds[..|ds| - 1], ds[|ds| - 1];
      assert ds == p + [last];
      DeparturesOfCount(p, runId);
    }
  }

  lemma DeparturesOfStep(ds: seq<Departure>, j: nat, runId: int)
    requires j < |ds|
    ensures DeparturesOf(ds[..j + 1], runId)
         == DeparturesOf(ds[..j], runId) + (if ds[j].runId == runId then [ds[j]] else [])
  {
    assert ds[..j + 1][..j] == ds[..j];
  }

  datatype RunEntry = RunEntry(runId: int, departures: seq<Departure>)

  function EntryRunIds(entries: seq<RunEntry>): (r: seq<int>)
    ensures |r| == |entries|
    ensures forall k :: 0 <= k < |entries| ==> r[k] == entries[k].runId
  {
    seq(|entries|, k requires 0 <= k < |entries| => entries[k].runId)
  }

  /** The ids of `runIds` that have at least one departure, in order. */
  function IdsWithDepartures(runIds: seq<int>, ds: seq<Departure>): seq<int> {
    if runIds == [] then []
    else
      var p, id := runIds[..|runIds| - 1], runIds[|runIds| - 1];
      IdsWithDepartures(p, ds) + (if DeparturesOf(ds, id) != [] then [id] else [])
  }

  /** The value `getDeparturesForRuns(runIds, ds)` returns: per id of
      `runIds` that has departures, that run's departures sorted by time. */
  function GroupByRun(runIds: seq<int>, ds: seq<Departure>): seq<RunEntry> {
    if runIds == [] then []
    else
      var p, id := runIds[..|runIds| - 1], runIds[|runIds| - 1];
      var own := DeparturesOf(ds, id);
      GroupByRun(p, ds) + (if own != [] then [RunEntry(id, SortByTime(own))] else [])
  }

  lemma EntryRunIdsConcat(a: seq<RunEntry>, b: seq<RunEntry>)
    ensures EntryRunIds(a + b) == EntryRunIds(a) + EntryRunIds(b)
  {
  }

  /** The entries are those of the ids of `runIds` that have departures, in
      order. */
  lemma {:induction false} GroupByRunIds(runIds: seq<int>, ds: seq<Departure>)
    ensures EntryRunIds(GroupByRun(runIds, ds)) == IdsWithDepartures(runIds, ds)
  {
    if runIds != [] {
      var p, id := runIds[..|runIds| - 1], runIds[|runIds| - 1];
      var own := DeparturesOf(ds, id);
      var tail := if own != [] then [RunEntry(id, SortByTime(own))] else [];
      GroupByRunIds(p, ds);
      EntryRunIdsConcat(GroupByRun(p, ds), tail);
      assert EntryRunIds(tail) == if own != [] then [id] else [];
    }
  }

  /** Each entry holds its own run's departures sorted by time. */
  lemma {:induction false} GroupByRunDepartures(runIds: seq<int>, ds: seq<Departure>, k: nat)
    requires k < |GroupByRun(runIds, ds)|
    ensures var e := GroupByRun(runIds, ds)[k];
      e.departures == SortByTime(DeparturesOf(ds, e.runId))
  {
    var p, id := runIds[..|runIds| - 1], runIds[|runIds| - 1];
    var prefix := GroupByRun(p, ds);
    if k < |prefix| {
      GroupByRunDepartures(p, ds, k);
    }
  }

  lemma {:induction false} IdsWithDeparturesIn(runIds: seq<int>, ds: seq<Departure>)
    ensures forall id :: id in IdsWithDepartures(runIds, ds) <==> id in runIds && DeparturesOf(ds, id) != []
  {
    if runIds != [] {
      var p := runIds[..|runIds| - 1];
      IdsWithDeparturesIn(p, ds);
      assert runIds == p + [runIds[|runIds| - 1]];
    }
  }

  lemma {:induction false} IdsWithDeparturesDistinct(runIds: seq<int>, ds: seq<Departure>)
    requires NoDuplicates(runIds)
    ensures NoDuplicates(IdsWithDepartures(runIds, ds))
  {
    if runIds != [] {
      var p := runIds[..|runIds| - 1];
      IdsWithDeparturesDistinct(p, ds);
      IdsWithDeparturesIn(p, ds);
      assert runIds[|runIds| - 1] !in p;
    }
  }

  /** What each entry of `getDeparturesForRuns` holds: at least one
      departure, only departures of its own run, exactly the input's
      departures of that run (none dropped or repeated), in ascending
      effective time, and departures of equal time in input order. */
  lemma RunEntryProperties(runIds: seq<int>, ds: seq<Departure>, k: nat)
    requires k < |GroupByRun(runIds, ds)|
    ensures var e := GroupByRun(runIds, ds)[k];
      && e.runId in runIds
      && e.departures != []
      && (forall d :: d in e.departures ==> d.runId == e.runId)
      && (forall d :: multiset(e.departures)[d] == if d.runId == e.runId then multiset(ds)[d] else 0)
      && (forall i, j :: 0 <= i < j < |e.departures| ==> CompareDeparturesTime(e.departures[i], e.departures[j]) <= 0)
      && (forall t :: Sorting.KeyFilter(e.departures, EffectiveTime, t)
                   == Sorting.KeyFilter(DeparturesOf(ds, e.runId), EffectiveTime, t))
  {
    var r := GroupByRun(runIds, ds);
    var e := r[k];
    var own := DeparturesOf(ds, e.runId);
    GroupByRunIds(runIds, ds);
    GroupByRunDepartures(runIds, ds, k);
    IdsWithDeparturesIn(runIds, ds);
    assert e.runId == EntryRunIds(r)[k];
    assert e.runId in IdsWithDepartures(runIds, ds);
    DeparturesOfCount(ds, e.runId);
    assert multiset(e.departures) == multiset(own);
    forall d | d in e.departures ensures d.runId == e.runId {
      assert multiset(own)[d] > 0;
    }
    forall i, j | 0 <= i < j < |e.departures|
      ensures CompareDeparturesTime(e.departures[i], e.departures[j]) <= 0
    {
      assert Sorting.Sorted(e.departures, EffectiveTime);
    }
    forall t ensures Sorting.KeyFilter(e.departures, EffectiveTime, t) == Sorting.KeyFilter(own, EffectiveTime, t) {
      Sorting.SortIsStable(own, EffectiveTime, t);
    }
  }

  /** Entries come in the order of `runIds`, one per id that has departures,
      and a departure-less id yields no entry. */
  lemma RunEntryOrder(runIds: seq<int>, ds: seq<Departure>)
    ensures forall id :: id in EntryRunIds(GroupByRun(runIds, ds)) <==> id in runIds && DeparturesOf(ds, id) != []
    ensures NoDuplicates(runIds) ==> NoDuplicates(EntryRunIds(GroupByRun(runIds, ds)))
  {
    GroupByRunIds(runIds, ds);
    IdsWithDeparturesIn(runIds, ds);
    if NoDuplicates(runIds) {
      IdsWithDeparturesDistinct(runIds, ds);
    }
  }

  /** Grouping the departures by the ids `getUniqueRuns` finds puts every
      departure into exactly one entry: the one of its own run. */
  lemma EveryDepartureInOneEntry(ds: seq<Departure>, i: nat)
    requires i < |ds|
    ensures var r := GroupByRun(Dedup(RunIdsOf(ds)), ds);
      && NoDuplicates(EntryRunIds(r))
      && exists k :: 0 <= k < |r| && r[k].runId == ds[i].runId && ds[i] in r[k].departures
  {
    var ids := Dedup(RunIdsOf(ds));
    var r := GroupByRun(ids, ds);
    var d := ds[i];
    DedupElements(RunIdsOf(ds));
    DedupNoDuplicates(RunIdsOf(ds));
    RunEntryOrder(ids, ds);
    assert RunIdsOf(ds)[i] == d.runId;
    DeparturesOfCount(ds, d.runId);
    assert multiset(DeparturesOf(ds, d.runId))[d] == multiset(ds)[d] > 0;
    assert d.runId in EntryRunIds(r);
    var k :| 0 <= k < |r| && EntryRunIds(r)[k] == d.runId;
    RunEntryProperties(ids, ds, k);
    assert multiset(r[k].departures)[d] > 0;
  }

  /** `getDeparturesForRuns(runIDSet, departures)` */
  method GetDeparturesForRuns(runIdSet: seq<int>, departures: seq<Departure>) returns (filteredRuns: seq<RunEntry>)
    ensures filteredRuns == GroupByRun(runIdSet, departures)
    ensures forall k :: 0 <= k < |filteredRuns| ==> filteredRuns[k].departures != []
  {
    filteredRuns := [];
    for i := 0 to |runIdSet|
      invariant filteredRuns == GroupByRun(runIdSet[..i], departures)
    {
      var runId := runIdSet[i];
      var runIdDepartures: seq<Departure> := [];
      for j := 0 to |departures|
        invariant runIdDepartures == DeparturesOf(departures[..j], runId)
      {
        DeparturesOfStep(departures, j, runId);
        if departures[j].runId == runId {
          runIdDepartures := runIdDepartures + [departures[j]];
        }
      }
      assert departures[..|departures|] == departures;
      assert runIdSet[..i + 1][..i] == runIdSet[..i];
      assert GroupByRun(runIdSet[..i + 1], departures)
          == GroupByRun(runIdSet[..i], departures)
             + (if runIdDepartures != [] then [RunEntry(runId, SortByTime(runIdDepartures))] else []);
      if |runIdDepartures| > 0 {
        runIdDepartures := SortByTime(runIdDepartures);
        filteredRuns := filteredRuns + [RunEntry(runId, runIdDepartures)];
      }
    }
    assert runIdSet[..|runIdSet|] == runIdSet;
    forall k | 0 <= k < |filteredRuns| ensures filteredRuns[k].departures != [] {
      RunEntryProperties(runIdSet, departures, k);
    }
  }
}
