/** The run filter of `getDeparturesForStops` (app.js:195-240): the
    departures of each route are grouped by run, and a run is published,
    with the coordinates of the stops it is between, only when all the
    stops it departs from lie on its route's stop list. */
module RunFilter {
  import opened Common
  import Departures
  import Stations
  import Topology

  /** One element of `response.routeDepartures`. */
  datatype RouteDepartures = RouteDepartures(routeId: int, departures: seq<Departure>)

  /** One element of `runs`: the run's departures and its map position. */
  datatype PublishedRun = PublishedRun(departure: seq<Departure>, coordinates: Stations.CoordinatesPair)

  /** A run that passes the filter, with the stop list it was checked
      against. */
  datatype Candidate = Candidate(departures: seq<Departure>, routeStops: seq<Stop>)

  // ---------------------------------------------------------------------
  // The stop list of a route (app.js:202-208)

  /** The stop list of the FIRST element of `stops` for `routeId`. */
  function FirstRouteStops(stops: seq<Topology.RouteStopList>, routeId: int): Option<seq<Stop>> {
    if stops == [] then None
    else
      var r := FirstRouteStops(stops[..|stops| - 1], routeId);
      if r.Some? then r
      else if stops[|stops| - 1].routeId == routeId then Some(stops[|stops| - 1].routeStops)
      else None
  }

  /** There is no list exactly when no element is for `routeId`; otherwise
      it is that of an element for `routeId` with none before it. */
  lemma {:induction false} FirstRouteStopsSpec(stops: seq<Topology.RouteStopList>, routeId: int)
    ensures var r := FirstRouteStops(stops, routeId);
      r.None? <==> forall l :: 0 <= l < |stops| ==> stops[l].routeId != routeId
    ensures var r := FirstRouteStops(stops, routeId);
      r.Some? ==> exists l :: 0 <= l < |stops| && stops[l].routeId == routeId
                    && r.value == stops[l].routeStops
                    && forall l' :: 0 <= l' < l ==> stops[l'].routeId != routeId
  {
    if stops != [] {
      var p := stops[..|stops| - 1];
      FirstRouteStopsSpec(p, routeId);
      assert forall l :: 0 <= l < |p| ==> p[l] == stops[l];
      var r := FirstRouteStops(p, routeId);
      if r.Some? {
        var l :| 0 <= l < |p| && p[l].routeId == routeId && r.value == p[l].routeStops
                 && forall l' :: 0 <= l' < l ==> p[l'].routeId != routeId;
        assert stops[l] == p[l];
      }
    }
  }

  /** The stop list of the LAST element of `stops` for `routeId`. */
  function LastRouteStops(stops: seq<Topology.RouteStopList>, routeId: int): Option<seq<Stop>> {
    if stops == [] then None
    else if stops[|stops| - 1].routeId == routeId then Some(stops[|stops| - 1].routeStops)
    else LastRouteStops(stops[..|stops| - 1], routeId)
  }

  /** There is no list exactly when no element is for `routeId`; otherwise
      it is that of an element for `routeId` with none after it. */
  lemma {:induction false} LastRouteStopsSpec(stops: seq<Topology.RouteStopList>, routeId: int)
    ensures var r := LastRouteStops(stops, routeId);
      r.None? <==> forall l :: 0 <= l < |stops| ==> stops[l].routeId != routeId
    ensures var r := LastRouteStops(stops, routeId);
      r.Some? ==> exists l :: 0 <= l < |stops| && stops[l].routeId == routeId
                    && r.value == stops[l].routeStops
                    && forall l' :: l < l' < |stops| ==> stops[l'].routeId != routeId
  {
    if stops != [] && stops[|stops| - 1].routeId != routeId {
      var p := stops[..|stops| - 1];
      LastRouteStopsSpec(p, routeId);
      assert forall l :: 0 <= l < |p| ==> p[l] == stops[l];
      var r := LastRouteStops(p, routeId);
      if r.Some? {
        var l :| 0 <= l < |p| && p[l].routeId == routeId && r.value == p[l].routeStops
                 && forall l' :: l < l' < |p| ==> p[l'].routeId != routeId;
        assert stops[l] == p[l];
      }
    }
  }

  /** `routeIDStops` after the search loop: on a repetition the loop breaks
      at the first match, on the initial run it keeps the last. */
  function RouteStopsFor(stops: seq<Topology.RouteStopList>, routeId: int, repetition: bool): Option<seq<Stop>> {
    if repetition then FirstRouteStops(stops, routeId) else LastRouteStops(stops, routeId)
  }

  /** A list found for a route is one stored for that route. */
  lemma RouteStopsForStored(stops: seq<Topology.RouteStopList>, routeId: int, repetition: bool)
    ensures var r := RouteStopsFor(stops, routeId, repetition);
      r.Some? ==> exists l :: 0 <= l < |stops| && stops[l].routeId == routeId && stops[l].routeStops == r.value
  {
    FirstRouteStopsSpec(stops, routeId);
    LastRouteStopsSpec(stops, routeId);
  }

  predicate DistinctRouteIds(stops: seq<Topology.RouteStopList>) {
    forall l, l' :: 0 <= l < l' < |stops| ==> stops[l].routeId != stops[l'].routeId
  }

  /** When each route is stored once, the `break` makes no difference. */
  lemma RouteStopsIgnoreRepetition(stops: seq<Topology.RouteStopList>, routeId: int)
    requires DistinctRouteIds(stops)
    ensures RouteStopsFor(stops, routeId, true) == RouteStopsFor(stops, routeId, false)
  {
    var f := FirstRouteStops(stops, routeId);
    var g := LastRouteStops(stops, routeId);
    FirstRouteStopsSpec(stops, routeId);
    LastRouteStopsSpec(stops, routeId);
    if f.Some? {
      var l :| 0 <= l < |stops| && stops[l].routeId == routeId && f.value == stops[l].routeStops
               && forall l' :: 0 <= l' < l ==> stops[l'].routeId != routeId;
      var m :| 0 <= m < |stops| && stops[m].routeId == routeId && g.value == stops[m].routeStops
               && forall l' :: m < l' < |stops| ==> stops[l'].routeId != routeId;
      assert l == m;
    }
  }

  lemma LastRouteStopsStep(stops: seq<Topology.RouteStopList>, l: nat, routeId: int)
    requires l < |stops|
    ensures LastRouteStops(stops[..l + 1], routeId)
         == if stops[l].routeId == routeId then Some(stops[l].routeStops) else LastRouteStops(stops[..l], routeId)
  {
    assert stops[..l + 1][..l] == stops[..l];
  }

  lemma {:induction false} FirstRouteStopsAt(stops: seq<Topology.RouteStopList>, routeId: int, l: nat)
    requires l < |stops| && stops[l].routeId == routeId
    requires forall l' :: 0 <= l' < l ==> stops[l'].routeId != routeId
    ensures FirstRouteStops(stops, routeId) == Some(stops[l].routeStops)
  {
    var p := stops[..|stops| - 1];
    if l < |stops| - 1 {
      FirstRouteStopsAt(p, routeId, l);
    } else {
      FirstRouteStopsSpec(p, routeId);
      assert FirstRouteStops(p, routeId).None?;
    }
  }

  /** The loop of app.js:203-208 that finds `routeIDStops`. */
  method FindRouteStops(stops: seq<Topology.RouteStopList>, routeId: int, repetition: bool)
    returns (routeIdStops: Option<seq<Stop>>)
    ensures routeIdStops == RouteStopsFor(stops, routeId, repetition)
  {
    routeIdStops := None;
    for l := 0 to |stops|
      invariant !repetition ==> routeIdStops == LastRouteStops(stops[..l], routeId)
      invariant repetition ==> routeIdStops.None? && forall l' :: 0 <= l' < l ==> stops[l'].routeId != routeId
    {
      LastRouteStopsStep(stops, l, routeId);
      if stops[l].routeId == routeId {
        routeIdStops := Some(stops[l].routeStops);
        if repetition {
          FirstRouteStopsAt(stops, routeId, l);
          break;
        }
      }
    }
    if !repetition {
      assert stops[..|stops|] == stops;
    } else if routeIdStops.None? {
      FirstRouteStopsSpec(stops, routeId);
    }
  }

  // ---------------------------------------------------------------------
  // The validity test (app.js:214-230)

  /** The run's stop set, `target`. */
  function DepartureStopIds(ds: seq<Departure>): set<int> {
    set i | 0 <= i < |ds| :: ds[i].stopId
  }

  lemma DepartureStopIdsStep(ds: seq<Departure>, i: nat)
    requires i < |ds|
    ensures DepartureStopIds(ds[..i + 1]) == DepartureStopIds(ds[..i]) + {ds[i].stopId}
  {
    var p := ds[..i + 1];
    forall x | x in DepartureStopIds(p) ensures x in DepartureStopIds(ds[..i]) + {ds[i].stopId} {
      var k :| 0 <= k < |p| && p[k].stopId == x;
      if k < i { assert ds[..i][k] == p[k]; }
    }
    forall x | x in DepartureStopIds(ds[..i]) ensures x in DepartureStopIds(p) {
      var k :| 0 <= k < i && ds[..i][k].stopId == x;
      assert p[k] == ds[..i][k];
    }
    assert p[i] == ds[i];
  }

  /** The loop of app.js:218-220 that builds `target`. */
  method RunStopIds(departures: seq<Departure>) returns (target: set<int>)
    ensures target == DepartureStopIds(departures)
  {
    target := {};
    for m := 0 to |departures|
      invariant target == DepartureStopIds(departures[..m])
    {
      DepartureStopIdsStep(departures, m);
      target := target + {departures[m].stopId};
    }
    assert departures[..|departures|] == departures;
  }

  /** How many stops of `s` have their id in `t`; duplicates count twice. */
  function CountIn(s: seq<Stop>, t: set<int>): nat {
    if s == [] then 0
    else CountIn(s[..|s| - 1], t) + (if s[|s| - 1].stopId in t then 1 else 0)
  }

  /** `valid` after the loop of app.js:223-227; a for-in loop over an
      undefined stop list runs no iteration. */
  function ValidCount(routeIdStops: Option<seq<Stop>>, t: set<int>): nat {
    match routeIdStops
    case None => 0
    case Some(s) => CountIn(s, t)
  }

  /** The loop of app.js:223-227 that counts `valid`. */
  method CountRouteStopsIn(routeIdStops: Option<seq<Stop>>, target: set<int>) returns (valid: nat)
    ensures valid == ValidCount(routeIdStops, target)
  {
    valid := 0;
    if routeIdStops.Some? {
      var s := routeIdStops.value;
      for m := 0 to |s|
        invariant valid == CountIn(s[..m], target)
      {
        assert s[..m + 1][..m] == s[..m];
        if s[m].stopId in target {
          valid := valid + 1;
        }
      }
      assert s[..|s|] == s;
    }
  }

  lemma SubsetCardinality(a: set<int>, b: set<int>)
    requires a <= b
    ensures |a| <= |b|
    ensures |a| == |b| ==> a == b
  {
    assert a * b == a;
    assert a + b == b;
    if |a| == |b| {
      assert |b - a| == 0;
      assert b - a == {};
    }
  }

  /** On a list with distinct ids, the count is the size of the common ids. */
  lemma {:induction false} CountInDistinct(s: seq<Stop>, t: set<int>)
    requires DistinctStopIds(s)
    ensures CountIn(s, t) == |StopIdSet(s) * t|
  {
    if s != [] {
      var i := |s| - 1;
      var p := s[..i];
      assert s[..i + 1] == s;
      assert DistinctStopIds(p) by {
        forall a, b | 0 <= a < b < |p| ensures p[a].stopId != p[b].stopId {
          assert p[a] == s[a] && p[b] == s[b];
        }
      }
      CountInDistinct(p, t);
      StopIdSetStep(s, i);
      var x := s[i].stopId;
      assert forall k :: 0 <= k < |p| ==> p[k].stopId != x;
      assert x !in StopIdSet(p);
      if x in t {
        assert StopIdSet(s) * t == (StopIdSet(p) * t) + {x};
      } else {
        assert StopIdSet(s) * t == StopIdSet(p) * t;
      }
    }
  }

  /** On a stop list with distinct ids, `valid === target.size` holds
      exactly when every stop of the run lies on the list. */
  lemma ValidIffSubset(s: seq<Stop>, t: set<int>)
    requires DistinctStopIds(s)
    ensures CountIn(s, t) == |t| <==> t <= StopIdSet(s)
  {
    CountInDistinct(s, t);
    SubsetCardinality(StopIdSet(s) * t, t);
    if t <= StopIdSet(s) {
      assert StopIdSet(s) * t == t;
    }
  }

  /** The test of app.js:230. */
  predicate Passes(e: Departures.RunEntry, routeIdStops: Option<seq<Stop>>) {
    ValidCount(routeIdStops, DepartureStopIds(e.departures)) == |DepartureStopIds(e.departures)|
  }

  /** Without a stop list for the route no run with a departure passes:
      `valid` stays 0 while `target` holds the first departure's stop. */
  lemma NoRouteStopsNoRuns(e: Departures.RunEntry)
    requires e.departures != []
    ensures !Passes(e, None)
  {
    assert e.departures[0].stopId in DepartureStopIds(e.departures);
  }

  // ---------------------------------------------------------------------
  // The runs that pass

  /** The entries of one route that pass, in entry order. */
  function RouteCandidates(entries: seq<Departures.RunEntry>, routeIdStops: Option<seq<Stop>>): seq<Candidate> {
    if entries == [] then []
    else
      var p, e := entries[..|entries| - 1], entries[|entries| - 1];
      RouteCandidates(p, routeIdStops)
      + (if Passes(e, routeIdStops) then [Candidate(e.departures, OrEmpty(routeIdStops))] else [])
  }

  /** The entries `getDeparturesForRuns` produces for one route. */
  function EntriesOf(rd: RouteDepartures): seq<Departures.RunEntry> {
    Departures.GroupByRun(Departures.Dedup(Departures.RunIdsOf(rd.departures)), rd.departures)
  }

  /** The runs of one route that pass. */
  function RouteDeparturesCandidates(rd: RouteDepartures, stops: seq<Topology.RouteStopList>, repetition: bool): seq<Candidate> {
    RouteCandidates(EntriesOf(rd), RouteStopsFor(stops, rd.routeId, repetition))
  }

  /** The runs of all routes that pass, route by route. */
  function AllCandidates(rds: seq<RouteDepartures>, stops: seq<Topology.RouteStopList>, repetition: bool): seq<Candidate> {
    if rds == [] then []
    else
      var p, rd := rds[..|rds| - 1], rds[|rds| - 1];
      AllCandidates(p, stops, repetition) + RouteDeparturesCandidates(rd, stops, repetition)
  }

  /** Every run that passes has a departure, departs only from stops of its
      route's list when that list has distinct ids, and was checked against
      a list stored for its route. */
  lemma {:induction false} RouteCandidatesQualify(entries: seq<Departures.RunEntry>, routeIdStops: Option<seq<Stop>>, k: nat)
    requires forall i :: 0 <= i < |entries| ==> entries[i].departures != []
    requires k < |RouteCandidates(entries, routeIdStops)|
    ensures var c := RouteCandidates(entries, routeIdStops)[k];
      && c.departures != []
      && routeIdStops == Some(c.routeStops)
      && CountIn(c.routeStops, DepartureStopIds(c.departures)) == |DepartureStopIds(c.departures)|
      && exists i :: 0 <= i < |entries| && entries[i].departures == c.departures
  {
    var p, e := entries[..|entries| - 1], entries[|entries| - 1];
    var pc := RouteCandidates(p, routeIdStops);
    if k < |pc| {
      RouteCandidatesQualify(p, routeIdStops, k);
      var i :| 0 <= i < |p| && p[i].departures == pc[k].departures;
      assert entries[i] == p[i];
    } else {
      if routeIdStops.None? {
        NoRouteStopsNoRuns(e);
      }
    }
  }

  lemma RouteCandidatesStep(entries: seq<Departures.RunEntry>, l: nat, routeIdStops: Option<seq<Stop>>)
    requires l < |entries|
    ensures RouteCandidates(entries[..l + 1], routeIdStops)
         == RouteCandidates(entries[..l], routeIdStops)
            + (if Passes(entries[l], routeIdStops) then [Candidate(entries[l].departures, OrEmpty(routeIdStops))] else [])
  {
    assert entries[..l + 1][..l] == entries[..l];
  }

  lemma AllCandidatesStep(rds: seq<RouteDepartures>, k: nat, stops: seq<Topology.RouteStopList>, repetition: bool)
    requires k < |rds|
    ensures AllCandidates(rds[..k + 1], stops, repetition)
         == AllCandidates(rds[..k], stops, repetition) + RouteDeparturesCandidates(rds[k], stops, repetition)
  {
    assert rds[..k + 1][..k] == rds[..k];
  }

  /** Every entry that passes becomes a candidate of its route. */
  lemma {:induction false} PassingEntryIsCandidate(entries: seq<Departures.RunEntry>, routeIdStops: Option<seq<Stop>>, i: nat)
    requires i < |entries| && Passes(entries[i], routeIdStops)
    ensures Candidate(entries[i].departures, OrEmpty(routeIdStops)) in RouteCandidates(entries, routeIdStops)
  {
    var p := entries[..|entries| - 1];
    if i < |p| {
      assert p[i] == entries[i];
      PassingEntryIsCandidate(p, routeIdStops, i);
    }
  }

  /** A route has no candidate exactly when none of its entries passes. */
  lemma {:induction false} RouteCandidatesEmpty(entries: seq<Departures.RunEntry>, routeIdStops: Option<seq<Stop>>)
    ensures RouteCandidates(entries, routeIdStops) == []
        <==> forall i :: 0 <= i < |entries| ==> !Passes(entries[i], routeIdStops)
  {
    if entries != [] {
      var p := entries[..|entries| - 1];
      RouteCandidatesEmpty(p, routeIdStops);
      if RouteCandidates(entries, routeIdStops) == [] {
        forall i | 0 <= i < |entries| ensures !Passes(entries[i], routeIdStops) {
          if Passes(entries[i], routeIdStops) {
            PassingEntryIsCandidate(entries, routeIdStops, i);
          }
        }
      }
    }
  }

  /** A candidate of any one route is a candidate of the whole list. */
  lemma RouteCandidateInAll(rds: seq<RouteDepartures>, stops: seq<Topology.RouteStopList>,
                            repetition: bool, k: nat, c: Candidate)
    requires k < |rds| && c in RouteDeparturesCandidates(rds[k], stops, repetition)
    ensures c in AllCandidates(rds, stops, repetition)
  {
    AllCandidatesStep(rds, k, stops, repetition);
    AllCandidatesPrefix(rds, k + 1, stops, repetition);
  }

  /** Every run that passes, on any route, becomes a candidate. */
  lemma PassingRunIsCandidate(rds: seq<RouteDepartures>, stops: seq<Topology.RouteStopList>,
                              repetition: bool, k: nat, i: nat)
    requires k < |rds| && i < |EntriesOf(rds[k])|
    requires Passes(EntriesOf(rds[k])[i], RouteStopsFor(stops, rds[k].routeId, repetition))
    ensures Candidate(EntriesOf(rds[k])[i].departures, OrEmpty(RouteStopsFor(stops, rds[k].routeId, repetition)))
            in AllCandidates(rds, stops, repetition)
  {
    var entries, rs := EntriesOf(rds[k]), RouteStopsFor(stops, rds[k].routeId, repetition);
    PassingEntryIsCandidate(entries, rs, i);
    RouteCandidateInAll(rds, stops, repetition, k, Candidate(entries[i].departures, OrEmpty(rs)));
  }

  /** No run of any route passes exactly when there is no candidate. */
  lemma {:induction false} AllCandidatesEmpty(rds: seq<RouteDepartures>, stops: seq<Topology.RouteStopList>, repetition: bool)
    ensures AllCandidates(rds, stops, repetition) == []
        <==> forall k, i :: 0 <= k < |rds| && 0 <= i < |EntriesOf(rds[k])| ==>
               !Passes(EntriesOf(rds[k])[i], RouteStopsFor(stops, rds[k].routeId, repetition))
  {
    if rds != [] {
      var p, rd := rds[..|rds| - 1], rds[|rds| - 1];
      AllCandidatesEmpty(p, stops, repetition);
      RouteCandidatesEmpty(EntriesOf(rd), RouteStopsFor(stops, rd.routeId, repetition));
      if AllCandidates(rds, stops, repetition) == [] {
        forall k, i | 0 <= k < |rds| && 0 <= i < |EntriesOf(rds[k])|
          ensures !Passes(EntriesOf(rds[k])[i], RouteStopsFor(stops, rds[k].routeId, repetition))
        {
          if Passes(EntriesOf(rds[k])[i], RouteStopsFor(stops, rds[k].routeId, repetition)) {
            PassingRunIsCandidate(rds, stops, repetition, k, i);
          }
        }
      }
    }
  }

  // ---------------------------------------------------------------------
  // Publishing, with the coordinates call as getCoordinatesPair declares it

  /** The run record getCoordinatesPair expects for a candidate: its
      departures, positioned at the first. */
  function RunOf(c: Candidate): Stations.Run {
    Stations.Run(c.departures, Some(0))
  }

  /** getCoordinatesPair completes for the candidate. */
  predicate LocatableCandidate(c: Candidate, stopMap: map<int, UniqueStop>) {
    c.departures != [] && Stations.Locatable(c.routeStops, stopMap, RunOf(c))
  }

  /** getCoordinatesPair completes for every candidate. */
  predicate AllLocatable(cs: seq<Candidate>, stopMap: map<int, UniqueStop>) {
    forall k :: 0 <= k < |cs| ==> LocatableCandidate(cs[k], stopMap)
  }

  /** `run` is the record published for the candidate: its departures and
      the coordinates of the stops it is between. */
  predicate PublishedAs(run: PublishedRun, c: Candidate, stopMap: map<int, UniqueStop>) {
    && run.departure == c.departures
    && c.departures != []
    && Stations.IsCoordinatesPairOf(c.routeStops, stopMap, RunOf(c), run.coordinates)
  }

  /** `runs` holds one record per candidate, in order. */
  predicate PublishesAll(runs: seq<PublishedRun>, cs: seq<Candidate>, stopMap: map<int, UniqueStop>) {
    && |runs| == |cs|
    && forall k :: 0 <= k < |cs| ==> PublishedAs(runs[k], cs[k], stopMap)
  }

  lemma AllLocatableConcat(a: seq<Candidate>, b: seq<Candidate>, stopMap: map<int, UniqueStop>)
    ensures AllLocatable(a + b, stopMap) <==> AllLocatable(a, stopMap) && AllLocatable(b, stopMap)
  {
    if AllLocatable(a, stopMap) && AllLocatable(b, stopMap) {
      forall k | 0 <= k < |a + b|
        ensures LocatableCandidate((a + b)[k], stopMap)
      {
        if k < |a| { assert (a + b)[k] == a[k]; } else { assert (a + b)[k] == b[k - |a|]; }
      }
    }
    if AllLocatable(a + b, stopMap) {
      forall k | 0 <= k < |b| ensures LocatableCandidate(b[k], stopMap) {
        assert (a + b)[|a| + k] == b[k];
      }
      forall k | 0 <= k < |a| ensures LocatableCandidate(a[k], stopMap) {
        assert (a + b)[k] == a[k];
      }
    }
  }

  lemma PublishesAllConcat(x: seq<PublishedRun>, a: seq<Candidate>, y: seq<PublishedRun>, b: seq<Candidate>,
                           stopMap: map<int, UniqueStop>)
    requires PublishesAll(x, a, stopMap) && PublishesAll(y, b, stopMap)
    ensures PublishesAll(x + y, a + b, stopMap)
  {
    forall k | 0 <= k < |a + b|
      ensures PublishedAs((x + y)[k], (a + b)[k], stopMap)
    {
      if k < |a| {
        assert (a + b)[k] == a[k] && (x + y)[k] == x[k];
      } else {
        assert (a + b)[k] == b[k - |a|] && (x + y)[k] == y[k - |a|];
      }
    }
  }

  /** What the coordinates call for one candidate contributes. */
  lemma OneCandidate(c: Candidate, stopMap: map<int, UniqueStop>, coordinates: Result<Stations.CoordinatesPair>)
    requires c.departures != []
    requires coordinates.Ok? <==> Stations.Locatable(c.routeStops, stopMap, RunOf(c))
    requires coordinates.Ok? ==> Stations.IsCoordinatesPairOf(c.routeStops, stopMap, RunOf(c), coordinates.value)
    ensures AllLocatable([c], stopMap) <==> coordinates.Ok?
    ensures coordinates.Ok? ==> PublishesAll([PublishedRun(c.departures, coordinates.value)], [c], stopMap)
  {
    assert [c][0] == c;
  }

  /** A candidate that cannot be located stays one in any extension. */
  lemma NotAllLocatableExtends(prefix: seq<Candidate>, whole: seq<Candidate>, stopMap: map<int, UniqueStop>)
    requires prefix <= whole && !AllLocatable(prefix, stopMap)
    ensures !AllLocatable(whole, stopMap)
  {
    var k :| 0 <= k < |prefix| && !LocatableCandidate(prefix[k], stopMap);
    assert whole[k] == prefix[k];
  }

  /** The inner loop of app.js:211-236 for one route, with the coordinates
      call corrected: a TypeError thrown by getCoordinatesPair ends the
      callback. */
  method FilterRoute(entries: seq<Departures.RunEntry>, routeIdStops: Option<seq<Stop>>, stopMap: map<int, UniqueStop>)
    returns (r: Result<seq<PublishedRun>>)
    requires forall i :: 0 <= i < |entries| ==> entries[i].departures != []
    ensures r.Ok? <==> AllLocatable(RouteCandidates(entries, routeIdStops), stopMap)
    ensures r.Ok? ==> PublishesAll(r.value, RouteCandidates(entries, routeIdStops), stopMap)
  {
    var runs: seq<PublishedRun> := [];
    for l := 0 to |entries|
      invariant AllLocatable(RouteCandidates(entries[..l], routeIdStops), stopMap)
      invariant PublishesAll(runs, RouteCandidates(entries[..l], routeIdStops), stopMap)
    {
      var e := entries[l];
      RouteCandidatesStep(entries, l, routeIdStops);
      var target := RunStopIds(e.departures);
      var valid := CountRouteStopsIn(routeIdStops, target);
      var before := RouteCandidates(entries[..l], routeIdStops);
      if valid == |target| {
        var c := Candidate(e.departures, OrEmpty(routeIdStops));
        var coordinates := Stations.GetCoordinatesPair(c.routeStops, stopMap, RunOf(c));
        OneCandidate(c, stopMap, coordinates);
        AllLocatableConcat(before, [c], stopMap);
        if coordinates.TypeError? {
          RouteCandidatesPrefix(entries, l + 1, routeIdStops);
          NotAllLocatableExtends(RouteCandidates(entries[..l + 1], routeIdStops),
                                 RouteCandidates(entries, routeIdStops), stopMap);
          return TypeError;
        }
        PublishesAllConcat(runs, before, [PublishedRun(e.departures, coordinates.value)], [c], stopMap);
        runs := runs + [PublishedRun(e.departures, coordinates.value)];
      } else {
        assert RouteCandidates(entries[..l + 1], routeIdStops) == before + [];
        assert before + [] == before;
      }
    }
    assert entries[..|entries|] == entries;
    return Ok(runs);
  }

  /** The candidates of the first `l` entries come first among all. */
  lemma RouteCandidatesPrefix(entries: seq<Departures.RunEntry>, l: nat, routeIdStops: Option<seq<Stop>>)
    requires l <= |entries|
    ensures RouteCandidates(entries[..l], routeIdStops) <= RouteCandidates(entries, routeIdStops)
    decreases |entries| - l
  {
    if l < |entries| {
      RouteCandidatesStep(entries, l, routeIdStops);
      RouteCandidatesPrefix(entries, l + 1, routeIdStops);
    } else {
      assert entries[..l] == entries;
    }
  }

  /** The candidates of the first `k` routes come first among all. */
  lemma AllCandidatesPrefix(rds: seq<RouteDepartures>, k: nat, stops: seq<Topology.RouteStopList>, repetition: bool)
    requires k <= |rds|
    ensures AllCandidates(rds[..k], stops, repetition) <= AllCandidates(rds, stops, repetition)
    decreases |rds| - k
  {
    if k < |rds| {
      AllCandidatesStep(rds, k, stops, repetition);
      AllCandidatesPrefix(rds, k + 1, stops, repetition);
    } else {
      assert rds[..k] == rds;
    }
  }

  /** One iteration of the loop of app.js:196-237, with the coordinates
      call corrected: the route's departures are grouped by run, its stop
      list is looked up and its runs are filtered. */
  method RouteRuns(rd: RouteDepartures, stops: seq<Topology.RouteStopList>, repetition: bool,
                   stopMap: map<int, UniqueStop>)
    returns (r: Result<seq<PublishedRun>>)
    ensures r.Ok? <==> AllLocatable(RouteDeparturesCandidates(rd, stops, repetition), stopMap)
    ensures r.Ok? ==> PublishesAll(r.value, RouteDeparturesCandidates(rd, stops, repetition), stopMap)
  {
    var uniqueRunIds := Departures.GetUniqueRuns(rd.departures);
    var filteredRuns := Departures.GetDeparturesForRuns(uniqueRunIds, rd.departures);
    var routeIdStops := FindRouteStops(stops, rd.routeId, repetition);
    r := FilterRoute(filteredRuns, routeIdStops, stopMap);
  }

  /** The body of the `.then` callback of `getDeparturesForStops` up to
      `app.locals.data` (app.js:196-240), with the coordinates call
      corrected: it yields `runs` when getCoordinatesPair completes for every
      run that passes, and the TypeError that ends the callback otherwise. */
  method CollectRuns(routeDepartures: seq<RouteDepartures>, stops: seq<Topology.RouteStopList>,
                     uniqueStops: seq<UniqueStop>, repetition: bool)
    returns (r: Result<seq<PublishedRun>>)
    ensures r.Ok? <==> AllLocatable(AllCandidates(routeDepartures, stops, repetition), Topology.StopMap(uniqueStops))
    ensures r.Ok? ==> PublishesAll(r.value, AllCandidates(routeDepartures, stops, repetition), Topology.StopMap(uniqueStops))
  {
    var stopMap := Topology.StopMap(uniqueStops);
    var runs: seq<PublishedRun> := [];
    for k := 0 to |routeDepartures|
      invariant AllLocatable(AllCandidates(routeDepartures[..k], stops, repetition), stopMap)
      invariant PublishesAll(runs, AllCandidates(routeDepartures[..k], stops, repetition), stopMap)
    {
      var routeRuns := RouteRuns(routeDepartures[k], stops, repetition, stopMap);
      AllCandidatesStep(routeDepartures, k, stops, repetition);
      var before := AllCandidates(routeDepartures[..k], stops, repetition);
      var these := RouteDeparturesCandidates(routeDepartures[k], stops, repetition);
      AllLocatableConcat(before, these, stopMap);
      if routeRuns.TypeError? {
        AllCandidatesPrefix(routeDepartures, k + 1, stops, repetition);
        NotAllLocatableExtends(before + these, AllCandidates(routeDepartures, stops, repetition), stopMap);
        return TypeError;
      }
      PublishesAllConcat(runs, before, routeRuns.value, these, stopMap);
      runs := runs + routeRuns.value;
    }
    assert routeDepartures[..|routeDepartures|] == routeDepartures;
    return Ok(runs);
  }

  // ---------------------------------------------------------------------
  // Publishing as app.js:233 writes the call

  /** The inner loop of app.js:211-236 for one route as written: the first
      run that passes ends the callback with a TypeError. */
  method FilterRouteAsWritten(entries: seq<Departures.RunEntry>, routeIdStops: Option<seq<Stop>>)
    returns (r: Result<seq<PublishedRun>>)
    requires forall i :: 0 <= i < |entries| ==> entries[i].departures != []
    ensures r == if RouteCandidates(entries, routeIdStops) == [] then Ok([]) else TypeError
  {
    for l := 0 to |entries|
      invariant RouteCandidates(entries[..l], routeIdStops) == []
    {
      var e := entries[l];
      RouteCandidatesStep(entries, l, routeIdStops);
      var target := RunStopIds(e.departures);
      var valid := CountRouteStopsIn(routeIdStops, target);
      if valid == |target| {
        // app.js:233 passes `filteredRuns[l].direction_id` where
        // getCoordinatesPair expects the run. The entries getDeparturesForRuns
        // builds hold only `run_id` and `departures`, so that argument is
        // undefined, and reading `run.departures` at stations.js:5 throws.
        RouteCandidatesPrefix(entries, l + 1, routeIdStops);
        assert |RouteCandidates(entries[..l + 1], routeIdStops)| == 1;
        return TypeError;
      }
    }
    assert entries[..|entries|] == entries;
    return Ok([]);
  }

  /** One iteration of the loop of app.js:196-237 as written. */
  method RouteRunsAsWritten(rd: RouteDepartures, stops: seq<Topology.RouteStopList>, repetition: bool)
    returns (r: Result<seq<PublishedRun>>)
    ensures r == if RouteDeparturesCandidates(rd, stops, repetition) == [] then Ok([]) else TypeError
  {
    var uniqueRunIds := Departures.GetUniqueRuns(rd.departures);
    var filteredRuns := Departures.GetDeparturesForRuns(uniqueRunIds, rd.departures);
    var routeIdStops := FindRouteStops(stops, rd.routeId, repetition);
    r := FilterRouteAsWritten(filteredRuns, routeIdStops);
  }

  /** `runs` as app.js:196-240 computes it: empty when no run passes, and a
      TypeError, which leaves `app.locals.data` and `repetitionReady`
      unassigned, as soon as one does. */
  method CollectRunsAsWritten(routeDepartures: seq<RouteDepartures>, stops: seq<Topology.RouteStopList>, repetition: bool)
    returns (r: Result<seq<PublishedRun>>)
    ensures r.Ok? <==> AllCandidates(routeDepartures, stops, repetition) == []
    ensures r.Ok? ==> r.value == []
  {
    for k := 0 to |routeDepartures|
      invariant AllCandidates(routeDepartures[..k], stops, repetition) == []
    {
      var routeRuns := RouteRunsAsWritten(routeDepartures[k], stops, repetition);
      AllCandidatesStep(routeDepartures, k, stops, repetition);
      if routeRuns.TypeError? {
        AllCandidatesPrefix(routeDepartures, k + 1, stops, repetition);
        return TypeError;
      }
      assert AllCandidates(routeDepartures[..k + 1], stops, repetition) == [] + [];
    }
    assert routeDepartures[..|routeDepartures|] == routeDepartures;
    return Ok([]);
  }

  // ---------------------------------------------------------------------
  // When the corrected call completes

  /** Every stop list stored for a route has distinct ids, all of them
      recorded among the unique stops. */
  predicate ConsistentTopology(stops: seq<Topology.RouteStopList>, uniqueStops: seq<UniqueStop>) {
    forall l :: 0 <= l < |stops| ==>
      DistinctStopIds(stops[l].routeStops) && StopIdSet(stops[l].routeStops) <= Topology.UniqueIds(uniqueStops)
  }

  /** The entries getDeparturesForRuns produces all have a departure. */
  lemma EntriesNonEmpty(rd: RouteDepartures)
    ensures forall i :: 0 <= i < |EntriesOf(rd)| ==> EntriesOf(rd)[i].departures != []
  {
    var ids := Departures.Dedup(Departures.RunIdsOf(rd.departures));
    forall i | 0 <= i < |EntriesOf(rd)| ensures EntriesOf(rd)[i].departures != [] {
      Departures.RunEntryProperties(ids, rd.departures, i);
    }
  }

  /** A passing run has a departure, every stop it departs from is counted
      on its stop list, and that list is one of the stored ones. */
  predicate Qualifies(c: Candidate, stops: seq<Topology.RouteStopList>) {
    && c.departures != []
    && CountIn(c.routeStops, DepartureStopIds(c.departures)) == |DepartureStopIds(c.departures)|
    && exists l :: 0 <= l < |stops| && stops[l].routeStops == c.routeStops
  }

  /** The runs of one route that pass qualify. */
  lemma RouteDeparturesCandidatesQualify(rd: RouteDepartures, stops: seq<Topology.RouteStopList>, repetition: bool, k: nat)
    requires k < |RouteDeparturesCandidates(rd, stops, repetition)|
    ensures Qualifies(RouteDeparturesCandidates(rd, stops, repetition)[k], stops)
  {
    EntriesNonEmpty(rd);
    var rs := RouteStopsFor(stops, rd.routeId, repetition);
    RouteCandidatesQualify(EntriesOf(rd), rs, k);
    RouteStopsForStored(stops, rd.routeId, repetition);
  }

  predicate AllQualify(cs: seq<Candidate>, stops: seq<Topology.RouteStopList>) {
    forall k :: 0 <= k < |cs| ==> Qualifies(cs[k], stops)
  }

  lemma AllQualifyConcat(a: seq<Candidate>, b: seq<Candidate>, stops: seq<Topology.RouteStopList>)
    requires AllQualify(a, stops) && AllQualify(b, stops)
    ensures AllQualify(a + b, stops)
  {
    forall k | 0 <= k < |a + b| ensures Qualifies((a + b)[k], stops) {
      if k < |a| { assert (a + b)[k] == a[k]; } else { assert (a + b)[k] == b[k - |a|]; }
    }
  }

  lemma {:induction false} AllCandidatesQualify(rds: seq<RouteDepartures>, stops: seq<Topology.RouteStopList>,
                                               repetition: bool)
    ensures AllQualify(AllCandidates(rds, stops, repetition), stops)
  {
    if rds != [] {
      var p, rd := rds[..|rds| - 1], rds[|rds| - 1];
      AllCandidatesQualify(p, stops, repetition);
      var these := RouteDeparturesCandidates(rd, stops, repetition);
      forall k | 0 <= k < |these| ensures Qualifies(these[k], stops) {
        RouteDeparturesCandidatesQualify(rd, stops, repetition, k);
      }
      AllQualifyConcat(AllCandidates(p, stops, repetition), these, stops);
    }
  }

  /** With a consistent topology the corrected call completes for every run
      that passes, so `runs` is published. */
  lemma ConsistentTopologyLocatesAll(rds: seq<RouteDepartures>, stops: seq<Topology.RouteStopList>,
                                     uniqueStops: seq<UniqueStop>, repetition: bool)
    requires ConsistentTopology(stops, uniqueStops)
    ensures AllLocatable(AllCandidates(rds, stops, repetition), Topology.StopMap(uniqueStops))
  {
    var cs := AllCandidates(rds, stops, repetition);
    var stopMap := Topology.StopMap(uniqueStops);
    AllCandidatesQualify(rds, stops, repetition);
    forall k | 0 <= k < |cs|
      ensures LocatableCandidate(cs[k], stopMap)
    {
      var c := cs[k];
      assert Qualifies(c, stops);
      var l :| 0 <= l < |stops| && stops[l].routeStops == c.routeStops;
      ValidIffSubset(c.routeStops, DepartureStopIds(c.departures));
      assert c.departures[0].stopId in DepartureStopIds(c.departures);
      Stations.LocatableWhenOnRoute(c.routeStops, stopMap, RunOf(c));
    }
  }
}
