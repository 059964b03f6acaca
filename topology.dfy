/** The route topology app.js builds before any departure is fetched
    (`getStopsForRoute`, app.js:127-169): per route, its stop list with the
    decommissioned stop removed, and across routes, one record per distinct
    stop id with the set of ids seen. */
module Topology {
  import opened Common
  import PtvApi

  /** Flemington Racecourse, the stop app.js treats as unused (app.js:26). */
  const FlemingtonRc: int := 1070

  /** One element of the `stops` collection: a route and its stop list. */
  datatype RouteStopList = RouteStopList(routeId: int, routeStops: seq<Stop>)

  function ToUniqueStop(s: Stop): UniqueStop {
    UniqueStop(s.stopId, s.stopName, s.latitude, s.longitude)
  }

  function UniqueIds(u: seq<UniqueStop>): set<int> {
    set i | 0 <= i < |u| :: u[i].stopId
  }

  predicate DistinctUniqueIds(u: seq<UniqueStop>) {
    forall i, j :: 0 <= i < j < |u| ==> u[i].stopId != u[j].stopId
  }

  // ---------------------------------------------------------------------
  // The distinct-stop list

  /** The records the dedup loop appends for `s` when the ids in `known`
      have been seen already: one per id new to `known`, built from the
      first stop of `s` with that id, in the order of those first stops. */
  function NewStops(known: set<int>, s: seq<Stop>): seq<UniqueStop> {
    if s == [] then []
    else
      var p := s[..|s| - 1];
      var last := s[|s| - 1];
      NewStops(known, p) + (if last.stopId in known + StopIdSet(p) then [] else [ToUniqueStop(last)])
  }

  lemma NewStopsStep(known: set<int>, s: seq<Stop>, i: nat)
    requires i < |s|
    ensures NewStops(known, s[..i + 1])
         == NewStops(known, s[..i])
            + (if s[i].stopId in known + StopIdSet(s[..i]) then [] else [ToUniqueStop(s[i])])
  {
    assert s[..i + 1][..i] == s[..i];
  }

  /** What one iteration of the dedup loop does to the ids seen and to the
      records kept so far. */
  lemma DedupStep(known: set<int>, s: seq<Stop>, i: nat, ids: set<int>, u0: seq<UniqueStop>, u: seq<UniqueStop>)
    requires i < |s| && ids == known + StopIdSet(s[..i])
    requires u == u0 + NewStops(known, s[..i])
    ensures ids + {s[i].stopId} == known + StopIdSet(s[..i + 1])
    ensures (if s[i].stopId in ids then u else u + [ToUniqueStop(s[i])]) == u0 + NewStops(known, s[..i + 1])
  {
    StopIdSetStep(s, i);
    NewStopsStep(known, s, i);
    var n := NewStops(known, s[..i]);
    if s[i].stopId in ids {
      assert n + [] == n;
    } else {
      assert (u0 + n) + [ToUniqueStop(s[i])] == u0 + (n + [ToUniqueStop(s[i])]);
    }
  }

  lemma UniqueIdsConcat(a: seq<UniqueStop>, b: seq<UniqueStop>)
    ensures UniqueIds(a + b) == UniqueIds(a) + UniqueIds(b)
  {
    var r := a + b;
    forall x | x in UniqueIds(r) ensures x in UniqueIds(a) + UniqueIds(b) {
      var k :| 0 <= k < |r| && r[k].stopId == x;
      if k < |a| { assert r[k] == a[k]; } else { assert r[k] == b[k - |a|]; }
    }
    forall x | x in UniqueIds(a) + UniqueIds(b) ensures x in UniqueIds(r) {
      if x in UniqueIds(a) {
        var k :| 0 <= k < |a| && a[k].stopId == x;
        assert r[k] == a[k];
      } else {
        var k :| 0 <= k < |b| && b[k].stopId == x;
        assert r[|a| + k] == b[k];
      }
    }
  }

  /** The appended records carry exactly the ids of `s` not yet known, each
      once. */
  lemma {:induction false} NewStopsIds(known: set<int>, s: seq<Stop>)
    ensures UniqueIds(NewStops(known, s)) == StopIdSet(s) - known
    ensures DistinctUniqueIds(NewStops(known, s))
  {
    if s != [] {
      var i := |s| - 1;
      var p := s[..i];
      assert s[..i + 1] == s;
      NewStopsIds(known, p);
      StopIdSetStep(s, i);
      var n := NewStops(known, p);
      var x := ToUniqueStop(s[i]);
      if s[i].stopId !in known + StopIdSet(p) {
        var r := n + [x];
        assert r == NewStops(known, s);
        UniqueIdsConcat(n, [x]);
        assert UniqueIds([x]) == {s[i].stopId} by { assert [x][0] == x; }
        forall a, b | 0 <= a < b < |r| ensures r[a].stopId != r[b].stopId {
          assert r[a] == n[a];
          if b == |n| {
            assert n[a].stopId in UniqueIds(n);
          } else {
            assert r[b] == n[b];
          }
        }
      } else {
        assert NewStops(known, s) == n + [];
        assert n + [] == n;
      }
    }
  }

  /** Each appended record is built from the first stop of `s` with its id. */
  lemma {:induction false} NewStopsFromFirstOccurrence(known: set<int>, s: seq<Stop>, k: nat)
    requires k < |NewStops(known, s)|
    ensures exists j :: 0 <= j < |s| && NewStops(known, s)[k] == ToUniqueStop(s[j])
                        && s[j].stopId !in known
                        && forall j' :: 0 <= j' < j ==> s[j'].stopId != s[j].stopId
  {
    var i := |s| - 1;
    var p := s[..i];
    var n := NewStops(known, p);
    var tail := if s[i].stopId in known + StopIdSet(p) then [] else [ToUniqueStop(s[i])];
    assert NewStops(known, s) == n + tail;
    if k < |n| {
      NewStopsFromFirstOccurrence(known, p, k);
      var j :| 0 <= j < |p| && n[k] == ToUniqueStop(p[j]) && p[j].stopId !in known
               && forall j' :: 0 <= j' < j ==> p[j'].stopId != p[j].stopId;
      assert s[j] == p[j];
      assert forall j' :: 0 <= j' < j ==> s[j'] == p[j'];
      assert NewStops(known, s)[k] == ToUniqueStop(s[j]);
    } else {
      assert NewStops(known, s)[k] == ToUniqueStop(s[i]);
      assert s[i].stopId !in StopIdSet(p);
      forall j' | 0 <= j' < i ensures s[j'].stopId != s[i].stopId {
        assert p[j'] == s[j'];
        assert p[j'].stopId in StopIdSet(p);
      }
    }
  }

  /** Appending the new records to a distinct list whose ids are `known`
      keeps it distinct, and its ids become `known` plus the route's. */
  lemma AppendNewStops(u: seq<UniqueStop>, known: set<int>, s: seq<Stop>)
    requires DistinctUniqueIds(u) && UniqueIds(u) == known
    ensures DistinctUniqueIds(u + NewStops(known, s))
    ensures UniqueIds(u + NewStops(known, s)) == known + StopIdSet(s)
  {
    var n := NewStops(known, s);
    var r := u + n;
    NewStopsIds(known, s);
    UniqueIdsConcat(u, n);
    forall a, b | 0 <= a < b < |r| ensures r[a].stopId != r[b].stopId {
      if b < |u| {
        assert r[a] == u[a] && r[b] == u[b];
      } else if a < |u| {
        assert r[a] == u[a] && r[b] == n[b - |u|];
        assert u[a].stopId in known;
        assert n[b - |u|].stopId in UniqueIds(n);
      } else {
        assert r[a] == n[a - |u|] && r[b] == n[b - |u|];
      }
    }
  }

  // ---------------------------------------------------------------------
  // Removal of the decommissioned stop

  /** The route's stop list after `routeStops.splice(index, 1)`: `index` is
      the for-in key of the LAST stop with id 1070, and the key "0" is a
      non-empty string, hence truthy, so position 0 is removed too. */
  function RemoveDecommissioned(s: seq<Stop>): (r: seq<Stop>)
    ensures |r| == if FlemingtonRc in StopIdSet(s) then |s| - 1 else |s|
    ensures FlemingtonRc !in StopIdSet(s) ==> r == s
    ensures StopIdSet(s) - {FlemingtonRc} <= StopIdSet(r) <= StopIdSet(s)
  {
    match LastMatch(s, FlemingtonRc)
    case None => s
    case Some(i) =>
      var r := s[..i] + s[i + 1..];
      assert FlemingtonRc in StopIdSet(s) by { assert s[i].stopId == FlemingtonRc; }
      forall x | x in StopIdSet(s) - {FlemingtonRc} ensures x in StopIdSet(r) {
        var k :| 0 <= k < |s| && s[k].stopId == x;
        if k < i { assert r[k] == s[k]; } else { assert r[k - 1] == s[k]; }
      }
      forall x | x in StopIdSet(r) ensures x in StopIdSet(s) {
        var k :| 0 <= k < |r| && r[k].stopId == x;
        if k < i { assert r[k] == s[k]; } else { assert r[k] == s[k + 1]; }
      }
      r
  }

  /** Exactly one stop goes, the last one with id 1070 (position 0
      included); the stops before and after it keep their order. */
  lemma RemovesLastDecommissioned(s: seq<Stop>, i: nat)
    requires i < |s| && s[i].stopId == FlemingtonRc
    requires forall j :: i < j < |s| ==> s[j].stopId != FlemingtonRc
    ensures RemoveDecommissioned(s) == s[..i] + s[i + 1..]
    ensures multiset(RemoveDecommissioned(s)) + multiset{s[i]} == multiset(s)
  {
    LastMatchAt(s, i);
    var r := s[..i] + s[i + 1..];
    assert RemoveDecommissioned(s) == r;
    calc {
      multiset(s);
      { assert s == s[..i] + [s[i]] + s[i + 1..]; }
      multiset(s[..i]) + multiset{s[i]} + multiset(s[i + 1..]);
      multiset(r) + multiset{s[i]};
    }
  }

  lemma LastMatchAt(s: seq<Stop>, i: nat)
    requires i < |s| && s[i].stopId == FlemingtonRc
    requires forall j :: i < j < |s| ==> s[j].stopId != FlemingtonRc
    ensures LastMatch(s, FlemingtonRc) == Some(i)
  {
  }

  /** When the list holds 1070 once, it holds it no more afterwards. */
  lemma RemovesOnlyDecommissioned(s: seq<Stop>, i: nat)
    requires i < |s| && s[i].stopId == FlemingtonRc
    requires forall j :: 0 <= j < |s| && j != i ==> s[j].stopId != FlemingtonRc
    ensures FlemingtonRc !in StopIdSet(RemoveDecommissioned(s))
    ensures StopIdSet(RemoveDecommissioned(s)) == StopIdSet(s) - {FlemingtonRc}
  {
    RemovesLastDecommissioned(s, i);
    var r := RemoveDecommissioned(s);
    forall k | 0 <= k < |r| ensures r[k].stopId != FlemingtonRc {
      if k < i { assert r[k] == s[k]; } else { assert r[k] == s[k + 1]; }
    }
  }

  // ---------------------------------------------------------------------
  // Lookup by stop id

  /** `uniqueStops` as a lookup from stop id to record, the shape
      `getCoordinatesPair` reads with `get`. */
  function StopMap(u: seq<UniqueStop>): (m: map<int, UniqueStop>)
    ensures m.Keys == UniqueIds(u)
  {
    if u == [] then map[]
    else
      var p := u[..|u| - 1];
      var last := u[|u| - 1];
      var m := StopMap(p)[last.stopId := last];
      assert UniqueIds(u) == UniqueIds(p) + {last.stopId} by {
        forall x | x in UniqueIds(u) ensures x in UniqueIds(p) + {last.stopId} {
          var k :| 0 <= k < |u| && u[k].stopId == x;
          if k < |u| - 1 { assert p[k] == u[k]; }
        }
        forall x | x in UniqueIds(p) ensures x in UniqueIds(u) {
          var k :| 0 <= k < |p| && p[k].stopId == x;
          assert u[k] == p[k];
        }
      }
      m
  }

  /** With distinct ids, each record is what the lookup gives for its id. */
  lemma {:induction false} StopMapAt(u: seq<UniqueStop>, k: nat)
    requires DistinctUniqueIds(u) && k < |u|
    ensures StopMap(u)[u[k].stopId] == u[k]
  {
    var p := u[..|u| - 1];
    if k < |u| - 1 {
      assert p[k] == u[k];
      StopMapAt(p, k);
      assert u[k].stopId != u[|u| - 1].stopId;
    }
  }

  // ---------------------------------------------------------------------
  // The request for a route's stops

  /** The `getStops` request as app.js:128 issues it: the route id is passed
      where `getStops` expects the route type, and the route type where it
      expects the route id. */
  function StopsRequestAsWritten(routeType: int, routeId: int, devId: string): string {
    PtvApi.StopsPath(routeId, routeType, devId)
  }

  /** The request names the route type as the route and the route as the
      route type, so for a route other than 0 or 1 it asks for another
      route's stops. */
  lemma StopsRequestAsWrittenSwapsIds(routeType: int, routeId: int, devId: string)
    ensures PtvApi.ParseStopsPath(StopsRequestAsWritten(routeType, routeId, devId))
         == Some(PtvApi.StopsRequest(routeType, routeId, PtvApi.StopsQuery + devId))
    ensures routeId != routeType ==>
              PtvApi.ParseStopsPath(StopsRequestAsWritten(routeType, routeId, devId)).value.routeId != routeId
  {
    PtvApi.StopsPathRoundTrip(routeId, routeType, devId);
  }

  /** The request with the arguments in `getStops`'s order. */
  function StopsRequest(routeType: int, routeId: int, devId: string): string {
    PtvApi.StopsPath(routeType, routeId, devId)
  }

  /** It asks for the stops of exactly the route and route type given. */
  lemma StopsRequestNamesRoute(routeType: int, routeId: int, devId: string)
    ensures PtvApi.ParseStopsPath(StopsRequest(routeType, routeId, devId))
         == Some(PtvApi.StopsRequest(routeId, routeType, PtvApi.StopsQuery + devId))
  {
    PtvApi.StopsPathRoundTrip(routeType, routeId, devId);
  }

  // ---------------------------------------------------------------------
  // The collections getStopsForRoute fills

  /** `stops`, `uniqueStops` and `stopIDs` as `initiate` creates them and
      each `getStopsForRoute` callback extends them. */
  class TopologyStore {
    var stops: seq<RouteStopList>
    var uniqueStops: seq<UniqueStop>
    var stopIds: set<int>

    /** The records have distinct ids, their ids are exactly `stopIds`, and
        every stop of every stored route is known. */
    predicate Valid()
      reads this
    {
      && DistinctUniqueIds(uniqueStops)
      && UniqueIds(uniqueStops) == stopIds
      && forall r :: 0 <= r < |stops| ==> StopIdSet(stops[r].routeStops) <= stopIds
    }

    constructor ()
      ensures Valid()
      ensures stops == [] && uniqueStops == [] && stopIds == {}
    {
      stops := [];
      uniqueStops := [];
      stopIds := {};
    }

    /** One iteration of the dedup loop (app.js:133-149): a stop whose id
        is new is recorded, with its id. */
    method RecordStop(stop: Stop)
      requires Valid()
      modifies this
      ensures Valid()
      ensures stopIds == old(stopIds) + {stop.stopId}
      ensures uniqueStops == if stop.stopId in old(stopIds) then old(uniqueStops)
                             else old(uniqueStops) + [ToUniqueStop(stop)]
      ensures stops == old(stops)
    {
      if stop.stopId !in stopIds {
        var u := uniqueStops + [ToUniqueStop(stop)];
        UniqueIdsConcat(uniqueStops, [ToUniqueStop(stop)]);
        assert [ToUniqueStop(stop)][0].stopId == stop.stopId;
        assert UniqueIds([ToUniqueStop(stop)]) == {stop.stopId};
        forall i | 0 <= i < |uniqueStops| ensures u[i].stopId != u[|uniqueStops|].stopId {
          assert u[i].stopId in UniqueIds(uniqueStops);
        }
        stopIds := stopIds + {stop.stopId};
        uniqueStops := uniqueStops + [ToUniqueStop(stop)];
      }
    }

    /** The callback of `getStops` for route `routeId` (app.js:129-161):
        records the stops not seen before, removes the decommissioned stop
        from the route's list and stores that list. */
    method AddRouteStops(routeId: int, routeStops: seq<Stop>)
      requires Valid()
      modifies this
      ensures Valid()
      ensures stopIds == old(stopIds) + StopIdSet(routeStops)
      ensures uniqueStops == old(uniqueStops) + NewStops(old(stopIds), routeStops)
      ensures stops == old(stops) + [RouteStopList(routeId, RemoveDecommissioned(routeStops))]
    {
      var index: Option<nat> := None;
      ghost var u0, known := uniqueStops, stopIds;
      for i := 0 to |routeStops|
        invariant index == LastMatch(routeStops[..i], FlemingtonRc)
        invariant stopIds == known + StopIdSet(routeStops[..i])
        invariant uniqueStops == u0 + NewStops(known, routeStops[..i])
        invariant stops == old(stops)
        invariant Valid()
      {
        LastMatchStep(routeStops, i, FlemingtonRc);
        DedupStep(known, routeStops, i, stopIds, u0, uniqueStops);
        if routeStops[i].stopId == FlemingtonRc {
          index := Some(i);
        }
        RecordStop(routeStops[i]);
      }
      assert routeStops[..|routeStops|] == routeStops;
      AppendNewStops(u0, known, routeStops);

      var cleaned := routeStops;
      if index.Some? {
        cleaned := routeStops[..index.value] + routeStops[index.value + 1..];
      }
      assert cleaned == RemoveDecommissioned(routeStops);
      stops := stops + [RouteStopList(routeId, cleaned)];
    }
  }
}
