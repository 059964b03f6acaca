/** The stops a run is between, and their coordinates (modules/stations.js). */
module Stations {
  import opened Common

  /** A run as `getNextPrevStopID` reads it: its departures and the index
      of the current one, which a record may lack (`undefined`). */
  datatype Run = Run(departures: seq<Departure>, currentDeparture: Option<int>)

  datatype StopIds = StopIds(prevStopId: Option<int>, nextStopId: Option<int>)

  /** The object `getCoordinatesPair` returns. */
  datatype CoordinatesPair = CoordinatesPair(
    previousStopCoordinates: Option<Coordinate>,
    nextStopCoordinates: Coordinate,
    prevStopId: Option<int>,
    nextStopId: int,
    directionId: int)

  function CoordinateOf(s: UniqueStop): Coordinate {
    Coordinate(s.latitude, s.longitude)
  }

  /** JavaScript truthiness of a stop id that may be undefined: stop id 0
      is falsy too. */
  predicate Truthy(id: Option<int>) {
    id.Some? && id.value != 0
  }

  // ---------------------------------------------------------------------
  // getNextPrevStopID

  /** `run.departures[run.currentDeparture]` is a departure: the index is
      defined and in range. Otherwise the element is `undefined` and reading
      its `direction_id` throws. */
  predicate HasCurrent(run: Run) {
    run.currentDeparture.Some? && 0 <= run.currentDeparture.value < |run.departures|
  }

  /** The route's stops in the order a run of direction `directionId`
      travels them: the stored order for direction 1, reversed otherwise. */
  function DirectionOrder(routeStops: seq<Stop>, directionId: int): (r: seq<Stop>)
    ensures |r| == |routeStops|
    ensures forall k :: 0 <= k < |r| ==>
              r[k] == if directionId == 1 then routeStops[k] else routeStops[|routeStops| - 1 - k]
  {
    if directionId == 1 then routeStops
    else
      var r := Reverse(routeStops);
      forall k | 0 <= k < |r| ensures r[k] == routeStops[|routeStops| - 1 - k] {
        ReverseAt(routeStops, k);
      }
      r
  }

  /** The stop before and the stop at a match position of `stopsArray`. */
  function BoundingStops(stopsArray: seq<Stop>, m: Option<nat>): StopIds
    requires m.Some? ==> m.value < |stopsArray|
  {
    match m
    case None => StopIds(None, None)
    case Some(i) =>
      if i > 0 then StopIds(Some(stopsArray[i - 1].stopId), Some(stopsArray[i].stopId))
      else StopIds(None, Some(stopsArray[i].stopId))
  }

  /** The value `getNextPrevStopID(routeStops, run)` returns when it
      completes. */
  function NextPrevStopIds(routeStops: seq<Stop>, run: Run): StopIds
    requires HasCurrent(run)
  {
    var cd := run.currentDeparture.value;
    var current := run.departures[cd];
    if cd > 0 then StopIds(Some(run.departures[cd - 1].stopId), Some(current.stopId))
    else
      var stopsArray := DirectionOrder(routeStops, current.directionId);
      BoundingStops(stopsArray, LastMatch(stopsArray, current.stopId))
  }

  /** `getNextPrevStopID(routeStops, run)`: a TypeError when the run has no
      current departure, and the stop ids otherwise. `routeStops` is a
      value, so the reversal cannot change the caller's array (the source
      copies with `slice()` first). */
  method GetNextPrevStopId(routeStops: seq<Stop>, run: Run) returns (r: Result<StopIds>)
    ensures r.Ok? <==> HasCurrent(run)
    ensures r.Ok? ==> r.value == NextPrevStopIds(routeStops, run)
  {
    if !HasCurrent(run) {
      return TypeError;
    }
    var cd := run.currentDeparture.value;
    var directionId := run.departures[cd].directionId;
    var stopsArray: seq<Stop>;
    if directionId == 1 {
      stopsArray := routeStops;
    } else {
      stopsArray := Reverse(routeStops);
    }
    assert stopsArray == DirectionOrder(routeStops, directionId);

    var prevStopId: Option<int> := None;
    var nextStopId: Option<int> := None;
    if cd > 0 {
      prevStopId := Some(run.departures[cd - 1].stopId);
      nextStopId := Some(run.departures[cd].stopId);
    } else {
      var stopId := run.departures[cd].stopId;
      for i := 0 to |stopsArray|
        invariant StopIds(prevStopId, nextStopId) == BoundingStops(stopsArray, LastMatch(stopsArray[..i], stopId))
      {
        LastMatchStep(stopsArray, i, stopId);
        if stopsArray[i].stopId == stopId {
          if i > 0 {
            prevStopId := Some(stopsArray[i - 1].stopId);
            nextStopId := Some(stopsArray[i].stopId);
          } else {
            nextStopId := Some(stopsArray[i].stopId);
          }
        }
      }
      assert stopsArray[..|stopsArray|] == stopsArray;
    }
    r := Ok(StopIds(prevStopId, nextStopId));
  }

  /** With a known earlier departure the run's own history gives both
      stops, whatever the route. */
  lemma NextPrevStopIdsFromHistory(routeStops: seq<Stop>, run: Run, cd: int)
    requires run.currentDeparture == Some(cd) && 0 < cd < |run.departures|
    ensures NextPrevStopIds(routeStops, run)
         == StopIds(Some(run.departures[cd - 1].stopId), Some(run.departures[cd].stopId))
  {
  }

  /** At the first departure the stops come from the route: the LAST
      occurrence of the current stop in travel order decides, and at travel
      position 0 there is no previous stop. */
  lemma NextPrevStopIdsFromRoute(routeStops: seq<Stop>, run: Run, i: nat)
    requires run.currentDeparture == Some(0) && |run.departures| > 0
    requires var stopsArray := DirectionOrder(routeStops, run.departures[0].directionId);
      && i < |stopsArray| && stopsArray[i].stopId == run.departures[0].stopId
      && forall j :: i < j < |stopsArray| ==> stopsArray[j].stopId != run.departures[0].stopId
    ensures var stopsArray := DirectionOrder(routeStops, run.departures[0].directionId);
      NextPrevStopIds(routeStops, run)
      == if i > 0 then StopIds(Some(stopsArray[i - 1].stopId), Some(run.departures[0].stopId))
         else StopIds(None, Some(run.departures[0].stopId))
  {
    var stopsArray := DirectionOrder(routeStops, run.departures[0].directionId);
    var m := LastMatch(stopsArray, run.departures[0].stopId);
    assert m == Some(i);
  }

  /** A current stop that is not on the route gives neither stop. */
  lemma NextPrevStopIdsOffRoute(routeStops: seq<Stop>, run: Run)
    requires run.currentDeparture == Some(0) && |run.departures| > 0
    requires forall j :: 0 <= j < |routeStops| ==> routeStops[j].stopId != run.departures[0].stopId
    ensures NextPrevStopIds(routeStops, run) == StopIds(None, None)
  {
    var stopsArray := DirectionOrder(routeStops, run.departures[0].directionId);
    forall j | 0 <= j < |stopsArray| ensures stopsArray[j].stopId != run.departures[0].stopId {
      var sj := if run.departures[0].directionId == 1 then j else |routeStops| - 1 - j;
      assert stopsArray[j] == routeStops[sj];
    }
  }

  /** For a route whose stop ids are distinct, a run starting at stored
      position `j` is bounded by the stored neighbour before `j` when its
      direction is 1 and by the stored neighbour after `j` otherwise. */
  lemma DirectionSymmetry(routeStops: seq<Stop>, run: Run, j: nat)
    requires DistinctStopIds(routeStops) && j < |routeStops|
    requires run.currentDeparture == Some(0) && |run.departures| > 0
    requires run.departures[0].stopId == routeStops[j].stopId
    ensures var ids := NextPrevStopIds(routeStops, run);
      && ids.nextStopId == Some(routeStops[j].stopId)
      && (run.departures[0].directionId == 1 ==>
            ids.prevStopId == if j > 0 then Some(routeStops[j - 1].stopId) else None)
      && (run.departures[0].directionId != 1 ==>
            ids.prevStopId == if j + 1 < |routeStops| then Some(routeStops[j + 1].stopId) else None)
  {
    var n := |routeStops|;
    var dir := run.departures[0].directionId;
    var stopsArray := DirectionOrder(routeStops, dir);
    var i := if dir == 1 then j else n - 1 - j;
    var m := LastMatch(stopsArray, routeStops[j].stopId);
    assert stopsArray[i] == routeStops[j];
    assert m.Some?;
    var k := m.value;
    var sk := if dir == 1 then k else n - 1 - k;
    assert stopsArray[k] == routeStops[sk];
    assert k == i;
    if dir != 1 && i > 0 {
      assert stopsArray[i - 1] == routeStops[j + 1];
    }
  }

  // ---------------------------------------------------------------------
  // getCoordinatesPair

  /** `getCoordinatesPair` completes without a TypeError: the run has a
      current departure, the next stop id is known and in the map, and so is
      the previous one when truthy. */
  predicate Locatable(routeStops: seq<Stop>, uniqueStops: map<int, UniqueStop>, run: Run) {
    && HasCurrent(run)
    && var ids := NextPrevStopIds(routeStops, run);
    && ids.nextStopId.Some? && ids.nextStopId.value in uniqueStops
    && (Truthy(ids.prevStopId) ==> ids.prevStopId.value in uniqueStops)
  }

  /** `c` is the pair of positions that bounds the run: the coordinates of
      the next stop, those of the previous stop exactly when its id is
      truthy, both ids as found, and the current departure's direction. */
  predicate IsCoordinatesPairOf(routeStops: seq<Stop>, uniqueStops: map<int, UniqueStop>, run: Run, c: CoordinatesPair) {
    && HasCurrent(run)
    && var ids := NextPrevStopIds(routeStops, run);
    && ids.nextStopId == Some(c.nextStopId)
    && ids.prevStopId == c.prevStopId
    && c.directionId == run.departures[run.currentDeparture.value].directionId
    && c.nextStopId in uniqueStops
    && c.nextStopCoordinates == CoordinateOf(uniqueStops[c.nextStopId])
    && (c.previousStopCoordinates.Some? <==> Truthy(c.prevStopId))
    && (Truthy(c.prevStopId) ==>
          c.prevStopId.value in uniqueStops
          && c.previousStopCoordinates == Some(CoordinateOf(uniqueStops[c.prevStopId.value])))
  }

  /** At the first departure of a run that departs from a stop of the
      route, getCoordinatesPair completes whenever every stop of the route
      is in the lookup. */
  lemma LocatableWhenOnRoute(routeStops: seq<Stop>, uniqueStops: map<int, UniqueStop>, run: Run)
    requires run.currentDeparture == Some(0) && |run.departures| > 0
    requires run.departures[0].stopId in StopIdSet(routeStops)
    requires StopIdSet(routeStops) <= uniqueStops.Keys
    ensures Locatable(routeStops, uniqueStops, run)
  {
    var n := |routeStops|;
    var dir := run.departures[0].directionId;
    var stopsArray := DirectionOrder(routeStops, dir);
    var j :| 0 <= j < n && routeStops[j].stopId == run.departures[0].stopId;
    var i' := if dir == 1 then j else n - 1 - j;
    assert stopsArray[i'] == routeStops[j];
    var i := LastMatch(stopsArray, run.departures[0].stopId).value;
    if i > 0 {
      var si := if dir == 1 then i - 1 else n - 1 - (i - 1);
      assert stopsArray[i - 1] == routeStops[si];
      assert stopsArray[i - 1].stopId in StopIdSet(routeStops);
    }
  }

  /** `getCoordinatesPair(routeStops, uniqueStops, run)`; a run without a
      current departure, or a stop id missing from `uniqueStops`, makes the
      source read a property of `undefined`. */
  method GetCoordinatesPair(routeStops: seq<Stop>, uniqueStops: map<int, UniqueStop>, run: Run)
    returns (r: Result<CoordinatesPair>)
    ensures r.Ok? <==> Locatable(routeStops, uniqueStops, run)
    ensures r.Ok? ==> IsCoordinatesPairOf(routeStops, uniqueStops, run, r.value)
  {
    var found := GetNextPrevStopId(routeStops, run);
    if found.TypeError? {
      return TypeError;
    }
    var prevStopId, nextStopId := found.value.prevStopId, found.value.nextStopId;

    var previousStopCoordinates: Option<Coordinate> := None;
    if Truthy(prevStopId) {
      if prevStopId.value !in uniqueStops {
        return TypeError;
      }
      previousStopCoordinates := Some(CoordinateOf(uniqueStops[prevStopId.value]));
    }
    if nextStopId.None? || nextStopId.value !in uniqueStops {
      return TypeError;
    }
    var nextStopCoordinates := CoordinateOf(uniqueStops[nextStopId.value]);
    r := Ok(CoordinatesPair(previousStopCoordinates, nextStopCoordinates, prevStopId, nextStopId.value,
                            run.departures[run.currentDeparture.value].directionId));
  }

  // ---------------------------------------------------------------------
  // getStopCoordinate

  /** `getStopCoordinate(stops, stop_id)`: the position of the first stop
      with that id, or undefined when there is none. */
  method GetStopCoordinate(stops: seq<UniqueStop>, stopId: int) returns (r: Option<Coordinate>)
    ensures r.None? <==> forall i :: 0 <= i < |stops| ==> stops[i].stopId != stopId
    ensures r.Some? ==> exists i :: 0 <= i < |stops| && stops[i].stopId == stopId
                          && r.value == CoordinateOf(stops[i])
                          && forall j :: 0 <= j < i ==> stops[j].stopId != stopId
  {
    for i := 0 to |stops|
      invariant forall j :: 0 <= j < i ==> stops[j].stopId != stopId
    {
      if stops[i].stopId == stopId {
        return Some(Coordinate(stops[i].latitude, stops[i].longitude));
      }
    }
    return None;
  }
}
