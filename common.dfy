/** Records shared by the modules of the run tracker, and the JavaScript
    notions ("undefined", a thrown TypeError) that they need. */
module Common {

  /** A JavaScript value that may be `undefined`. */
  datatype Option<+T> = None | Some(value: T)

  /** The outcome of code that may throw; the only exception the modelled
      code can raise is a TypeError from reading a property of `undefined`. */
  datatype Result<+T> = Ok(value: T) | TypeError

  /** A stop as the timetable API returns it for one route. Latitude and
      longitude are carried, never computed on. */
  datatype Stop = Stop(stopId: int, stopName: string, stopSequence: int, latitude: real, longitude: real)

  /** The record app.js keeps per distinct stop (app.js:142-147). */
  datatype UniqueStop = UniqueStop(stopId: int, stopName: string, latitude: real, longitude: real)

  /** `[stop_latitude, stop_longitude]` */
  datatype Coordinate = Coordinate(latitude: real, longitude: real)

  /** One departure record. Times are already-parsed instants; `estimated`
      is absent when the API gives no (or an empty) estimate. */
  datatype Departure = Departure(
    routeId: int, stopId: int, runId: int, directionId: int,
    scheduled: int, estimated: Option<int>)

  /** A for-in loop over an undefined collection runs no iteration: it
      walks the collection, or nothing. */
  function OrEmpty<T>(s: Option<seq<T>>): seq<T> {
    match s
    case None => []
    case Some(v) => v
  }

  function StopIdSet(stops: seq<Stop>): set<int> {
    set i | 0 <= i < |stops| :: stops[i].stopId
  }

  predicate DistinctStopIds(stops: seq<Stop>) {
    forall i, j :: 0 <= i < j < |stops| ==> stops[i].stopId != stops[j].stopId
  }

  predicate NoDuplicates<T(==)>(s: seq<T>) {
    forall i, j :: 0 <= i < j < |s| ==> s[i] != s[j]
  }

  /** `s.slice().reverse()` */
  function Reverse<T>(s: seq<T>): (r: seq<T>)
    ensures |r| == |s|
  {
    if s == [] then [] else Reverse(s[1..]) + [s[0]]
  }

  lemma {:induction false} ReverseAt<T>(s: seq<T>, k: nat)
    requires k < |s|
    ensures Reverse(s)[k] == s[|s| - 1 - k]
  {
    if k < |s| - 1 {
      ReverseAt(s[1..], k);
    }
  }

  /** The index of the last stop of `stops` whose id is `stopId`. */
  function LastMatch(stops: seq<Stop>, stopId: int): (r: Option<nat>)
    ensures r.None? <==> forall j :: 0 <= j < |stops| ==> stops[j].stopId != stopId
    ensures r.Some? ==> r.value < |stops| && stops[r.value].stopId == stopId
                        && forall j :: r.value < j < |stops| ==> stops[j].stopId != stopId
  {
    if stops == [] then None
    else if stops[|stops| - 1].stopId == stopId then Some(|stops| - 1)
    else LastMatch(stops[..|stops| - 1], stopId)
  }

  /** Extending a prefix by one stop moves the last match only onto that stop. */
  lemma LastMatchStep(stops: seq<Stop>, i: nat, stopId: int)
    requires i < |stops|
    ensures LastMatch(stops[..i + 1], stopId)
         == if stops[i].stopId == stopId then Some(i) else LastMatch(stops[..i], stopId)
  {
    assert stops[..i + 1][..i] == stops[..i];
  }

  /** Extending a prefix by one stop adds exactly its id. */
  lemma StopIdSetStep(s: seq<Stop>, i: nat)
    requires i < |s|
    ensures StopIdSet(s[..i + 1]) == StopIdSet(s[..i]) + {s[i].stopId}
  {
    var p := s[..i + 1];
    assert p[..i] == s[..i];
    forall x | x in StopIdSet(p) ensures x in StopIdSet(s[..i]) + {s[i].stopId} {
      var k :| 0 <= k < |p| && p[k].stopId == x;
      if k < i {
        assert s[..i][k] == p[k];
      }
    }
    forall x | x in StopIdSet(s[..i]) ensures x in StopIdSet(p) {
      var k :| 0 <= k < i && s[..i][k].stopId == x;
      assert p[k] == s[..i][k];
    }
    assert p[i] == s[i];
  }
}
