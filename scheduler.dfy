/** The module-level state of app.js and the steps that change it: the
    polling gate `repetition` (app.js:254-262), the route-type toggle
    (app.js:265-277, 288-290), the end of a polling cycle (app.js:189-193,
    238-245) and the refresh-rate update (app.js:308-330). Timers are not
    modelled: each call of `Tick` is one firing of the interval, with the
    clock reading and `API.lastUpdate` passed in. */
module Scheduler {
  import opened Common
  import Departures
  import Topology
  import RunFilter

  const SecondsToMs: int := 1000

  /** What one firing of `repetition` does. */
  datatype TickOutcome =
    | NoClients
    | AlreadyRunning
      /** A poll starts, on the stored topology; `reinitialised` says whether
          a pending toggle was served first. */
    | Poll(reinitialised: bool, routeStops: Option<seq<Topology.RouteStopList>>,
           uniqueStops: Option<seq<UniqueStop>>)

  /** The answer of `/refresh`. */
  datatype RefreshResponse = RateUpdated(seconds: int) | CurrentRate(seconds: int)

  /** `!API.lastUpdate || now - API.lastUpdate > apiDemandThreshold`: no
      client asked recently. A `lastUpdate` of 0 is falsy. */
  predicate NoRecentClient(now: int, lastUpdate: Option<int>, apiDemandThreshold: int) {
    lastUpdate.None? || lastUpdate.value == 0 || now - lastUpdate.value > apiDemandThreshold
  }

  /** With no stored stop lists no run passes the filter, whatever the
      departures. */
  lemma {:induction false} NoStopsNoRuns(rds: seq<RunFilter.RouteDepartures>, repetition: bool)
    ensures RunFilter.AllCandidates(rds, [], repetition) == []
  {
    if rds != [] {
      var p, rd := rds[..|rds| - 1], rds[|rds| - 1];
      NoStopsNoRuns(p, repetition);
      var entries := RunFilter.EntriesOf(rd);
      RunFilter.EntriesNonEmpty(rd);
      NoCandidatesWithoutStops(entries, |entries|);
      assert entries[..|entries|] == entries;
    }
  }

  lemma {:induction false} NoCandidatesWithoutStops(entries: seq<Departures.RunEntry>, l: nat)
    requires l <= |entries|
    requires forall i :: 0 <= i < |entries| ==> entries[i].departures != []
    ensures RunFilter.RouteCandidates(entries[..l], None) == []
  {
    if l > 0 {
      NoCandidatesWithoutStops(entries, l - 1);
      RunFilter.RouteCandidatesStep(entries, l - 1, None);
      RunFilter.NoRouteStopsNoRuns(entries[l - 1]);
    }
  }

  /** The module-level variables of app.js and the parts of `app.locals`
      they feed. */
  class App {
    var routeType: int
    var toggleRouteType: bool
    var repetitionReady: bool
    var ptvApiRepFreq: int
    var apiDemandThreshold: int
    /** `app.locals.routeStops`, `app.locals.uniqueStops` and
        `app.locals.stationDepartures`; undefined until first assigned. */
    var routeStops: Option<seq<Topology.RouteStopList>>
    var uniqueStops: Option<seq<UniqueStop>>
    var stationDepartures: Option<seq<Departure>>
    /** `app.locals.data.runs` */
    var runs: Option<seq<RunFilter.PublishedRun>>

    /** The route type is train (0) or tram (1); the polling period is a
        whole number of seconds and the demand threshold is twice it. */
    predicate Valid()
      reads this
    {
      && (routeType == 0 || routeType == 1)
      && ptvApiRepFreq % SecondsToMs == 0
      && apiDemandThreshold == 2 * ptvApiRepFreq
    }

    /** The state app.js starts in (app.js:19-36). */
    constructor ()
      ensures Valid()
      ensures routeType == 0 && !toggleRouteType && !repetitionReady
      ensures ptvApiRepFreq == 30 * SecondsToMs && apiDemandThreshold == 60 * SecondsToMs
      ensures routeStops.None? && uniqueStops.None? && stationDepartures.None? && runs.None?
    {
      routeType := 0;
      toggleRouteType := false;
      repetitionReady := false;
      ptvApiRepFreq := 30 * SecondsToMs;
      apiDemandThreshold := 60 * SecondsToMs;
      routeStops := None;
      uniqueStops := None;
      stationDepartures := None;
      runs := None;
    }

    /** `notifyToggleRouteType` (app.js:288-290): the toggle is served by
        the next poll. */
    method NotifyToggleRouteType()
      requires Valid()
      modifies this
      ensures Valid()
      ensures toggleRouteType
      ensures routeType == old(routeType) && repetitionReady == old(repetitionReady)
      ensures ptvApiRepFreq == old(ptvApiRepFreq) && apiDemandThreshold == old(apiDemandThreshold)
      ensures routeStops == old(routeStops) && uniqueStops == old(uniqueStops)
      ensures stationDepartures == old(stationDepartures) && runs == old(runs)
    {
      toggleRouteType := true;
    }

    /** `checkRouteTypeToggleRequest` (app.js:265-277): a pending toggle is
        cleared, the route type flips between train and tram and the stored
        topology and station departures are emptied; `initiate` and the new
        interval it starts are not modelled. Without a pending toggle
        nothing changes. */
    method CheckRouteTypeToggleRequest() returns (reinitialised: bool)
      requires Valid()
      modifies this
      ensures Valid()
      ensures reinitialised == old(toggleRouteType)
      ensures !toggleRouteType
      ensures routeType == if reinitialised then 1 - old(routeType) else old(routeType)
      ensures reinitialised ==> routeStops == Some([]) && uniqueStops == Some([]) && stationDepartures == Some([])
      ensures !reinitialised ==> routeStops == old(routeStops) && uniqueStops == old(uniqueStops)
                                 && stationDepartures == old(stationDepartures)
      ensures repetitionReady == old(repetitionReady) && runs == old(runs)
      ensures ptvApiRepFreq == old(ptvApiRepFreq) && apiDemandThreshold == old(apiDemandThreshold)
    {
      reinitialised := false;
      if toggleRouteType {
        toggleRouteType := false;
        routeType := 1 - routeType;
        routeStops := Some([]);
        uniqueStops := Some([]);
        stationDepartures := Some([]);
        reinitialised := true;
      }
    }

    /** One firing of `repetition` (app.js:254-262) at time `now`. Without
        a recent client, or while a cycle is running, nothing changes;
        otherwise the gate closes BEFORE the poll starts, so no second cycle
        can start until this one completes. */
    method Tick(now: int, lastUpdate: Option<int>) returns (outcome: TickOutcome)
      requires Valid()
      modifies this
      ensures Valid()
      ensures NoRecentClient(now, lastUpdate, old(apiDemandThreshold)) <==> outcome.NoClients?
      ensures (!NoRecentClient(now, lastUpdate, old(apiDemandThreshold)) && !old(repetitionReady))
              <==> outcome.AlreadyRunning?
      ensures !outcome.Poll? ==>
                && routeType == old(routeType) && toggleRouteType == old(toggleRouteType)
                && repetitionReady == old(repetitionReady)
                && routeStops == old(routeStops) && uniqueStops == old(uniqueStops)
                && stationDepartures == old(stationDepartures)
      ensures outcome.Poll? ==>
                && !repetitionReady && !toggleRouteType
                && outcome.reinitialised == old(toggleRouteType)
                && routeType == (if old(toggleRouteType) then 1 - old(routeType) else old(routeType))
                && outcome.routeStops == routeStops && outcome.uniqueStops == uniqueStops
                && routeStops == (if old(toggleRouteType) then Some([]) else old(routeStops))
                && uniqueStops == (if old(toggleRouteType) then Some([]) else old(uniqueStops))
                && stationDepartures == (if old(toggleRouteType) then Some([]) else old(stationDepartures))
      ensures ptvApiRepFreq == old(ptvApiRepFreq) && apiDemandThreshold == old(apiDemandThreshold)
      ensures runs == old(runs)
    {
      if NoRecentClient(now, lastUpdate, apiDemandThreshold) {
        return NoClients;
      }
      if !repetitionReady {
        return AlreadyRunning;
      }
      repetitionReady := false;
      var reinitialised := CheckRouteTypeToggleRequest();
      outcome := Poll(reinitialised, routeStops, uniqueStops);
    }

    /** The end of a `getDeparturesForStops` callback as written
        (app.js:189-193, 196-245): the topology is stored only on a
        repetition, and the first run that passes the filter throws before
        `app.locals.data` and `repetitionReady` are assigned. */
    method CompleteCycleAsWritten(stops: Option<seq<Topology.RouteStopList>>, uniqueStopsArg: Option<seq<UniqueStop>>,
                                  routeDepartures: seq<RunFilter.RouteDepartures>, stationDeparturesArg: seq<Departure>,
                                  repetition: bool)
      requires Valid()
      modifies this
      ensures Valid()
      ensures routeStops == (if repetition then stops else old(routeStops))
      ensures uniqueStops == (if repetition then uniqueStopsArg else old(uniqueStops))
      ensures stationDepartures == Some(stationDeparturesArg)
      ensures var passing := RunFilter.AllCandidates(routeDepartures, OrEmpty(stops), repetition);
        && (passing == [] ==> repetitionReady && runs == Some([]))
        && (passing != [] ==> repetitionReady == old(repetitionReady) && runs == old(runs))
      ensures routeType == old(routeType) && toggleRouteType == old(toggleRouteType)
      ensures ptvApiRepFreq == old(ptvApiRepFreq) && apiDemandThreshold == old(apiDemandThreshold)
    {
      routeStops := if repetition then stops else routeStops;
      uniqueStops := if repetition then uniqueStopsArg else uniqueStops;
      stationDepartures := Some(stationDeparturesArg);
      var r := RunFilter.CollectRunsAsWritten(routeDepartures, OrEmpty(stops), repetition);
      PublishRuns(r);
    }

    /** `app.locals.data = runs` and `repetitionReady = true` (app.js:238-245),
        reached only when the run loop completed. */
    method PublishRuns(r: Result<seq<RunFilter.PublishedRun>>)
      requires Valid()
      modifies this
      ensures Valid()
      ensures r.Ok? ==> repetitionReady && runs == Some(r.value)
      ensures r.TypeError? ==> repetitionReady == old(repetitionReady) && runs == old(runs)
      ensures routeStops == old(routeStops) && uniqueStops == old(uniqueStops)
      ensures stationDepartures == old(stationDepartures)
      ensures routeType == old(routeType) && toggleRouteType == old(toggleRouteType)
      ensures ptvApiRepFreq == old(ptvApiRepFreq) && apiDemandThreshold == old(apiDemandThreshold)
    {
      if r.Ok? {
        runs := Some(r.value);
        repetitionReady := true;
      }
    }

    /** The end of a `getDeparturesForStops` callback with both call-site
        errors corrected: the topology is stored on every cycle, and
        getCoordinatesPair gets the stop lookup and the run. The gate opens
        again exactly when the cycle completes, which it does whenever the
        topology is consistent. */
    method CompleteCycle(stops: Option<seq<Topology.RouteStopList>>, uniqueStopsArg: Option<seq<UniqueStop>>,
                         routeDepartures: seq<RunFilter.RouteDepartures>, stationDeparturesArg: seq<Departure>,
                         repetition: bool)
      requires Valid()
      modifies this
      ensures Valid()
      ensures routeStops == stops && uniqueStops == uniqueStopsArg
      ensures stationDepartures == Some(stationDeparturesArg)
      ensures var passing := RunFilter.AllCandidates(routeDepartures, OrEmpty(stops), repetition);
              var stopMap := Topology.StopMap(OrEmpty(uniqueStopsArg));
        && (RunFilter.AllLocatable(passing, stopMap) ==>
              repetitionReady && runs.Some? && RunFilter.PublishesAll(runs.value, passing, stopMap))
        && (!RunFilter.AllLocatable(passing, stopMap) ==>
              repetitionReady == old(repetitionReady) && runs == old(runs))
      ensures RunFilter.ConsistentTopology(OrEmpty(stops), OrEmpty(uniqueStopsArg)) ==> repetitionReady
      ensures routeType == old(routeType) && toggleRouteType == old(toggleRouteType)
      ensures ptvApiRepFreq == old(ptvApiRepFreq) && apiDemandThreshold == old(apiDemandThreshold)
    {
      routeStops := stops;
      uniqueStops := uniqueStopsArg;
      stationDepartures := Some(stationDeparturesArg);
      if RunFilter.ConsistentTopology(OrEmpty(stops), OrEmpty(uniqueStopsArg)) {
        RunFilter.ConsistentTopologyLocatesAll(routeDepartures, OrEmpty(stops), OrEmpty(uniqueStopsArg), repetition);
      }
      var r := RunFilter.CollectRuns(routeDepartures, OrEmpty(stops), OrEmpty(uniqueStopsArg), repetition);
      PublishRuns(r);
    }

    /** The `/refresh` handler (app.js:308-330) once the interval exists: a
        given rate, in seconds, becomes the polling period and twice it the
        demand threshold; without one the current rate is reported.
        Restarting the interval and `API.notifyUpdate` are not modelled. */
    method Refresh(refreshRate: Option<int>) returns (response: RefreshResponse)
      requires Valid()
      modifies this
      ensures Valid()
      ensures refreshRate.Some? ==>
                && response == RateUpdated(refreshRate.value)
                && ptvApiRepFreq == refreshRate.value * SecondsToMs
                && apiDemandThreshold == 2 * ptvApiRepFreq
      ensures refreshRate.None? ==>
                && response.CurrentRate?
                && response.seconds * SecondsToMs == old(ptvApiRepFreq)
                && ptvApiRepFreq == old(ptvApiRepFreq) && apiDemandThreshold == old(apiDemandThreshold)
      ensures routeType == old(routeType) && toggleRouteType == old(toggleRouteType)
      ensures repetitionReady == old(repetitionReady)
      ensures routeStops == old(routeStops) && uniqueStops == old(uniqueStops)
      ensures stationDepartures == old(stationDepartures) && runs == old(runs)
    {
      if refreshRate.Some? {
        response := RateUpdated(refreshRate.value);
        ptvApiRepFreq := refreshRate.value * SecondsToMs;
        apiDemandThreshold := 2 * ptvApiRepFreq;
      } else {
        response := CurrentRate(ptvApiRepFreq / SecondsToMs);
      }
    }
  }
}
