# Real-time transportation API: a Dafny model of its run tracker

The server is meant to poll a public-transport timetable API. For every route
of the current route type (train or tram) it fetches the route's stops. It
keeps one record per distinct stop and drops the decommissioned Flemington
Racecourse stop (id 1070) from the route's stop list. Then, on a polling
interval, it fetches the departures of every stop, groups them by run, keeps
the runs whose stops all lie on their route, and publishes each kept run with
the coordinates of the two stops it is between. A client request can toggle
the route type or change the polling rate. The code as written falls short of
this in several places: it never stores the stop lists that the filter reads,
and the coordinates call throws for the first run that passes. Each such gap
is modelled as written and as intended, and is listed under "## Findings".

This project models that core:

- `Sorting`: the stable sort that `Array.prototype.sort` performs. It is
  proved sorted, a permutation and stable, and proved to be the only output
  with those properties, so the result does not depend on the engine.
- `PtvApi` (modules/PTVapi.js): the stop comparator, the stop sort of
  `getStops`, and the request paths of `getDeparturesForStop` and `getStops`.
  Each path has a parser that reads its ids back.
- `Departures` (modules/departures.js): the departure-time comparator,
  `getUniqueRuns` and `getDeparturesForRuns`.
- `Stations` (modules/stations.js): `getNextPrevStopID`,
  `getCoordinatesPair` and `getStopCoordinate`.
- `Topology` (app.js, `getStopsForRoute`): stop deduplication, removal of
  stop 1070, and the `stops`/`uniqueStops`/`stopIDs` collections as a class.
- `RunFilter` (app.js, `getDeparturesForStops`): the run filter and the
  publication of runs with their coordinates, both as written and corrected.
- `Scheduler` (app.js): the module-level state as a class, with the polling
  gate `repetition`, the route-type toggle, the end of a polling cycle and
  the `/refresh` handler.

JavaScript details are modelled explicitly:

- An `undefined` value is `Option.None`.
- A thrown TypeError is `Result.TypeError`.
- Stop id 0 and a `lastUpdate` of 0 are falsy.
- A for-in key is a string, so the key `"0"` is truthy.
- A for-in loop over `undefined` runs no iteration.
- A `Set` iterates in insertion order.

## Model

| member | source | states |
|---|---|---|
| PtvApi.CompareStops | modules/PTVapi.js:15-27 | returns 1, -1 or 0 exactly when the first stop's sequence number is greater than, less than or equal to the second's |
| PtvApi.CompareStopsIsComparator | modules/PTVapi.js:15-27 | the comparator is antisymmetric, and its "not after" relation is transitive and total |
| PtvApi.SortStops | modules/PTVapi.js:66 | the sorted stops are a permutation of the input, in ascending stop-sequence order, and stops with equal sequence numbers keep their input order |
| PtvApi.ReadIntDecimal | modules/PTVapi.js:31 | reading back the decimal rendering of any integer, negative included, gives that integer and the text after it |
| PtvApi.DeparturesPathRoundTrip | modules/PTVapi.js:31 | parsing a departures request path gives back exactly the route type, stop id and route id it was built from, followed by the fixed query |
| PtvApi.StopsPathRoundTrip | modules/PTVapi.js:61 | parsing a stops request path gives back exactly the route id and route type it was built from, followed by the fixed query |
| Sorting.Sort | modules/PTVapi.js:66 | the result is sorted by key and is a permutation of the input |
| Sorting.InsertPermutes | modules/departures.js:64 | inserting one element into a sequence adds exactly that element |
| Sorting.InsertSorted | modules/departures.js:64 | inserting into a sorted sequence keeps it sorted |
| Sorting.SortIsStable | modules/departures.js:64 | for every key, the elements with that key come out in their input order |
| Sorting.StableSortIsUnique | modules/PTVapi.js:66 | every sorted sequence that keeps the input order among equal keys equals the computed sort, so any conforming engine gives the same result |
| Sorting.SortedWithSameFiltersAreEqual | modules/departures.js:64 | two sorted sequences with the same elements per key, in the same order, are equal |
| Departures.CompareDeparturesTime | modules/departures.js:4-28 | returns 1, -1 or 0 exactly when the first departure's effective time is later than, earlier than or equal to the second's; the effective time is the estimate when there is one, otherwise the scheduled time |
| Departures.CompareDeparturesTimeIsComparator | modules/departures.js:4-28 | the comparator is antisymmetric and transitive, and "not after" holds exactly when the effective time is not later |
| Departures.GetUniqueRuns | modules/departures.js:32-40 | the result holds every run id of the departures, and no other; each appears once, in the order of its first occurrence |
| Departures.DedupElements | modules/departures.js:32-40 | a value is in the deduplicated sequence exactly when it is in the input |
| Departures.DedupNoDuplicates | modules/departures.js:32-40 | the deduplicated sequence has no repeated element |
| Departures.DedupFirstOccurrenceOrder | modules/departures.js:32-40 | the deduplicated elements are ordered by their first index in the input |
| Departures.GetDeparturesForRuns | modules/departures.js:42-74 | the result is the grouping of the departures by the given run ids, and no entry is empty |
| Departures.DeparturesOfCount | modules/departures.js:52-60 | a run's departure list holds each departure of that run as often as the input does, and nothing else |
| Departures.GroupByRunIds | modules/departures.js:46-71 | the entries' run ids are exactly the given ids that have departures, in the given order |
| Departures.GroupByRunDepartures | modules/departures.js:63-70 | each entry holds its run's departures sorted by time |
| Departures.RunEntryProperties | modules/departures.js:42-74 | each entry has a requested run id and at least one departure, holds only its own run's departures, holds all of them with their counts, is ordered by effective time, and keeps equal-time departures in input order |
| Departures.RunEntryOrder | modules/departures.js:42-74 | a run id has an entry exactly when it was requested and has departures; with distinct requested ids the entries' ids are distinct |
| Departures.EveryDepartureInOneEntry | modules/departures.js:32-74 | grouping by the ids from getUniqueRuns puts every departure into the single entry of its own run |
| Stations.GetNextPrevStopId | modules/stations.js:1-37 | throws a TypeError exactly when the run has no current departure (index undefined or out of range); otherwise the method's loop computes the next and previous stop ids that the specification function defines |
| Stations.NextPrevStopIdsFromHistory | modules/stations.js:14-17 | after the first departure, the previous stop is the previous departure's stop and the next stop is the current one's |
| Stations.NextPrevStopIdsFromRoute | modules/stations.js:5-30 | at the first departure, the last occurrence of the current stop in travel order decides the previous stop; at travel position 0 there is none |
| Stations.NextPrevStopIdsOffRoute | modules/stations.js:19-30 | a first departure from a stop not on the route gives neither stop id |
| Stations.DirectionSymmetry | modules/stations.js:5-30 | on a route with distinct stops, direction 1 takes the stored neighbour before the start and any other direction takes the one after it |
| Stations.GetCoordinatesPair | modules/stations.js:41-58 | the call completes exactly when the run has a current departure and the next stop, and the previous stop when its id is truthy, are in the lookup; it then returns their coordinates, both ids and the current departure's direction |
| Stations.LocatableWhenOnRoute | modules/stations.js:41-58 | a first departure from a stop of the route always completes when every stop of the route is in the lookup |
| Stations.GetStopCoordinate | modules/stations.js:61-69 | undefined exactly when no stop has the id; otherwise the coordinates of the first stop with that id |
| Common.LastMatch | app.js:133-138 | undefined exactly when no stop has the id; otherwise the index of the last stop with it |
| Topology.TopologyStore.constructor | app.js:89-91 | all three collections start empty and the store's invariant holds |
| Topology.TopologyStore.RecordStop | app.js:140-148 | a stop whose id is new adds its id and one record built from it; a known id changes nothing; the store stays valid (distinct records whose ids are exactly the recorded ids) |
| Topology.TopologyStore.AddRouteStops | app.js:129-161 | the store's invariant is kept; the seen ids grow by the route's ids; the records grow by the route's new stops; the route is stored with stop 1070 removed |
| Topology.DedupStep | app.js:133-149 | one loop iteration extends the seen ids and the records as the specification functions describe |
| Topology.NewStopsIds | app.js:140-148 | the appended records carry exactly the route's ids that were not yet known, each once |
| Topology.NewStopsFromFirstOccurrence | app.js:140-148 | each appended record is built from the first stop of the route with its id |
| Topology.AppendNewStops | app.js:140-148 | appending the new records keeps the record ids distinct, and the records' ids become the known ids plus the route's |
| Topology.RemoveDecommissioned | app.js:152-154 | a list without 1070 is unchanged; otherwise it is one stop shorter and loses no id other than 1070 |
| Topology.RemovesLastDecommissioned | app.js:133-154 | exactly the last stop with id 1070 is removed, position 0 included, and the remaining stops keep their order |
| Topology.RemovesOnlyDecommissioned | app.js:152-154 | a list holding 1070 once no longer holds it, and keeps every other id |
| Topology.StopMap | app.js:142-147 | the lookup's keys are exactly the records' ids |
| Topology.StopMapAt | app.js:142-147 | with distinct ids, the lookup returns each record under its own id |
| Topology.StopsRequestAsWrittenSwapsIds | app.js:128 | the request as written names the route type as the route, so for any route id other than the route type it asks for another route's stops |
| Topology.StopsRequestNamesRoute | app.js:128 | the corrected request names exactly the given route and route type |
| RunFilter.FirstRouteStopsSpec | app.js:203-208 | with the break, the list found is undefined exactly when no stored route matches; otherwise it is the first match's list |
| RunFilter.LastRouteStopsSpec | app.js:203-208 | without the break, the list found is undefined exactly when no stored route matches; otherwise it is the last match's list |
| RunFilter.FindRouteStops | app.js:202-208 | the loop finds the first match's list on a repetition and the last match's list otherwise |
| RunFilter.RouteStopsForStored | app.js:202-208 | a list that is found is one stored for that route |
| RunFilter.RouteStopsIgnoreRepetition | app.js:206 | when each route is stored once, the break makes no difference |
| RunFilter.RunStopIds | app.js:214-220 | the target set is exactly the set of stop ids of the run's departures |
| RunFilter.CountRouteStopsIn | app.js:222-227 | valid counts the route's stops whose id is in the target set, and is 0 when the route has no list |
| RunFilter.CountInDistinct | app.js:222-227 | on a stop list with distinct ids, the count equals the number of ids it shares with the target |
| RunFilter.ValidIffSubset | app.js:229-230 | on a stop list with distinct ids, `valid === target.size` holds exactly when every stop of the run is on the route |
| RunFilter.NoRouteStopsNoRuns | app.js:223-230 | without a stop list for the route, no run with a departure passes |
| RunFilter.RouteCandidatesQualify | app.js:211-236 | every run that passes has a departure, departs only from counted stops, was checked against the route's list, and is one of the route's entries |
| RunFilter.FilterRoute | app.js:211-236 | with the call corrected (arguments reordered, a lookup Map built from `uniqueStops`, and a run record positioned at its first departure), one route's loop completes exactly when every passing run can be located; it then publishes each passing run in order, with its departures and its coordinate pair |
| RunFilter.CollectRuns | app.js:196-240 | with the call corrected (arguments reordered, a lookup Map built from `uniqueStops`, and a run record positioned at its first departure), the loop over all routes completes exactly when every passing run can be located; it then publishes every passing run, route by route, with its coordinates |
| RunFilter.FilterRouteAsWritten | app.js:211-236 | as written, one route's loop completes with no runs when no run passes, and throws a TypeError otherwise |
| RunFilter.CollectRunsAsWritten | app.js:196-240 | as written, the loop over all routes completes exactly when no run passes, and then publishes nothing |
| RunFilter.AllCandidatesQualify | app.js:196-236 | every run that passes the filter qualifies against a stored stop list |
| RunFilter.PassingEntryIsCandidate | app.js:211-236 | every run of a route whose stops all lie on the route's list becomes a candidate, with that list |
| RunFilter.RouteCandidatesEmpty | app.js:211-236 | a route has no candidate exactly when none of its runs passes |
| RunFilter.RouteCandidateInAll | app.js:196-236 | a candidate of any one route is a candidate of the whole cycle |
| RunFilter.PassingRunIsCandidate | app.js:196-236 | every run that passes, on any route, is a candidate of the cycle |
| RunFilter.AllCandidatesEmpty | app.js:196-236 | the cycle has no candidate exactly when no run of any route passes |
| RunFilter.ConsistentTopologyLocatesAll | app.js:196-236 | when every stored list has distinct ids that are all in the unique stops, the corrected call completes for every passing run |
| Scheduler.NoStopsNoRuns | app.js:189-192 | with no stored stop lists, no run passes the filter, whatever the departures |
| Scheduler.App.constructor | app.js:19-36 | starts on trains, with no toggle pending, the gate closed, a 30 s period, a 60 s demand threshold and nothing stored |
| Scheduler.App.NotifyToggleRouteType | app.js:288-290 | marks a toggle as pending and changes nothing else |
| Scheduler.App.CheckRouteTypeToggleRequest | app.js:265-277 | a pending toggle is cleared, flips the route type between train and tram and empties the stored stops and station departures; without one nothing changes |
| Scheduler.App.Tick | app.js:254-262 | without a recent client, or while a cycle runs, nothing changes; otherwise the gate closes before the poll; a pending toggle is served, flipping the route type and emptying the stored topology and station departures, which are otherwise unchanged; and the poll uses the stored topology |
| Scheduler.App.PublishRuns | app.js:238-245 | a completed loop stores the runs and opens the gate; a thrown error leaves both as they were |
| Scheduler.App.CompleteCycleAsWritten | app.js:189-245 | as written, the topology is stored only on a repetition, and the gate opens, with no runs published, only when no run passes |
| Scheduler.App.CompleteCycle | app.js:189-245 | corrected, the topology is stored on every cycle; the gate opens and every passing run is published exactly when all can be located, which a consistent topology guarantees |
| Scheduler.App.Refresh | app.js:308-330 | a given rate in seconds becomes the polling period, with twice it as the demand threshold; without a rate the current rate is reported and nothing changes |

## Left out

- HTTP transport (axios), the HMAC-SHA1 request signature and the developer key: paths are modelled up to the point where the signature is appended.
- Time parsing (moment): departure times are integer instants, and an empty estimate is treated as absent.
- Timers and promises: each `Tick` is one firing of the interval, and the clock reading and `API.lastUpdate` are parameters. `initiate()`, the extra interval that a toggle starts, and clearing/restarting the interval in `/refresh` are not modelled.
- `getDirections`, `getDepartures` (the fan-out over stops) and `API.notifyUpdate` are calls into the API client. Their results are method parameters.
- `determineRunCoordinates` (modules/departures.js) computes positions in floating point, so it is not part of this model.
- `sortStations`, `sortDepartures`, `healthCheck`, `getDeparturesForRoute`, the Express routes and the error handlers are outside the modelled core.
- The trigger `stops.length === routes.length` (app.js:163) that starts the first cycle is not modelled. `CompleteCycle` takes the collected stops as a parameter.
- Scheduler.App.Refresh: `req.body.refreshRate` is taken to be an integer number of seconds. A string or fractional rate, which JavaScript would coerce, is not modelled.
- Topology.TopologyStore.AddRouteStops: the in-place `splice` on the callback's array is modelled on a sequence value, so aliasing of that array is not captured.
- Sorting.Sort: the in-place `Array.prototype.sort` is modelled as a function on sequences. Stability together with uniqueness fixes its result.
- RunFilter.ValidIffSubset: the equivalence between `valid === target.size` and inclusion is proved only for stop lists with distinct ids. With repeated ids, `valid` counts duplicates, and only `CountRouteStopsIn` describes it.
- The TypeError that ends a `getDeparturesForStops` callback rejects a promise that is neither returned nor caught. The model records only that the callback stops, leaving the gate closed. The process-level effect of an unhandled rejection, which ends the process by default in Node 15 and later, is not modelled.
- Stop 1070 is removed from the route's stop list but, as the code does, it is still recorded in `uniqueStops` and `stopIDs`.
- A failed `getStops` request: its `.catch` (modules/PTVapi.js:69-71) logs the error and resolves to undefined, so app.js:152-160 stores `routeStops: undefined` for that route. `Topology.RouteStopList.routeStops` is a sequence, so the model can only represent this as an empty stop list. The filter treats both alike, because no stop is counted and `valid` stays 0.
- The `direction_id` that `getDeparturesForRuns` tracks (modules/departures.js:49, 56-58) is never stored in its result, so the model drops it.

## Findings

| source | as written | input that shows it | evidently intended | confidence | as-written member | corrected member |
|---|---|---|---|---|---|---|
| app.js:233 | `getCoordinatesPair(routeIDStops, departures[0].stop_id, filteredRuns[l].direction_id)` passes a stop id where the stop lookup is expected and an undefined `direction_id` where the run is expected, so `getNextPrevStopID` reads `run.departures` of undefined | any cycle in which one run passes the filter, e.g. a route whose single run departs from a stop on that route | three changes together: pass the arguments in `getCoordinatesPair`'s order; pass a Map from stop id to record built from the `uniqueStops` array, since the function calls `.get`; and pass a run record with `currentDeparture` set to 0, since the `{run_id, departures}` records of modules/departures.js:66-69 have none and reordering alone would still throw at modules/stations.js:5 | not executed | RunFilter.CollectRunsAsWritten | RunFilter.CollectRuns |
| app.js:128 | `API.getStops(route_id, ROUTE_TYPE)` while `getStops` takes `(route_type, route_id)`, so the request names the route type as the route | route id 3 with route type 0: the request is for the stops of route 0 with route type 3 | `API.getStops(ROUTE_TYPE, route_id)` | not executed | Topology.StopsRequestAsWrittenSwapsIds | Topology.StopsRequestNamesRoute |
| app.js:189-192 | `app.locals.routeStops` and `app.locals.uniqueStops` are stored only when `repetition` is true, but only the first call (repetition false) has the topology, and each repetition reads them back from `app.locals` | the first cycle after start-up: nothing is stored, so every later repetition filters against undefined stop lists and, if the departures request completes, publishes no run | store the topology on every cycle | not executed | Scheduler.App.CompleteCycleAsWritten, Scheduler.NoStopsNoRuns | Scheduler.App.CompleteCycle |
