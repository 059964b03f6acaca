/** The pure parts of the timetable-API client (modules/PTVapi.js): the stop
    comparator and the stop sort of `getStops`, and the request paths of
    `getDeparturesForStop` and `getStops`, with a parser that reads the ids
    back out of a path. The HTTP transport and the HMAC-SHA1 signature
    appended to each path are not part of this model. */
module PtvApi {
  import opened Common
  import Sorting

  // ---------------------------------------------------------------------
  // compareStops and the sort in getStops

  /** `compareStops(a, b)` */
  function CompareStops(a: Stop, b: Stop): (r: int)
    ensures r == 1 <==> a.stopSequence > b.stopSequence
    ensures r == -1 <==> a.stopSequence < b.stopSequence
    ensures r == 0 <==> a.stopSequence == b.stopSequence
  {
    if a.stopSequence > b.stopSequence then 1
    else if a.stopSequence < b.stopSequence then -1
    else 0
  }

  /** `compareStops` is a consistent comparator: antisymmetric, and its
      "not after" relation is transitive and total. */
  lemma CompareStopsIsComparator()
    ensures forall a, b :: CompareStops(a, b) == -CompareStops(b, a)
    ensures forall a, b, c :: CompareStops(a, b) <= 0 && CompareStops(b, c) <= 0 ==> CompareStops(a, c) <= 0
    ensures forall a, b :: CompareStops(a, b) <= 0 || CompareStops(b, a) <= 0
  {
  }

  /** The sort key that `compareStops` orders by. */
  function StopSequence(s: Stop): int {
    s.stopSequence
  }

  /** `response.data.stops.sort(compareStops)`: a stable sort in ascending
      stop-sequence order. */
  function SortStops(stops: seq<Stop>): (r: seq<Stop>)
    ensures multiset(r) == multiset(stops)
    ensures forall i, j :: 0 <= i < j < |r| ==> CompareStops(r[i], r[j]) <= 0
    ensures forall k :: Sorting.KeyFilter(r, StopSequence, k) == Sorting.KeyFilter(stops, StopSequence, k)
  {
    var r := Sorting.Sort(stops, StopSequence);
    assert forall i, j :: 0 <= i < j < |r| ==> StopSequence(r[i]) <= StopSequence(r[j]);
    forall k ensures Sorting.KeyFilter(r, StopSequence, k) == Sorting.KeyFilter(stops, StopSequence, k) {
      Sorting.SortIsStable(stops, StopSequence, k);
    }
    r
  }

  // ---------------------------------------------------------------------
  // Decimal rendering of ids, as JavaScript's `'' + n` does for integers

  predicate IsDigit(c: char) {
    '0' <= c <= '9'
  }

  predicate AllDigits(s: string) {
    forall i :: 0 <= i < |s| ==> IsDigit(s[i])
  }

  function DigitChar(d: nat): (c: char)
    requires d < 10
    ensures IsDigit(c)
  {
    "0123456789"[d]
  }

  function NatDigits(n: nat): (s: string)
    ensures s != []
    ensures AllDigits(s)
    decreases n
  {
    if n < 10 then [DigitChar(n)] else NatDigits(n / 10) + [DigitChar(n % 10)]
  }

  /** `String(n)` for an integer `n`. */
  function Decimal(n: int): string {
    if n < 0 then "-" + NatDigits(-n) else NatDigits(n)
  }

  /** The number of leading digits of `s`. */
  function DigitRun(s: string): (k: nat)
    ensures k <= |s|
    ensures forall i :: 0 <= i < k ==> IsDigit(s[i])
  {
    if s == [] || !IsDigit(s[0]) then 0 else 1 + DigitRun(s[1..])
  }

  function DigitsValue(s: string): nat
    requires AllDigits(s)
  {
    if s == [] then 0
    else
      assert IsDigit(s[|s| - 1]);
      DigitsValue(s[..|s| - 1]) * 10 + (s[|s| - 1] as int - '0' as int)
  }

  /** Reads a decimal natural number from the front of `s` and returns it
      with the rest of `s`. */
  function ReadNat(s: string): Option<(nat, string)> {
    var k := DigitRun(s);
    if k == 0 then None else Some((DigitsValue(s[..k]), s[k..]))
  }

  /** Reads an optionally negative decimal integer from the front of `s`
      and returns it with the rest of `s`. */
  function ReadInt(s: string): Option<(int, string)> {
    var negative := s != [] && s[0] == '-';
    match ReadNat(if negative then s[1..] else s)
    case None => None
    case Some((v, rest)) => Some((if negative then 0 - v else v, rest))
  }

  function DropPrefix(prefix: string, s: string): Option<string> {
    if prefix <= s then Some(s[|prefix|..]) else None
  }

  lemma {:induction false} DigitsValueOfNatDigits(n: nat)
    ensures DigitsValue(NatDigits(n)) == n
    decreases n
  {
    var s := NatDigits(n);
    if n >= 10 {
      DigitsValueOfNatDigits(n / 10);
      assert s[..|s| - 1] == NatDigits(n / 10);
      assert s[|s| - 1] == DigitChar(n % 10);
    }
    assert DigitChar(n % 10) as int - '0' as int == n % 10;
  }

  lemma {:induction false} DigitRunOfDigits(ds: string, t: string)
    requires AllDigits(ds)
    requires t == [] || !IsDigit(t[0])
    ensures DigitRun(ds + t) == |ds|
  {
    if ds != [] {
      assert (ds + t)[1..] == ds[1..] + t;
      DigitRunOfDigits(ds[1..], t);
    } else {
      assert ds + t == t;
    }
  }

  /** Reading a run of digits followed by a non-digit gives the run's
      value and the text after it. */
  lemma ReadDigitRun(ds: string, t: string)
    requires ds != [] && AllDigits(ds)
    requires t == [] || !IsDigit(t[0])
    ensures ReadNat(ds + t) == Some((DigitsValue(ds), t))
    ensures IsDigit((ds + t)[0])
  {
    DigitRunOfDigits(ds, t);
    assert (ds + t)[..|ds|] == ds;
    assert (ds + t)[|ds|..] == t;
  }

  /** A sign in front of a natural number read from `u` negates it. */
  lemma ReadSigned(negative: bool, u: string, v: nat, t: string)
    requires u != [] && IsDigit(u[0])
    requires ReadNat(u) == Some((v, t))
    ensures ReadInt(if negative then "-" + u else u) == Some((if negative then 0 - v else v, t))
  {
    if negative {
      assert ("-" + u)[0] == '-';
      assert ("-" + u)[1..] == u;
    } else {
      assert u[0] != '-';
    }
  }

  /** Reading back a rendered integer gives the integer and the text after it. */
  lemma ReadIntDecimal(n: int, t: string)
    requires t == [] || !IsDigit(t[0])
    ensures ReadInt(Decimal(n) + t) == Some((n, t))
  {
    var m: nat := if n < 0 then -n else n;
    var ds := NatDigits(m);
    DigitsValueOfNatDigits(m);
    ReadDigitRun(ds, t);
    ReadSigned(n < 0, ds + t, m, t);
    if n < 0 {
      assert Decimal(n) + t == "-" + (ds + t);
    } else {
      assert Decimal(n) + t == ds + t;
    }
  }

  lemma DropPrefixOf(prefix: string, s: string)
    ensures DropPrefix(prefix, prefix + s) == Some(s)
  {
    assert prefix <= prefix + s;
    assert (prefix + s)[|prefix|..] == s;
  }

  // ---------------------------------------------------------------------
  // Request paths

  const DeparturesPrefix: string := "/v3/departures/route_type/"
  const DeparturesQuery: string := "look_backwards=false&max_results=1&devid="

  /** The request path of `getDeparturesForStop(route_type, route_id, stop_id)`
      (modules/PTVapi.js:31), before the signature is appended. */
  function DeparturesPath(routeType: int, routeId: int, stopId: int, devId: string): string {
    DeparturesPrefix + (Decimal(routeType) + ("/stop/" + (Decimal(stopId)
      + ("/route/" + (Decimal(routeId) + ("?" + (DeparturesQuery + devId)))))))
  }

  datatype DeparturesRequest = DeparturesRequest(routeType: int, stopId: int, routeId: int, query: string)

  function ParseDeparturesPath(p: string): Option<DeparturesRequest> {
    match DropPrefix(DeparturesPrefix, p)
    case None => None
    case Some(p1) =>
      match ReadInt(p1)
      case None => None
      case Some((routeType, p2)) =>
        match DropPrefix("/stop/", p2)
        case None => None
        case Some(p3) =>
          match ReadInt(p3)
          case None => None
          case Some((stopId, p4)) =>
            match DropPrefix("/route/", p4)
            case None => None
            case Some(p5) =>
              match ReadInt(p5)
              case None => None
              case Some((routeId, p6)) =>
                match DropPrefix("?", p6)
                case None => None
                case Some(query) => Some(DeparturesRequest(routeType, stopId, routeId, query))
  }

  /** A departures request names exactly the route type, stop and route it
      was built from, never looks backwards and asks for at most one result. */
  lemma DeparturesPathRoundTrip(routeType: int, routeId: int, stopId: int, devId: string)
    ensures ParseDeparturesPath(DeparturesPath(routeType, routeId, stopId, devId))
         == Some(DeparturesRequest(routeType, stopId, routeId, DeparturesQuery + devId))
  {
    var q := "?" + (DeparturesQuery + devId);
    var r3 := "/route/" + (Decimal(routeId) + q);
    var r2 := "/stop/" + (Decimal(stopId) + r3);
    var r1 := Decimal(routeType) + r2;
    DropPrefixOf(DeparturesPrefix, r1);
    ReadIntDecimal(routeType, r2);
    DropPrefixOf("/stop/", Decimal(stopId) + r3);
    ReadIntDecimal(stopId, r3);
    DropPrefixOf("/route/", Decimal(routeId) + q);
    ReadIntDecimal(routeId, q);
    DropPrefixOf("?", DeparturesQuery + devId);
    assert ParseDeparturesPath(DeparturesPrefix + r1)
        == Some(DeparturesRequest(routeType, stopId, routeId, DeparturesQuery + devId));
  }

  const StopsPrefix: string := "/v3/stops/route/"
  const StopsQuery: string := "direction_id=1&devid="

  /** The request path of `getStops(route_type, route_id)`
      (modules/PTVapi.js:61), before the signature is appended. */
  function StopsPath(routeType: int, routeId: int, devId: string): string {
    StopsPrefix + (Decimal(routeId) + ("/route_type/" + (Decimal(routeType) + ("?" + (StopsQuery + devId)))))
  }

  datatype StopsRequest = StopsRequest(routeId: int, routeType: int, query: string)

  function ParseStopsPath(p: string): Option<StopsRequest> {
    match DropPrefix(StopsPrefix, p)
    case None => None
    case Some(p1) =>
      match ReadInt(p1)
      case None => None
      case Some((routeId, p2)) =>
        match DropPrefix("/route_type/", p2)
        case None => None
        case Some(p3) =>
          match ReadInt(p3)
          case None => None
          case Some((routeType, p4)) =>
            match DropPrefix("?", p4)
            case None => None
            case Some(query) => Some(StopsRequest(routeId, routeType, query))
  }

  /** A stops request names exactly its route and route type. */
  lemma StopsPathRoundTrip(routeType: int, routeId: int, devId: string)
    ensures ParseStopsPath(StopsPath(routeType, routeId, devId))
         == Some(StopsRequest(routeId, routeType, StopsQuery + devId))
  {
    var q := "?" + (StopsQuery + devId);
    var r2 := "/route_type/" + (Decimal(routeType) + q);
    var r1 := Decimal(routeId) + r2;
    DropPrefixOf(StopsPrefix, r1);
    ReadIntDecimal(routeId, r2);
    DropPrefixOf("/route_type/", Decimal(routeType) + q);
    ReadIntDecimal(routeType, q);
    DropPrefixOf("?", StopsQuery + devId);
  }
}
