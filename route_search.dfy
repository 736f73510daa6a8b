/**
 * The queries BusRepository answers over the loaded bus list: the journey
 * search, lookup by id, the service-type list, the buses at one stop and
 * the alphabetical list of every stop name.
 */
module RouteSearch {
  import opened Text
  import opened Sequences
  import opened BusModel
  import opened StopMatching

  /** One direction of one bus serves the journey: both stops are found on
      it, the origin strictly before the destination. */
  predicate Leg(stops: seq<string>, normalizedFrom: string, normalizedTo: string) {
    var i := FindStopIndex(stops, normalizedFrom);
    var j := FindStopIndex(stops, normalizedTo);
    i != -1 && j != -1 && i < j
  }

  /** The searchBuses filter: the forward list serves the journey, or the
      backward list does when it is non-empty; a bus without a backward
      list is taken to run its forward list in reverse. */
  predicate CanTravel(bus: BusRoute, normalizedFrom: string, normalizedTo: string) {
    var backward := BackwardOrEmpty(bus);
    Leg(bus.routes.forward, normalizedFrom, normalizedTo) ||
    if backward != [] then Leg(backward, normalizedFrom, normalizedTo)
    else Leg(Reverse(bus.routes.forward), normalizedFrom, normalizedTo)
  }

  /** A journey from a stop to itself is never served: both ends resolve to
      the same index. */
  lemma SameStopNeverTravels(bus: BusRoute, n: string)
    ensures !CanTravel(bus, n, n)
  {
  }

  /** searchBuses(from, to): the buses serving the journey, in dataset order.
      Nothing is found when both names normalise alike. */
  function SearchBuses(buses: seq<BusRoute>, from: string, to: string): (r: seq<BusRoute>)
    ensures IsSubsequence(r, buses)
    ensures forall b :: b in r <==> b in buses && CanTravel(b, Normalize(from), Normalize(to))
    ensures Normalize(from) == Normalize(to) ==> r == []
  {
    var nf := Normalize(from);
    var nt := Normalize(to);
    var r := Filter(buses, (b: BusRoute) => CanTravel(b, nf, nt));
    if nf == nt && r != [] then
      SameStopNeverTravels(r[0], nf);
      assert r[0] in r;
      r
    else r
  }

  /** On a distinctly named list, every journey along its order is a leg. */
  lemma LegAlong(stops: seq<string>, i: int, j: int)
    requires DistinctlyNamed(stops) && 0 <= i < j < |stops|
    ensures Leg(stops, Normalize(stops[i]), Normalize(stops[j]))
  {
    FindsOwnStop(stops, i);
    FindsOwnStop(stops, j);
  }

  /** A bus whose forward stops are distinctly named serves every journey
      along its forward list. */
  lemma ForwardOrderTravels(bus: BusRoute, i: int, j: int)
    requires DistinctlyNamed(bus.routes.forward)
    requires 0 <= i < j < |bus.routes.forward|
    ensures CanTravel(bus, Normalize(bus.routes.forward[i]), Normalize(bus.routes.forward[j]))
  {
    LegAlong(bus.routes.forward, i, j);
  }

  /** A bus with a non-empty backward list serves every journey along it. */
  lemma BackwardOrderTravels(bus: BusRoute, i: int, j: int)
    requires DistinctlyNamed(BackwardOrEmpty(bus))
    requires 0 <= i < j < |BackwardOrEmpty(bus)|
    ensures CanTravel(bus, Normalize(BackwardOrEmpty(bus)[i]), Normalize(BackwardOrEmpty(bus)[j]))
  {
    LegAlong(BackwardOrEmpty(bus), i, j);
  }

  lemma ReverseDistinctlyNamed(f: seq<string>)
    requires DistinctlyNamed(f)
    ensures DistinctlyNamed(Reverse(f))
  {
    var rev := Reverse(f);
    forall a, b | 0 <= a < b < |rev| ensures Normalize(rev[a]) != Normalize(rev[b]) {
      assert rev[a] == f[|f| - 1 - a] && rev[b] == f[|f| - 1 - b];
    }
  }

  /** Against the order of a distinctly named list, every journey is a leg
      of its reverse. */
  lemma ReverseLegAlong(f: seq<string>, i: int, j: int)
    requires DistinctlyNamed(f) && 0 <= i < j < |f|
    ensures Leg(Reverse(f), Normalize(f[j]), Normalize(f[i]))
  {
    ReversePair(f, Reverse(f), i, j);
    LegAlong(Reverse(f), |f| - 1 - j, |f| - 1 - i);
  }

  /** What LegAlong needs of the reverse rf, for the stops i and j. */
  lemma ReversePair(f: seq<string>, rf: seq<string>, i: int, j: int)
    requires rf == Reverse(f)
    requires DistinctlyNamed(f) && 0 <= i < j < |f|
    ensures DistinctlyNamed(rf)
    ensures 0 <= |f| - 1 - j < |f| - 1 - i < |rf|
    ensures Normalize(rf[|f| - 1 - j]) == Normalize(f[j])
    ensures Normalize(rf[|f| - 1 - i]) == Normalize(f[i])
  {
    ReverseAt(f, j);
    ReverseAt(f, i);
    ReverseDistinctlyNamed(f);
  }

  /** Without a backward list, a bus also serves every journey against its
      forward order. */
  lemma ImplicitReverseTravels(bus: BusRoute, i: int, j: int)
    requires BackwardOrEmpty(bus) == []
    requires DistinctlyNamed(bus.routes.forward)
    requires 0 <= i < j < |bus.routes.forward|
    ensures CanTravel(bus, Normalize(bus.routes.forward[j]), Normalize(bus.routes.forward[i]))
  {
    ReverseLegAlong(bus.routes.forward, i, j);
  }

  /** No stop of the list passes the containment or word test. */
  predicate NoPartialMatch(stops: seq<string>, n: string) {
    forall k :: 0 <= k < |stops| ==> !PartialMatch(stops[k], n)
  }

  lemma {:induction false} UnmatchedOriginNoLeg(stops: seq<string>, nf: string, nt: string)
    requires NoPartialMatch(stops, nf)
    ensures !Leg(stops, nf, nt)
  {
    assert forall k :: 0 <= k < |stops| ==> Normalize(stops[k]) != nf by {
      forall k | 0 <= k < |stops| ensures Normalize(stops[k]) != nf {
        assert !PartialMatch(stops[k], nf);
      }
    }
    assert FindStopIndex(stops, nf) == -1;
  }

  lemma NoPartialMatchOfStops(stops: seq<string>, all: seq<string>, nf: string)
    requires forall s :: s in all ==> !PartialMatch(s, nf)
    requires forall s :: s in stops ==> s in all
    ensures NoPartialMatch(stops, nf)
  {
    assert forall k :: 0 <= k < |stops| ==> stops[k] in stops;
  }

  /** The reverse of a list holds no stop the list does not. */
  lemma ReverseSameStops(f: seq<string>, stops: seq<string>)
    requires forall s :: s in f ==> s in stops
    ensures forall s :: s in Reverse(f) ==> s in stops
  {
    var rev := Reverse(f);
    forall s | s in rev ensures s in stops {
      var k :| 0 <= k < |rev| && rev[k] == s;
      assert rev[k] == f[|f| - 1 - k];
    }
  }

  /** A bus none of whose stops resembles the origin is never found. */
  lemma {:induction false} UnknownOriginExcludes(bus: BusRoute, nf: string, nt: string)
    requires forall s :: s in AllStops(bus) ==> !PartialMatch(s, nf)
    ensures !CanTravel(bus, nf, nt)
  {
    var f := bus.routes.forward;
    var rev := Reverse(f);
    ReverseSameStops(f, AllStops(bus));
    NoPartialMatchOfStops(f, AllStops(bus), nf);
    NoPartialMatchOfStops(BackwardOrEmpty(bus), AllStops(bus), nf);
    NoPartialMatchOfStops(rev, AllStops(bus), nf);
    UnmatchedOriginNoLeg(f, nf, nt);
    UnmatchedOriginNoLeg(BackwardOrEmpty(bus), nf, nt);
    UnmatchedOriginNoLeg(rev, nf, nt);
  }

  /** getBusRoute(routeId): the first bus with that id, or None when no bus
      has it. */
  function GetBusRoute(buses: seq<BusRoute>, routeId: string): (r: Option<BusRoute>)
    ensures r.None? <==> forall k :: 0 <= k < |buses| ==> buses[k].id != routeId
    ensures r.Some? ==> r.value.id == routeId
    ensures r.Some? ==> exists k :: 0 <= k < |buses| && buses[k] == r.value && (forall j :: 0 <= j < k ==> buses[j].id != routeId)
  {
    var k := IndexOfFirst(buses, (b: BusRoute) => b.id == routeId);
    if k == -1 then None else Some(buses[k])
  }

  /** `mapNotNull { it.service_type }`. */
  function ServiceTypesOf(buses: seq<BusRoute>): (r: seq<string>)
    ensures forall t :: t in r <==> exists b :: b in buses && b.serviceType == Some(t)
    decreases |buses|
  {
    if buses == [] then []
    else
      var rest := ServiceTypesOf(buses[1..]);
      assert forall b :: b in buses <==> b == buses[0] || b in buses[1..] by {
        assert buses == [buses[0]] + buses[1..];
      }
      match buses[0].serviceType
      case None => rest
      case Some(t) => [t] + rest
  }

  /** getServiceTypes(): the distinct non-blank service types, sorted. */
  function GetServiceTypes(buses: seq<BusRoute>): (r: seq<string>)
    ensures StrictlyAscending(r)
    ensures forall t :: t in r <==> !IsBlank(t) && exists b :: b in buses && b.serviceType == Some(t)
  {
    SortedDistinct(Filter(ServiceTypesOf(buses), (t: string) => !IsBlank(t)))
  }

  /** The getBusesAtStop test on one stop: equal to the normalised name, or
      one contains the other. There is no word test here. */
  predicate NearStop(stop: string, normalized: string) {
    var n := Normalize(stop);
    n == normalized || Contains(n, normalized) || Contains(normalized, n)
  }

  predicate PassesThrough(bus: BusRoute, normalized: string) {
    var stops := AllStops(bus);
    exists k :: 0 <= k < |stops| && NearStop(stops[k], normalized)
  }

  /** getBusesAtStop(stopName): the buses with some stop near the name, in
      dataset order. */
  function GetBusesAtStop(buses: seq<BusRoute>, stopName: string): (r: seq<BusRoute>)
    ensures IsSubsequence(r, buses)
    ensures forall b :: b in r <==> b in buses && PassesThrough(b, Normalize(stopName))
  {
    var n := Normalize(stopName);
    Filter(buses, (b: BusRoute) => PassesThrough(b, n))
  }

  /** Every bus is listed at each stop it names, in either direction. */
  lemma {:induction false} ListedAtOwnStop(buses: seq<BusRoute>, bus: BusRoute, k: int)
    requires bus in buses && 0 <= k < |AllStops(bus)|
    ensures bus in GetBusesAtStop(buses, AllStops(bus)[k])
  {
    assert NearStop(AllStops(bus)[k], Normalize(AllStops(bus)[k]));
  }

  /** A name that normalises to "" lists exactly the buses that have at
      least one stop. */
  lemma {:induction false} EmptyNameListsEveryBusWithStops(buses: seq<BusRoute>, stopName: string)
    requires Normalize(stopName) == ""
    ensures forall b :: b in GetBusesAtStop(buses, stopName) <==> b in buses && AllStops(b) != []
  {
    forall b | b in buses && AllStops(b) != []
      ensures PassesThrough(b, "")
    {
      ContainsEmpty(Normalize(AllStops(b)[0]));
      assert NearStop(AllStops(b)[0], "");
    }
  }

  /** The cleaning getAllStopNames applies: trim, en dash to '-', and one
      pass of "  " to " ". An em dash is kept here, unlike in
      normalizeStopName. A non-blank stop gives a non-empty name without
      surrounding whitespace. */
  function CleanStopName(stop: string): (r: string)
    ensures r == [] <==> IsBlank(stop)
    ensures r == [] || (!IsWhitespace(r[0]) && !IsWhitespace(r[|r| - 1]))
  {
    var t := Trim(stop);
    var d := Replace(t, [EnDash], "-");
    var r := Replace(d, "  ", " ");
    CleanSteps(stop, t, d, r);
    r
  }

  /** The three steps of CleanStopName, each named. */
  lemma CleanSteps(stop: string, t: string, d: string, r: string)
    requires t == Trim(stop) && d == Replace(t, [EnDash], "-") && r == Replace(d, "  ", " ")
    ensures r == [] <==> IsBlank(stop)
    ensures r == [] || (!IsWhitespace(r[0]) && !IsWhitespace(r[|r| - 1]))
  {
    ReplaceCharIsMap(t, EnDash, '-');
    if d != [] {
      ReplaceKeepsFirst(d, "  ", " ");
      ReplaceDoubleSpaceKeepsLast(d);
    }
  }

  /** No listed name holds an en dash. */
  lemma CleanStopNameNoEnDash(stop: string)
    ensures EnDash !in CleanStopName(stop)
  {
    var d := Replace(Trim(stop), [EnDash], "-");
    ReplaceRemoves(Trim(stop), EnDash, "-");
    if EnDash in CleanStopName(stop) {
      ReplaceChars(d, "  ", " ", EnDash);
    }
  }

  /** A name that is already trimmed, has no en dash and no double space
      is listed as it is. */
  lemma CleanStopNameUnchanged(stop: string)
    requires Trim(stop) == stop && EnDash !in stop
    requires forall i :: 0 <= i < |stop| - 1 ==> stop[i] != ' ' || stop[i + 1] != ' '
    ensures CleanStopName(stop) == stop
  {
    ReplaceAbsent(stop, EnDash, "-");
    CollapseUnchanged(stop);
  }

  /** Every stop any bus lists, in either direction. */
  ghost function StopsOf(buses: seq<BusRoute>): (r: set<string>)
    ensures forall s :: s in r <==> exists b :: b in buses && s in AllStops(b)
    decreases |buses|
  {
    if buses == [] then {}
    else
      var last := buses[|buses| - 1];
      assert forall b :: b in buses <==> b in buses[..|buses| - 1] || b == last by {
        assert buses == buses[..|buses| - 1] + [last];
      }
      StopsOf(buses[..|buses| - 1]) + StopSet(last)
  }

  /** The stops of one bus, as a set. */
  ghost function StopSet(bus: BusRoute): (r: set<string>)
    ensures forall s :: s in r <==> s in bus.routes.forward || s in BackwardOrEmpty(bus)
  {
    set s | s in AllStops(bus)
  }

  lemma StopsOfExtend(buses: seq<BusRoute>, i: int)
    requires 0 <= i < |buses|
    ensures StopsOf(buses[..i + 1]) == StopsOf(buses[..i]) + StopSet(buses[i])
  {
    var pre := buses[..i + 1];
    assert pre[..|pre| - 1] == buses[..i];
    assert pre[|pre| - 1] == buses[i];
  }

  /** Some non-blank member of seen cleans to name. */
  ghost predicate CleansTo(seen: set<string>, name: string) {
    exists s :: s in seen && !IsBlank(s) && CleanStopName(s) == name
  }

  lemma CleansToAdd(seen: set<string>, s: string)
    ensures forall n :: CleansTo(seen + {s}, n) <==> CleansTo(seen, n) || (!IsBlank(s) && CleanStopName(s) == n)
  {
  }

  /** A name getAllStopNames lists: the cleaned form of a non-blank stop. */
  ghost predicate IsStopName(buses: seq<BusRoute>, name: string) {
    CleansTo(StopsOf(buses), name)
  }

  /** A cleaned name is never blank. */
  lemma CleanedNotBlank(s: string)
    requires !IsBlank(s)
    ensures !IsBlank(CleanStopName(s))
  {
    assert CleanStopName(s) != [];
  }

  /** The pipeline of getAllStopNames after the set is built: drop blank
      stops, clean the rest, and keep the distinct names in ascending
      order. */
  method CleanSortedNames(stops: set<string>) returns (names: seq<string>)
    ensures StrictlyAscending(names)
    ensures forall n :: n in names <==> CleansTo(stops, n)
  {
    var rest := stops;
    names := [];
    while rest != {}
      invariant rest <= stops
      invariant StrictlyAscending(names)
      invariant forall n :: n in names <==> CleansTo(stops - rest, n)
      decreases |rest|
    {
      var s :| s in rest;
      CleansToAdd(stops - rest, s);
      assert stops - (rest - {s}) == (stops - rest) + {s};
      rest := rest - {s};
      if !IsBlank(s) {
        names := InsertSorted(names, CleanStopName(s));
      }
    }
    assert stops - rest == stops;
  }

  /** getAllStopNames(): gathers every stop of every bus into a set, then
      keeps the non-blank ones, cleans them and returns the distinct names
      in ascending order. */
  method GetAllStopNames(buses: seq<BusRoute>) returns (names: seq<string>)
    ensures StrictlyAscending(names)
    ensures forall n :: n in names <==> IsStopName(buses, n)
    ensures forall k :: 0 <= k < |names| ==> !IsBlank(names[k])
  {
    var allStops: set<string> := {};
    for i := 0 to |buses|
      invariant allStops == StopsOf(buses[..i])
    {
      var bus := buses[i];
      var before := allStops;
      if bus.routes.forward != [] {
        allStops := allStops + set s | s in bus.routes.forward;
      }
      if BackwardOrEmpty(bus) != [] {
        allStops := allStops + set s | s in BackwardOrEmpty(bus);
      }
      GatherStep(buses, i, before, allStops);
    }
    assert buses[..|buses|] == buses;
    names := CleanSortedNames(allStops);
    CleanedNamesNotBlank(allStops, names);
  }

  /** One iteration of the gathering loop adds the stops of bus i. */
  lemma GatherStep(buses: seq<BusRoute>, i: int, before: set<string>, after: set<string>)
    requires 0 <= i < |buses| && before == StopsOf(buses[..i])
    requires after == before
      + (if buses[i].routes.forward != [] then set s | s in buses[i].routes.forward else {})
      + (if BackwardOrEmpty(buses[i]) != [] then set s | s in BackwardOrEmpty(buses[i]) else {})
    ensures after == StopsOf(buses[..i + 1])
  {
    StopsOfExtend(buses, i);
  }

  /** No listed name is blank. */
  lemma CleanedNamesNotBlank(stops: set<string>, names: seq<string>)
    requires forall n :: n in names <==> CleansTo(stops, n)
    ensures forall k :: 0 <= k < |names| ==> !IsBlank(names[k])
  {
    forall k | 0 <= k < |names| ensures !IsBlank(names[k]) {
      assert names[k] in names;
      var s :| s in stops && !IsBlank(s) && CleanStopName(s) == names[k];
      CleanedNotBlank(s);
    }
  }
}
