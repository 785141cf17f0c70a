/** Fleet reporting (3DNA/backend/api/analytics.php): read-only aggregates over the tables.
    `CURDATE()` is the parameter `today`, a day number as `DateOf` computes it. */
module Analytics {
  import opened Wrappers
  import opened PhpValues
  import opened Sequences
  import opened Schema

  /** The buses with a location row dated `today`, whether or not they still exist. */
  function BusesSeenOn(locations: seq<Location>, day: int): set<int>
  {
    set l | l in locations && DateOf(l.createdAt) == day :: l.busId
  }

  /** The buses with any location row. */
  function BusesSeen(locations: seq<Location>): set<int>
  {
    set l | l in locations :: l.busId
  }

  predicate Joinable(t: Tables, l: Location)
  {
    l.busId in t.buses && t.buses[l.busId].routeId in t.routes
  }

  /** The distance of the route a bus is on now. */
  function RouteDistance(t: Tables, busId: int): int
    requires busId in t.buses && t.buses[busId].routeId in t.routes
  {
    t.routes[t.buses[busId].routeId].distanceKm
  }

  /** `SELECT b.bus_id, r.distance_km FROM driver_locations dl JOIN buses b ... JOIN routes r ...
      WHERE DATE(dl.created_at) = CURDATE()`, one pair per location row. */
  function DistancePairs(t: Tables, locations: seq<Location>, today: int): (r: seq<(int, int)>)
    ensures forall p :: p in r ==> p.0 in t.buses && t.buses[p.0].routeId in t.routes && p.1 == RouteDistance(t, p.0)
    ensures forall p :: p in r ==> p.0 in BusesSeenOn(locations, today)
    ensures forall l :: l in locations && DateOf(l.createdAt) == today && Joinable(t, l) ==>
      (l.busId, RouteDistance(t, l.busId)) in r
  {
    if locations == [] then []
    else
      var l := locations[0];
      var rest := DistancePairs(t, locations[1..], today);
      assert forall p :: p in rest ==> p.0 in BusesSeenOn(locations, today) by {
        forall p | p in rest ensures p.0 in BusesSeenOn(locations, today) {
          assert p.0 in BusesSeenOn(locations[1..], today);
          var m :| m in locations[1..] && DateOf(m.createdAt) == today && m.busId == p.0;
          assert m in locations;
        }
      }
      assert forall m :: m in locations && m != l ==> m in locations[1..] by {
        forall m | m in locations && m != l ensures m in locations[1..] {
          var i :| 0 <= i < |locations| && locations[i] == m;
          assert i != 0 && locations[1..][i - 1] == m;
        }
      }
      if DateOf(l.createdAt) == today && Joinable(t, l) then
        assert l in locations;
        [(l.busId, RouteDistance(t, l.busId))] + rest
      else rest
  }

  /** `SUM(current_passengers)` reads one number per status row. */
  function Passengers(st: map<int, BusStatus>): map<int, int>
  {
    map k | k in st :: st[k].currentPassengers
  }

  /** `SUM` over a table's column, 0 for no rows (the `?? 0` of the endpoint). */
  function SumValues(m: map<int, int>): int
    decreases |m|
  {
    if |m| == 0 then 0
    else
      var k := MinOf(m.Keys);
      var rest := m - {k};
      assert |rest.Keys| == |m.Keys - {k}| == |m| - 1;
      m[k] + SumValues(rest)
  }

  datatype Overview = Overview(
    totalBuses: int, activeBuses: int, inactiveBuses: int, tripsToday: int,
    totalDistanceKm: int, totalPassengers: int)

  /** `getOverview` */
  function GetOverview(t: Tables, today: int): Overview
  {
    var total := |t.buses|;
    var active := |set k | k in t.buses && t.buses[k].status == "active"|;
    Overview(total, active, total - active,
             |BusesSeenOn(t.locations, today)|,
             Sum(Distances(Distinct(DistancePairs(t, t.locations, today)))),
             SumValues(Passengers(t.busStatus)))
  }

  /** The distance column of the (bus, distance) pairs. */
  function Distances(s: seq<(int, int)>): (r: seq<int>)
    ensures |r| == |s| && forall i :: 0 <= i < |s| ==> r[i] == s[i].1
  {
    if s == [] then [] else [s[0].1] + Distances(s[1..])
  }

  /** The bus counts agree with the bus statistics endpoint: inactive is every bus whose status
      is not 'active'. */
  lemma OverviewCounts(t: Tables, today: int)
    ensures var o := GetOverview(t, today);
      && o.totalBuses == |t.buses| && 0 <= o.activeBuses <= o.totalBuses
      && o.inactiveBuses == |set k | k in t.buses && t.buses[k].status != "active"|
  {
    var yes := set k | k in t.buses && t.buses[k].status == "active";
    var no := set k | k in t.buses && t.buses[k].status != "active";
    DisjointUnion(yes, no, t.buses.Keys);
  }

  /** Today's trips count distinct buses, so never more than the buses seen at all. */
  lemma TripsTodayBound(t: Tables, today: int)
    ensures GetOverview(t, today).tripsToday <= |BusesSeen(t.locations)|
  {
    var a := BusesSeenOn(t.locations, today);
    var b := BusesSeen(t.locations);
    assert a <= b;
    var rest := b - a;
    DisjointUnion(a, rest, b);
  }

  /** The distance sum takes each bus once, at the distance of its current route: the distinct
      pairs have pairwise distinct buses, each seen today, and every bus seen today that still
      exists on a stored route is among them. */
  lemma DistanceOncePerBus(t: Tables, today: int)
    ensures var d := Distinct(DistancePairs(t, t.locations, today));
      && (forall i, j :: 0 <= i < j < |d| ==> d[i].0 != d[j].0)
      && (forall i :: 0 <= i < |d| ==> (d[i].0 in BusesSeenOn(t.locations, today) && d[i].0 in t.buses
            && d[i].1 == RouteDistance(t, d[i].0)))
      && (forall b :: b in BusesSeenOn(t.locations, today) && b in t.buses && t.buses[b].routeId in t.routes ==>
            (b, RouteDistance(t, b)) in d)
  {
    var pairs := DistancePairs(t, t.locations, today);
    var d := Distinct(pairs);
    forall b | b in BusesSeenOn(t.locations, today) && b in t.buses && t.buses[b].routeId in t.routes
      ensures (b, RouteDistance(t, b)) in d
    {
      var l :| l in t.locations && DateOf(l.createdAt) == today && l.busId == b;
      assert Joinable(t, l);
    }
    forall i | 0 <= i < |d| ensures d[i].0 in BusesSeenOn(t.locations, today) && d[i].0 in t.buses && d[i].1 == RouteDistance(t, d[i].0) {
      assert d[i] in pairs;
    }
    forall i, j | 0 <= i < j < |d| ensures d[i].0 != d[j].0 {
      assert d[i] in pairs && d[j] in pairs;
    }
  }

  /** No location today, no distance. */
  lemma NoTripsNoDistance(t: Tables, today: int)
    requires forall i :: 0 <= i < |t.locations| ==> DateOf(t.locations[i].createdAt) != today
    ensures GetOverview(t, today).tripsToday == 0 && GetOverview(t, today).totalDistanceKm == 0
  {
    var s := BusesSeenOn(t.locations, today);
    assert forall y :: y !in s;
    NoElementEmpty(s);
    var pairs := DistancePairs(t, t.locations, today);
    assert |pairs| > 0 ==> pairs[0].0 in s;
  }

  lemma {:induction false} SumValuesUpdate(m: map<int, int>, k: int, v: int)
    requires k in m
    ensures SumValues(m[k := v]) == SumValues(m) - m[k] + v
    decreases |m|
  {
    var m2 := m[k := v];
    assert forall x :: x in m2.Keys <==> x in m.Keys;
    assert m2.Keys == m.Keys;
    var j := MinOf(m.Keys);
    assert |(m - {j}).Keys| == |m.Keys - {j}| == |m| - 1;
    if j == k {
      assert forall x :: x in m2 - {j} <==> x in m - {j};
      assert m2 - {j} == m - {j};
    } else {
      assert forall x :: x in m2 - {j} <==> x in (m - {j})[k := v];
      assert m2 - {j} == (m - {j})[k := v];
      SumValuesUpdate(m - {j}, k, v);
    }
  }

  lemma {:induction false} SumValuesInsert(m: map<int, int>, k: int, v: int)
    requires k !in m
    ensures SumValues(m[k := v]) == SumValues(m) + v
    decreases |m|
  {
    var m2 := m[k := v];
    var j2 := MinOf(m2.Keys);
    assert |(m2 - {j2}).Keys| == |m2.Keys - {j2}| == |m2| - 1;
    if j2 == k {
      RemoveInserted(m, k, v);
    } else {
      var j := MinOf(m.Keys);
      assert j2 in m && j in m2;
      assert j == j2;
      assert |(m - {j}).Keys| == |m.Keys - {j}| == |m| - 1;
      RemoveOther(m, k, v, j);
      SumValuesInsert(m - {j}, k, v);
    }
  }

  lemma RemoveInserted(m: map<int, int>, k: int, v: int)
    requires k !in m
    ensures m[k := v] - {k} == m
  {
    var m2 := m[k := v] - {k};
    assert forall x :: x in m2 <==> x in m;
  }

  lemma RemoveOther(m: map<int, int>, k: int, v: int, j: int)
    requires k !in m && j in m
    ensures m[k := v] - {j} == (m - {j})[k := v]
  {
    var m2 := m[k := v] - {j};
    assert forall x :: x in m2 <==> x in (m - {j})[k := v];
  }

  /** Setting one bus's passenger count changes the fleet total by the difference. */
  lemma PassengerTotalAfterUpdate(st: map<int, BusStatus>, k: int, n: int)
    requires k in st
    ensures var st2 := UpdateWhere(st, Some(k), (s: BusStatus) => s.(currentPassengers := n));
      SumValues(Passengers(st2)) == SumValues(Passengers(st)) - st[k].currentPassengers + n
  {
    var st2 := UpdateWhere(st, Some(k), (s: BusStatus) => s.(currentPassengers := n));
    assert forall x :: x in Passengers(st2) <==> x in Passengers(st)[k := n];
    assert Passengers(st2) == Passengers(st)[k := n];
    SumValuesUpdate(Passengers(st), k, n);
  }

  /** Creating a bus adds a status row with no passengers, so the fleet total is unchanged. */
  lemma PassengerTotalAfterCreate(st: map<int, BusStatus>, k: int)
    requires k !in st
    ensures SumValues(Passengers(st[k := BusStatus(None, None, 0, false, None)])) == SumValues(Passengers(st))
  {
    var st2 := st[k := BusStatus(None, None, 0, false, None)];
    assert forall x :: x in Passengers(st2) <==> x in Passengers(st)[k := 0];
    assert Passengers(st2) == Passengers(st)[k := 0];
    SumValuesInsert(Passengers(st), k, 0);
  }

  /** A worked example: three buses, two of them active, and five location rows today from
      two buses give 3 buses, 2 active, 1 inactive and 2 trips. */
  lemma OverviewExample(t: Tables, today: int, b1: int, b2: int, b3: int)
    requires t.buses.Keys == {b1, b2, b3} && b1 != b2 && b2 != b3 && b1 != b3
    requires t.buses[b1].status == "active" && t.buses[b2].status == "active" && t.buses[b3].status == "stopped"
    requires |t.locations| == 5
    requires forall i :: 0 <= i < 5 ==> DateOf(t.locations[i].createdAt) == today
    requires t.locations[0].busId == b1 && t.locations[1].busId == b2 && t.locations[2].busId == b1
    requires t.locations[3].busId == b2 && t.locations[4].busId == b1
    ensures var o := GetOverview(t, today);
      o.totalBuses == 3 && o.activeBuses == 2 && o.inactiveBuses == 1 && o.tripsToday == 2
  {
    var active := set k | k in t.buses && t.buses[k].status == "active";
    assert forall k :: k in active <==> k in {b1, b2};
    assert active == {b1, b2};
    var seen := BusesSeenOn(t.locations, today);
    assert t.locations[0] in t.locations && t.locations[1] in t.locations;
    assert forall k :: k in seen <==> k in {b1, b2};
    assert seen == {b1, b2};
    assert |t.buses.Keys| == 3;
  }

  /** One row of `getDailyStats`; the speed aggregates are left out. */
  datatype DailyRow = DailyRow(date: int, busesActive: int, driversActive: int)

  function DatesOf(locations: seq<Location>): (r: seq<int>)
    ensures |r| == |locations| && forall i :: 0 <= i < |r| ==> r[i] == DateOf(locations[i].createdAt)
  {
    if locations == [] then [] else [DateOf(locations[0].createdAt)] + DatesOf(locations[1..])
  }

  /** `ORDER BY date DESC` */
  predicate LaterFirst(a: int, b: int)
  {
    a >= b
  }

  /** The reported days: distinct dates, latest first, at most 30. */
  function ReportedDays(locations: seq<Location>): seq<int>
  {
    assert TotalPreorder(LaterFirst);
    Take(SortBy(Distinct(DatesOf(locations)), LaterFirst), 30)
  }

  function DayRow(locations: seq<Location>, day: int): DailyRow
  {
    DailyRow(day, |BusesSeenOn(locations, day)|,
             |set l | l in locations && DateOf(l.createdAt) == day :: l.driverId|)
  }

  function DayRows(locations: seq<Location>, days: seq<int>): (r: seq<DailyRow>)
    ensures |r| == |days| && forall i :: 0 <= i < |r| ==> r[i] == DayRow(locations, days[i])
  {
    if days == [] then [] else [DayRow(locations, days[0])] + DayRows(locations, days[1..])
  }

  /** `getDailyStats` */
  function DailyStats(locations: seq<Location>): seq<DailyRow>
  {
    DayRows(locations, ReportedDays(locations))
  }

  /** At most 30 days, fewer only when there are no more days. */
  lemma ReportedDaysCount(locations: seq<Location>)
    ensures |ReportedDays(locations)| == Min(30, |Distinct(DatesOf(locations))|)
  {
    assert TotalPreorder(LaterFirst);
    TopK(Distinct(DatesOf(locations)), LaterFirst, 30);
  }

  /** The days are strictly latest first. */
  lemma ReportedDaysOrder(locations: seq<Location>)
    ensures var d := ReportedDays(locations);
      forall i, j :: 0 <= i < j < |d| ==> d[i] > d[j]
  {
    assert TotalPreorder(LaterFirst);
    var all := Distinct(DatesOf(locations));
    var sorted := SortBy(all, LaterFirst);
    PermutationDistinct(all, sorted);
    StrictlyLatestFirst(sorted);
    assert ReportedDays(locations) == sorted[..|ReportedDays(locations)|];
  }

  lemma StrictlyLatestFirst(s: seq<int>)
    requires SortedBy(s, LaterFirst)
    requires forall i, j :: 0 <= i < j < |s| ==> s[i] != s[j]
    ensures forall i, j :: 0 <= i < j < |s| ==> s[i] > s[j]
  {
    forall i, j | 0 <= i < j < |s| ensures s[i] > s[j] {
      assert LaterFirst(s[i], s[j]);
    }
  }

  /** Every reported day is the date of some location row. */
  lemma ReportedDayHasRows(locations: seq<Location>, i: int)
    requires 0 <= i < |ReportedDays(locations)|
    ensures exists l :: l in locations && DateOf(l.createdAt) == ReportedDays(locations)[i]
  {
    assert TotalPreorder(LaterFirst);
    var dates := DatesOf(locations);
    var all := Distinct(dates);
    var d := ReportedDays(locations);
    TopK(all, LaterFirst, 30);
    assert d[i] in multiset(d);
    assert d[i] in multiset(all);
    assert d[i] in dates;
    var k :| 0 <= k < |dates| && dates[k] == d[i];
    assert locations[k] in locations;
  }

  /** No day left out is later than a reported one. */
  lemma OmittedDaysAreEarlier(locations: seq<Location>, l: Location, i: int)
    requires l in locations && 0 <= i < |ReportedDays(locations)|
    requires DateOf(l.createdAt) !in ReportedDays(locations)
    ensures DateOf(l.createdAt) < ReportedDays(locations)[i]
  {
    assert TotalPreorder(LaterFirst);
    var dates := DatesOf(locations);
    var all := Distinct(dates);
    var d := ReportedDays(locations);
    TopK(all, LaterFirst, 30);
    var x := DateOf(l.createdAt);
    var k :| 0 <= k < |locations| && locations[k] == l;
    assert dates[k] == x;
    assert x in all;
    DistinctMultiplicity(all, x);
    assert x !in multiset(d);
    assert x in multiset(all) - multiset(d);
    assert d[i] in d;
    assert LaterFirst(d[i], x);
  }

  /** At most 30 daily rows, latest first, each counting the distinct buses and drivers of its day. */
  lemma DailyStatsSpec(locations: seq<Location>)
    ensures var r := DailyStats(locations);
      && |r| <= 30
      && (forall i, j :: 0 <= i < j < |r| ==> r[i].date > r[j].date)
      && (forall i :: 0 <= i < |r| ==> r[i].busesActive == |BusesSeenOn(locations, r[i].date)|)
      && (forall i :: 0 <= i < |r| ==>
            r[i].driversActive == |set l | l in locations && DateOf(l.createdAt) == r[i].date :: l.driverId|)
  {
    ReportedDaysCount(locations);
    ReportedDaysOrder(locations);
  }

  /** One row of `getRoutePerformance` without the speed aggregates. */
  datatype RoutePerformance = RoutePerformance(routeId: int, routeNumber: string, routeName: string, buses: int, gpsPoints: int)

  function OnRouteOf(t: Tables, routeId: int): Location -> bool
  {
    (l: Location) => l.busId in t.buses && t.buses[l.busId].routeId == routeId
  }

  /** `COUNT(DISTINCT b.bus_id)` and `COUNT(dl.location_id)` of one route: its buses, and the
      location rows of those buses. */
  function PerformanceOf(t: Tables, routeId: int, r: Route): RoutePerformance
  {
    RoutePerformance(routeId, r.routeNumber, r.routeName,
                     |set k | k in t.buses && t.buses[k].routeId == routeId|,
                     |Filter(t.locations, OnRouteOf(t, routeId))|)
  }

  function Performances(t: Tables, rows: seq<(int, Route)>): (r: seq<RoutePerformance>)
    ensures |r| == |rows| && forall i :: 0 <= i < |r| ==> r[i] == PerformanceOf(t, rows[i].0, rows[i].1)
  {
    if rows == [] then [] else [PerformanceOf(t, rows[0].0, rows[0].1)] + Performances(t, rows[1..])
  }

  /** `ORDER BY gps_points DESC` */
  predicate MostPointsFirst(a: RoutePerformance, b: RoutePerformance)
  {
    a.gpsPoints >= b.gpsPoints
  }

  lemma MostPointsFirstIsTotalPreorder()
    ensures TotalPreorder(MostPointsFirst)
  {
  }

  /** `getRoutePerformance`: every route, active or not. */
  function RoutePerformances(t: Tables): seq<RoutePerformance>
  {
    MostPointsFirstIsTotalPreorder();
    SortBy(Performances(t, Rows(t.routes)), MostPointsFirst)
  }

  /** One row per route, in non-increasing GPS-point order. */
  lemma RoutePerformancesOrder(t: Tables)
    ensures var r := RoutePerformances(t);
      && |r| == |t.routes|
      && (forall i, j :: 0 <= i < j < |r| ==> r[i].gpsPoints >= r[j].gpsPoints)
  {
    MostPointsFirstIsTotalPreorder();
    var r := RoutePerformances(t);
    forall i, j | 0 <= i < j < |r| ensures r[i].gpsPoints >= r[j].gpsPoints {
      assert MostPointsFirst(r[i], r[j]);
    }
  }

  /** Each row is a stored route with its own counts. */
  lemma RoutePerformanceRow(t: Tables, i: int)
    requires 0 <= i < |RoutePerformances(t)|
    ensures var x := RoutePerformances(t)[i];
      x.routeId in t.routes && x == PerformanceOf(t, x.routeId, t.routes[x.routeId])
  {
    MostPointsFirstIsTotalPreorder();
    var p := Performances(t, Rows(t.routes));
    var x := RoutePerformances(t)[i];
    SortedMember(p, MostPointsFirst, x);
    PerformanceFromRow(t, t.routes, x);
  }

  /** Every stored route has its row, with its own counts. */
  lemma RoutePerformanceComplete(t: Tables, k: int)
    requires k in t.routes
    ensures PerformanceOf(t, k, t.routes[k]) in RoutePerformances(t)
  {
    MostPointsFirstIsTotalPreorder();
    var rows := Rows(t.routes);
    var p := Performances(t, rows);
    var j :| 0 <= j < |rows| && rows[j] == (k, t.routes[k]);
    assert p[j] == PerformanceOf(t, k, t.routes[k]);
    assert p[j] in multiset(p);
    assert multiset(RoutePerformances(t)) == multiset(p);
  }

  /** No route has two rows: with the row count and completeness, each route appears exactly once. */
  lemma RoutePerformancesDistinct(t: Tables)
    ensures var r := RoutePerformances(t);
      forall i, j :: 0 <= i < j < |r| ==> r[i].routeId != r[j].routeId
  {
    MostPointsFirstIsTotalPreorder();
    var r := RoutePerformances(t);
    var rows := Rows(t.routes);
    var p := Performances(t, rows);
    assert forall a, b :: 0 <= a < b < |p| ==> p[a] != p[b] by {
      forall a, b | 0 <= a < b < |p| ensures p[a] != p[b] {
        assert p[a].routeId == rows[a].0 && p[b].routeId == rows[b].0;
      }
    }
    forall i, j | 0 <= i < j < |r| ensures r[i].routeId != r[j].routeId {
      if r[i].routeId == r[j].routeId {
        RoutePerformanceRow(t, i);
        RoutePerformanceRow(t, j);
        DuplicateCount(r, i, j);
        DistinctMultiplicity(p, r[i]);
        assert false;
      }
    }
  }

  /** A row computed from a stored route carries that route's key and counts. */
  lemma PerformanceFromRow(t: Tables, routes: map<int, Route>, x: RoutePerformance)
    requires x in Performances(t, Rows(routes))
    ensures x.routeId in routes && x == PerformanceOf(t, x.routeId, routes[x.routeId])
  {
    var rows := Rows(routes);
    var p := Performances(t, rows);
    var k :| 0 <= k < |p| && p[k] == x;
    assert x == PerformanceOf(t, rows[k].0, rows[k].1);
  }

  /** A route none of whose buses exist reports no GPS points. */
  lemma RouteWithoutBusesHasNoPoints(t: Tables, routeId: int, r: Route)
    requires forall k :: k in t.buses ==> t.buses[k].routeId != routeId
    ensures PerformanceOf(t, routeId, r).buses == 0 && PerformanceOf(t, routeId, r).gpsPoints == 0
  {
    var s := set k | k in t.buses && t.buses[k].routeId == routeId;
    assert forall y :: y !in s;
    NoElementEmpty(s);
  }
}
