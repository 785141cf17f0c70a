/** Route administration and stop listings (3DNA/backend/api/routes.php). */
module Routes {
  import opened Wrappers
  import opened PhpValues
  import opened Sequences
  import opened Schema

  /** One grouped row `r.*, COUNT(s.stop_id) AS stop_count`. */
  datatype RouteSummary = RouteSummary(routeId: int, route: Route, stopCount: int)

  function Summaries(rows: seq<(int, Route)>, stops: map<int, Stop>): (r: seq<RouteSummary>)
    ensures |r| == |rows|
    ensures forall i :: 0 <= i < |r| ==> r[i] == RouteSummary(rows[i].0, rows[i].1, StopCount(stops, rows[i].0))
  {
    if rows == [] then []
    else [RouteSummary(rows[0].0, rows[0].1, StopCount(stops, rows[0].0))] + Summaries(rows[1..], stops)
  }

  predicate ActiveRoute(p: (int, Route))
  {
    p.1.isActive
  }

  /** `ORDER BY r.route_number` */
  predicate ByRouteNumber(a: (int, Route), b: (int, Route))
  {
    StrLe(a.1.routeNumber, b.1.routeNumber)
  }

  lemma ByRouteNumberIsTotalPreorder()
    ensures TotalPreorder(ByRouteNumber)
  {
    forall a: (int, Route), b: (int, Route) ensures ByRouteNumber(a, b) || ByRouteNumber(b, a) {
      StrLeTotal(a.1.routeNumber, b.1.routeNumber);
    }
    forall a: (int, Route), b: (int, Route), c: (int, Route) | ByRouteNumber(a, b) && ByRouteNumber(b, c)
      ensures ByRouteNumber(a, c)
    {
      StrLeTransitive(a.1.routeNumber, b.1.routeNumber, c.1.routeNumber);
    }
  }

  /** The active routes in route-number order; the grouping is by key, so the order of
      rows with equal numbers is the sort's. */
  function ActiveInOrder(routes: map<int, Route>): seq<(int, Route)>
  {
    ByRouteNumberIsTotalPreorder();
    SortBy(Filter(Rows(routes), ActiveRoute), ByRouteNumber)
  }

  /** `listRoutes` */
  function ListRoutes(routes: map<int, Route>, stops: map<int, Stop>): seq<RouteSummary>
  {
    Summaries(ActiveInOrder(routes), stops)
  }

  /** The listing's rows before grouping: every active route exactly once, no inactive one,
      in route-number order. */
  lemma ActiveInOrderSpec(routes: map<int, Route>)
    ensures var s := ActiveInOrder(routes);
      && (forall p: (int, Route) :: multiset(s)[p] == if p.0 in routes && routes[p.0] == p.1 && p.1.isActive then 1 else 0)
      && (forall i, j :: 0 <= i < j < |s| ==> StrLe(s[i].1.routeNumber, s[j].1.routeNumber))
  {
    ByRouteNumberIsTotalPreorder();
    var f := Filter(Rows(routes), ActiveRoute);
    var s := SortBy(f, ByRouteNumber);
    assert s == ActiveInOrder(routes);
    forall p: (int, Route) ensures multiset(s)[p] == if p.0 in routes && routes[p.0] == p.1 && p.1.isActive then 1 else 0 {
      FilterRows(routes, ActiveRoute, p);
    }
    forall i, j | 0 <= i < j < |s| ensures StrLe(s[i].1.routeNumber, s[j].1.routeNumber) {
      assert ByRouteNumber(s[i], s[j]);
    }
  }

  /** Each listed route is a stored active route, with the number of its stops. */
  lemma ListedRoute(routes: map<int, Route>, stops: map<int, Stop>, i: int)
    requires 0 <= i < |ListRoutes(routes, stops)|
    ensures var x := ListRoutes(routes, stops)[i];
      && x.routeId in routes && routes[x.routeId] == x.route && x.route.isActive
      && x.stopCount == |set s | s in stops && stops[s].routeId == x.routeId|
  {
    var s := ActiveInOrder(routes);
    ActiveInOrderSpec(routes);
    assert multiset(s)[s[i]] > 0;
  }

  lemma ActiveInOrderHas(routes: map<int, Route>, k: int)
    requires k in routes && routes[k].isActive
    ensures (k, routes[k]) in ActiveInOrder(routes)
  {
    var s := ActiveInOrder(routes);
    FilterRows(routes, ActiveRoute, (k, routes[k]));
    ByRouteNumberIsTotalPreorder();
    assert multiset(s) == multiset(Filter(Rows(routes), ActiveRoute));
    assert (k, routes[k]) in multiset(s);
  }

  /** Every active route is listed. */
  lemma ActiveRouteListed(routes: map<int, Route>, stops: map<int, Stop>, k: int)
    requires k in routes && routes[k].isActive
    ensures exists i :: 0 <= i < |ListRoutes(routes, stops)| && ListRoutes(routes, stops)[i].routeId == k
  {
    var s := ActiveInOrder(routes);
    ActiveInOrderHas(routes, k);
    var i :| 0 <= i < |s| && s[i] == (k, routes[k]);
    SummaryKey(s, stops, i);
    assert Summaries(s, stops) == ListRoutes(routes, stops);
  }

  lemma SummaryKey(rows: seq<(int, Route)>, stops: map<int, Stop>, i: int)
    requires 0 <= i < |rows|
    ensures 0 <= i < |Summaries(rows, stops)| && Summaries(rows, stops)[i].routeId == rows[i].0
  {
  }

  /** The listing is in route-number order. */
  lemma ListRoutesOrdered(routes: map<int, Route>, stops: map<int, Stop>)
    ensures var r := ListRoutes(routes, stops);
      forall i, j :: 0 <= i < j < |r| ==> StrLe(r[i].route.routeNumber, r[j].route.routeNumber)
  {
    ActiveInOrderSpec(routes);
  }

  /** `getRoute($_GET['id'] ?? 0)` */
  function GetRoute(t: Tables, query: Input): (r: Reply<RouteSummary>)
    ensures var key := SqlInt(Field(query, "id", Int(0)));
      && (r.Failure? <==> key.None? || key.value !in t.routes)
      && (r.Failure? ==> r.message == "Route not found")
      && (r.Success? ==> (r.message == "Route retrieved" && r.value.route == t.routes[key.value]
            && r.value.routeId == key.value
            && r.value.stopCount == |set s | s in t.stops && t.stops[s].routeId == key.value|))
  {
    var key := SqlInt(Field(query, "id", Int(0)));
    if key.None? || key.value !in t.routes then Failure("Route not found")
    else Success("Route retrieved", RouteSummary(key.value, t.routes[key.value], StopCount(t.stops, key.value)))
  }

  datatype RouteCounts = RouteCounts(total: int, active: Option<int>)

  /** The routes with `is_active` set. */
  function ActiveRoutes(routes: map<int, Route>): set<int>
  {
    set k | k in routes && routes[k].isActive
  }

  /** `getRouteStats`: `SUM(is_active)` counts the active routes, and `SUM` over no rows is NULL. */
  function RouteStats(routes: map<int, Route>): RouteCounts
  {
    RouteCounts(|routes|, if |routes| == 0 then None else Some(|ActiveRoutes(routes)|))
  }

  /** `total` counts every route; `active` is NULL exactly when there are none, and otherwise
      counts the routes `listRoutes` lists. */
  lemma RouteStatsSpec(routes: map<int, Route>, stops: map<int, Stop>)
    ensures var s := RouteStats(routes);
      && s.total == |routes|
      && (s.active.None? <==> s.total == 0)
      && (s.active.Some? ==> s.active.value == |ListRoutes(routes, stops)| <= s.total)
  {
    assert |ActiveRoutes(routes)| <= |routes| by {
      var no := set k | k in routes && !routes[k].isActive;
      DisjointUnion(ActiveRoutes(routes), no, routes.Keys);
    }
    ActiveCount(routes, stops);
  }

  /** The listing has one row per active route. */
  lemma ActiveCount(routes: map<int, Route>, stops: map<int, Stop>)
    ensures |ListRoutes(routes, stops)| == |ActiveRoutes(routes)|
  {
    FilterRowsCount(routes, ActiveRoute);
    assert MatchingKeys(routes, ActiveRoute) == ActiveRoutes(routes);
    ByRouteNumberIsTotalPreorder();
    assert |ActiveInOrder(routes)| == |Filter(Rows(routes), ActiveRoute)|;
  }

  /** `getStops($_GET['id'] ?? 0)`: never fails, an unknown route has no stops. */
  function GetStops(stops: map<int, Stop>, query: Input): Reply<seq<(int, Stop)>>
  {
    Success("Stops retrieved", StopsOfRoute(stops, SqlInt(Field(query, "id", Int(0)))))
  }

  lemma GetStopsSpec(stops: map<int, Stop>, query: Input)
    ensures var key := SqlInt(Field(query, "id", Int(0)));
      var r := GetStops(stops, query);
      && r.Success? && r.message == "Stops retrieved"
      && (forall p: (int, Stop) :: multiset(r.value)[p] ==
            if p.0 in stops && stops[p.0] == p.1 && Some(p.1.routeId) == key then 1 else 0)
      && (forall i, j :: 0 <= i < j < |r.value| ==> r.value[i].1.stopNumber <= r.value[j].1.stopNumber)
  {
    StopsOfRouteSpec(stops, SqlInt(Field(query, "id", Int(0))));
  }

  /** The row `createRoute` inserts: distance and time 0 when absent, the route active. */
  function RouteFromInput(input: Input): Route
  {
    Route(StringOf(Field(input, "route_number", Str(""))), StringOf(Field(input, "route_name", Str(""))),
          StringOf(Field(input, "start_location", Str(""))), StringOf(Field(input, "end_location", Str(""))),
          IntCast(Field(input, "distance_km", Int(0))), IntCast(Field(input, "estimated_time_minutes", Int(0))),
          true)
  }

  lemma CreatedRouteDefaults(input: Input)
    ensures RouteFromInput(input).isActive
    ensures "distance_km" !in input ==> RouteFromInput(input).distanceKm == 0
    ensures "estimated_time_minutes" !in input ==> RouteFromInput(input).estimatedTimeMinutes == 0
  {
  }

  method CreateRoute(db: Database, input: Input) returns (r: Reply<int>)
    requires db.Valid()
    modifies db
    ensures db.Valid()
    ensures var missing := Empty(Field(input, "route_number", Str(""))) || Empty(Field(input, "route_name", Str("")));
      && (r.Failure? <==> missing)
      && (r.Failure? ==> r.message == "Required fields missing" && db.Snapshot() == old(db.Snapshot()))
      && (r.Success? ==> (
            && r.message == "Route created successfully" && r.value == old(db.nextRouteId) && r.value !in old(db.routes)
            && db.Snapshot() == old(db.Snapshot()).(
                 routes := old(db.routes)[r.value := RouteFromInput(input)], nextRouteId := r.value + 1)))
  {
    if Empty(Field(input, "route_number", Str(""))) || Empty(Field(input, "route_name", Str(""))) {
      return Failure("Required fields missing");
    }
    var id := db.InsertRoute(RouteFromInput(input));
    r := Success("Route created successfully", id);
  }

  /** `deleteRoute($_GET['id'] ?? 0)`: only the route row goes; its stops and the buses on it stay. */
  method DeleteRoute(db: Database, query: Input) returns (r: Reply<()>)
    requires db.Valid()
    modifies db
    ensures db.Valid()
    ensures r == Success("Route deleted successfully", ())
    ensures db.Snapshot() == old(db.Snapshot()).(routes := DeleteWhere(old(db.routes), SqlInt(Field(query, "id", Int(0)))))
  {
    db.routes := DeleteWhere(db.routes, SqlInt(Field(query, "id", Int(0))));
    r := Success("Route deleted successfully", ());
  }

  /** A created route shows up in the route listing. */
  lemma CreatedRouteListed(routes: map<int, Route>, stops: map<int, Stop>, input: Input, id: int)
    requires id !in routes
    ensures var r := ListRoutes(routes[id := RouteFromInput(input)], stops);
      exists i :: 0 <= i < |r| && r[i].routeId == id
  {
    ActiveRouteListed(routes[id := RouteFromInput(input)], stops, id);
  }
}
