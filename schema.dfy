/** The relational store the endpoints share: one map from primary key to row per keyed
    table, an append-only sequence per history table, and the auto-increment counters. */
module Schema {
  import opened Wrappers
  import opened Sequences

  /** A row of `buses`. */
  datatype Bus = Bus(
    busNumber: string, registrationPlate: string, routeId: int, driverId: Option<int>,
    capacity: int, model: string, color: string, status: string)

  /** A row of `bus_status`, keyed by the bus it describes: the latest known position and trip flag. */
  datatype BusStatus = BusStatus(
    currentLatitude: Option<int>, currentLongitude: Option<int>, currentPassengers: int,
    isRunning: bool, lastUpdate: Option<int>)

  /** A row of `users`; `passwordHash` is whatever `password_hash` produced. */
  datatype User = User(
    userType: string, email: string, passwordHash: string, fullName: string,
    phone: Option<string>, licenseNumber: Option<string>, isActive: bool)

  /** A row of `routes`. */
  datatype Route = Route(
    routeNumber: string, routeName: string, startLocation: string, endLocation: string,
    distanceKm: int, estimatedTimeMinutes: int, isActive: bool)

  /** A row of `stops`: one numbered stop of one route. */
  datatype Stop = Stop(routeId: int, stopNumber: int, stopName: string)

  /** A row of `driver_locations`, never changed once appended. */
  datatype Location = Location(
    id: int, busId: int, driverId: int, latitude: int, longitude: int,
    speedKmh: int, accuracyMeters: int, createdAt: int)

  /** A row of `activity_logs`, never changed once appended. */
  datatype ActivityLog = ActivityLog(
    id: int, userId: Option<int>, actionType: string, entityType: Option<string>,
    entityId: Option<int>, description: string, createdAt: int)

  /** The whole content of the store at one moment. */
  datatype Tables = Tables(
    buses: map<int, Bus>, busStatus: map<int, BusStatus>, users: map<int, User>,
    routes: map<int, Route>, stops: map<int, Stop>,
    locations: seq<Location>, logs: seq<ActivityLog>,
    nextBusId: int, nextUserId: int, nextRouteId: int, nextLocationId: int, nextLogId: int)

  /** Every auto-increment counter is above each id already handed out, so the next insert
      gets a fresh key. A `bus_status` row is keyed by a bus id, so it sits below `nextBusId` too. */
  ghost predicate WellKeyed(t: Tables)
  {
    && (forall k :: k in t.buses ==> k < t.nextBusId)
    && (forall k :: k in t.busStatus ==> k < t.nextBusId)
    && (forall k :: k in t.users ==> k < t.nextUserId)
    && (forall k :: k in t.routes ==> k < t.nextRouteId)
    && (forall i :: 0 <= i < |t.locations| ==> t.locations[i].id < t.nextLocationId)
    && (forall i :: 0 <= i < |t.logs| ==> t.logs[i].id < t.nextLogId)
  }

  /** Every bus has its status row (bus creation writes both; nothing else adds or removes buses
      except deletion, which leaves an orphaned status row behind). */
  predicate BusesHaveStatus(t: Tables)
  {
    t.buses.Keys <= t.busStatus.Keys
  }

  /** `UPDATE table SET ... WHERE id = ?`: the row the parameter selects, if it exists, becomes
      `f` of itself; a parameter that selects no row leaves the table as it was. */
  function UpdateWhere<V>(m: map<int, V>, key: Option<int>, f: V -> V): (r: map<int, V>)
    ensures r.Keys == m.Keys
    ensures forall k :: k in m && Some(k) != key ==> r[k] == m[k]
    ensures forall k :: k in m && Some(k) == key ==> r[k] == f(m[k])
  {
    if key.Some? && key.value in m then m[key.value := f(m[key.value])] else m
  }

  /** `DELETE FROM table WHERE id = ?`. */
  function DeleteWhere<V>(m: map<int, V>, key: Option<int>): (r: map<int, V>)
    ensures r.Keys == if key.Some? then m.Keys - {key.value} else m.Keys
    ensures forall k :: k in r ==> r[k] == m[k]
  {
    if key.Some? then m - {key.value} else m
  }

  lemma {:induction false} UpdateWhereIdempotent<V>(m: map<int, V>, key: Option<int>, f: V -> V)
    requires forall v :: f(f(v)) == f(v)
    ensures UpdateWhere(UpdateWhere(m, key, f), key, f) == UpdateWhere(m, key, f)
  {
    if key.Some? && key.value in m {
      var k := key.value;
      assert UpdateWhere(m, key, f)[k] == f(m[k]);
    }
  }

  /** The reply to a query the database refuses; the driver's own error text is not modelled. */
  const DatabaseError: string := "Database error"

  /** Two disjoint sets covering a third add up to its size: rows that match a condition and
      rows that do not account for every row of the table. */
  lemma DisjointUnion(a: set<int>, b: set<int>, c: set<int>)
    requires forall k :: k in c <==> k in a || k in b
    requires forall k :: k in a ==> k !in b
    ensures |a| + |b| == |c|
  {
    assert forall k :: k in a + b <==> k in c;
    assert a + b == c;
    assert forall k :: k in a * b <==> k in {};
    assert a * b == {};
  }

  /** `COUNT(s.stop_id)` over the stops of one route. */
  function StopCount(stops: map<int, Stop>, routeId: int): nat
  {
    |set s | s in stops && stops[s].routeId == routeId|
  }

  /** `stop_number` ascending. */
  predicate ByStopNumber(a: (int, Stop), b: (int, Stop))
  {
    a.1.stopNumber <= b.1.stopNumber
  }

  lemma ByStopNumberIsTotalPreorder()
    ensures TotalPreorder(ByStopNumber)
  {
  }

  function OnRoute(key: Option<int>): ((int, Stop)) -> bool
  {
    (p: (int, Stop)) => Some(p.1.routeId) == key
  }

  /** `SELECT * FROM stops WHERE route_id = ? ORDER BY stop_number ASC`, each row with its id. */
  function StopsOfRoute(stops: map<int, Stop>, key: Option<int>): seq<(int, Stop)>
  {
    ByStopNumberIsTotalPreorder();
    SortBy(Filter(Rows(stops), OnRoute(key)), ByStopNumber)
  }

  /** Every stop of the route exactly once, no stop of another route, in stop order. */
  lemma StopsOfRouteSpec(stops: map<int, Stop>, key: Option<int>)
    ensures var r := StopsOfRoute(stops, key);
      && (forall p: (int, Stop) :: multiset(r)[p] == if p.0 in stops && stops[p.0] == p.1 && Some(p.1.routeId) == key then 1 else 0)
      && (forall i, j :: 0 <= i < j < |r| ==> r[i].1.stopNumber <= r[j].1.stopNumber)
  {
    ByStopNumberIsTotalPreorder();
    var f := Filter(Rows(stops), OnRoute(key));
    var r := SortBy(f, ByStopNumber);
    assert r == StopsOfRoute(stops, key);
    forall p: (int, Stop) ensures multiset(r)[p] == if p.0 in stops && stops[p.0] == p.1 && Some(p.1.routeId) == key then 1 else 0 {
      RowsMultiplicity(stops, p);
      assert multiset(r)[p] == multiset(f)[p];
    }
    forall i, j | 0 <= i < j < |r| ensures r[i].1.stopNumber <= r[j].1.stopNumber {
      assert ByStopNumber(r[i], r[j]);
    }
  }

  /** No two users share an email. */
  predicate UniqueEmails(users: map<int, User>)
  {
    forall a, b :: a in users && b in users && users[a].email == users[b].email ==> a == b
  }

  /** No two users share a phone number. */
  predicate UniquePhones(users: map<int, User>)
  {
    forall a, b :: a in users && b in users && users[a].phone.Some? && users[a].phone == users[b].phone ==> a == b
  }

  const SecondsPerDay: int := 86400

  /** SQL `DATE(ts)` for a timestamp counted in seconds. */
  function DateOf(ts: int): int
  {
    ts / SecondsPerDay
  }

  class Database {
    var buses: map<int, Bus>
    var busStatus: map<int, BusStatus>
    var users: map<int, User>
    var routes: map<int, Route>
    var stops: map<int, Stop>
    var locations: seq<Location>
    var logs: seq<ActivityLog>
    var nextBusId: int
    var nextUserId: int
    var nextRouteId: int
    var nextLocationId: int
    var nextLogId: int

    function Snapshot(): Tables
      reads this
    {
      Tables(buses, busStatus, users, routes, stops, locations, logs,
             nextBusId, nextUserId, nextRouteId, nextLocationId, nextLogId)
    }

    ghost predicate Valid()
      reads this
    {
      WellKeyed(Snapshot())
    }

    /** An empty store whose counters start at 1, as MySQL's AUTO_INCREMENT does. */
    constructor ()
      ensures Valid()
      ensures Snapshot() == Tables(map[], map[], map[], map[], map[], [], [], 1, 1, 1, 1, 1)
    {
      buses, busStatus, users, routes, stops := map[], map[], map[], map[], map[];
      locations, logs := [], [];
      nextBusId, nextUserId, nextRouteId, nextLocationId, nextLogId := 1, 1, 1, 1, 1;
    }

    /** `INSERT INTO buses ...`; the result is `lastInsertId()`. */
    method InsertBus(b: Bus) returns (id: int)
      requires Valid()
      modifies this
      ensures Valid()
      ensures id == old(nextBusId) && id !in old(buses) && id !in old(busStatus)
      ensures Snapshot() == old(Snapshot()).(buses := old(buses)[id := b], nextBusId := id + 1)
    {
      id := nextBusId;
      buses := buses[id := b];
      nextBusId := id + 1;
    }

    /** `INSERT INTO users ...`; the result is `lastInsertId()`. */
    method InsertUser(u: User) returns (id: int)
      requires Valid()
      modifies this
      ensures Valid()
      ensures id == old(nextUserId) && id !in old(users)
      ensures Snapshot() == old(Snapshot()).(users := old(users)[id := u], nextUserId := id + 1)
    {
      id := nextUserId;
      users := users[id := u];
      nextUserId := id + 1;
    }

    /** `INSERT INTO routes ...`; the result is `lastInsertId()`. */
    method InsertRoute(rt: Route) returns (id: int)
      requires Valid()
      modifies this
      ensures Valid()
      ensures id == old(nextRouteId) && id !in old(routes)
      ensures Snapshot() == old(Snapshot()).(routes := old(routes)[id := rt], nextRouteId := id + 1)
    {
      id := nextRouteId;
      routes := routes[id := rt];
      nextRouteId := id + 1;
    }

    /** `INSERT INTO driver_locations ...` with `created_at` defaulting to `now`. */
    method AppendLocation(busId: int, driverId: int, latitude: int, longitude: int,
                          speedKmh: int, accuracyMeters: int, now: int) returns (id: int)
      requires Valid()
      modifies this
      ensures Valid()
      ensures id == old(nextLocationId)
      ensures forall i :: 0 <= i < |old(locations)| ==> old(locations)[i].id != id
      ensures Snapshot() == old(Snapshot()).(
        locations := old(locations) + [Location(id, busId, driverId, latitude, longitude, speedKmh, accuracyMeters, now)],
        nextLocationId := id + 1)
    {
      id := nextLocationId;
      locations := locations + [Location(id, busId, driverId, latitude, longitude, speedKmh, accuracyMeters, now)];
      nextLocationId := id + 1;
    }

    /** `INSERT INTO activity_logs ...` with `created_at` defaulting to `now`. */
    method AppendLog(userId: Option<int>, actionType: string, entityType: Option<string>,
                     entityId: Option<int>, description: string, now: int)
      requires Valid()
      modifies this
      ensures Valid()
      ensures Snapshot() == old(Snapshot()).(
        logs := old(logs) + [ActivityLog(old(nextLogId), userId, actionType, entityType, entityId, description, now)],
        nextLogId := old(nextLogId) + 1)
    {
      logs := logs + [ActivityLog(nextLogId, userId, actionType, entityType, entityId, description, now)];
      nextLogId := nextLogId + 1;
    }
  }
}
