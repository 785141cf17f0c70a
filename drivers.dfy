/** Driver-side reads and the bus assignment (3DNA/backend/api/drivers.php). */
module Drivers {
  import opened Wrappers
  import opened PhpValues
  import opened Sequences
  import opened Schema

  /** The buses whose `driver_id` equals the parameter; a NULL parameter equals nothing. */
  function BusesOf(buses: map<int, Bus>, key: Option<int>): set<int>
  {
    set k | k in buses && key.Some? && buses[k].driverId == key
  }

  /** One grouped row of `getAssignedBus`: the bus, its route and status (LEFT JOIN, so
      possibly absent) and `COUNT(s.stop_id)` over the stops of its route. */
  datatype Assignment = Assignment(
    busId: int, bus: Bus, route: Option<Route>, status: Option<BusStatus>, totalStops: int)

  /** `COUNT(s.stop_id)`: the stops joined through `r.route_id`, so none when the route is missing. */
  function TotalStops(t: Tables, routeId: int): int
  {
    if routeId in t.routes then StopCount(t.stops, routeId) else 0
  }

  /** `getAssignedBus($_GET['user_id'] ?? 0)`: the first group in bus-id order. */
  function AssignedBus(t: Tables, query: Input): Reply<Assignment>
  {
    var ks := BusesOf(t.buses, SqlInt(Field(query, "user_id", Int(0))));
    if ks == {} then Failure("No bus assigned to this driver")
    else
      var k := MinOf(ks);
      var b := t.buses[k];
      Success("Bus assignment retrieved",
              Assignment(k, b,
                         if b.routeId in t.routes then Some(t.routes[b.routeId]) else None,
                         if k in t.busStatus then Some(t.busStatus[k]) else None,
                         TotalStops(t, b.routeId)))
  }

  /** The lookup fails exactly when the driver has no bus; otherwise it reports the
      lowest-numbered of their buses, with its route, status and stop count. */
  lemma AssignedBusSpec(t: Tables, query: Input)
    ensures var key := SqlInt(Field(query, "user_id", Int(0)));
      var r := AssignedBus(t, query);
      && (r.Failure? <==> key.None? || forall k :: k in t.buses ==> t.buses[k].driverId != key)
      && (r.Failure? ==> r.message == "No bus assigned to this driver")
      && (r.Success? ==> (
           && r.message == "Bus assignment retrieved"
           && r.value.busId in t.buses && r.value.bus == t.buses[r.value.busId]
           && key.Some? && r.value.bus.driverId == key
           && (forall k :: k in t.buses && t.buses[k].driverId == key ==> r.value.busId <= k)
           && (r.value.bus.routeId in t.routes ==>
                 r.value.route == Some(t.routes[r.value.bus.routeId])
                 && r.value.totalStops == StopCount(t.stops, r.value.bus.routeId))
           && (r.value.bus.routeId !in t.routes ==> r.value.route == None && r.value.totalStops == 0)
           && (r.value.busId in t.busStatus ==> r.value.status == Some(t.busStatus[r.value.busId]))
           && (r.value.busId !in t.busStatus ==> r.value.status == None)))
  {
    var key := SqlInt(Field(query, "user_id", Int(0)));
    var ks := BusesOf(t.buses, key);
    if ks == {} {
      forall k | k in t.buses && key.Some? ensures t.buses[k].driverId != key {
        assert k !in ks;
      }
    } else {
      var k := PickOne(ks);
      assert t.buses[k].driverId == key;
      forall j | j in t.buses && t.buses[j].driverId == key ensures MinOf(ks) <= j {
        assert j in ks;
      }
    }
  }

  /** `UPDATE buses SET driver_id = ? WHERE bus_id = ?` */
  function SetDriver(buses: map<int, Bus>, key: Option<int>, driver: Option<int>): map<int, Bus>
  {
    UpdateWhere(buses, key, (b: Bus) => b.(driverId := driver))
  }

  method AssignBusToDriver(db: Database, input: Input) returns (r: Reply<()>)
    requires db.Valid()
    modifies db
    ensures db.Valid()
    ensures var driverId := Field(input, "driver_id", Str(""));
            var busId := Field(input, "bus_id", Str(""));
            && (r.Failure? <==> Empty(driverId) || Empty(busId))
            && (r.Failure? ==> r.message == "Driver ID and Bus ID required" && db.Snapshot() == old(db.Snapshot()))
            && (r.Success? ==> r.message == "Bus assigned to driver successfully" && db.Snapshot() == old(db.Snapshot()).(
                  buses := SetDriver(old(db.buses), SqlInt(busId), SqlInt(driverId))))
  {
    var driverId := Field(input, "driver_id", Str(""));
    var busId := Field(input, "bus_id", Str(""));
    if Empty(driverId) || Empty(busId) {
      return Failure("Driver ID and Bus ID required");
    }
    db.buses := SetDriver(db.buses, SqlInt(busId), SqlInt(driverId));
    r := Success("Bus assigned to driver successfully", ());
  }

  /** After bus `b` is assigned to driver `d`, the driver's lookup succeeds and reports `b`
      or a lower-numbered bus the driver already had; other drivers lose at most bus `b`. */
  lemma LookupAfterAssign(t: Tables, b: int, d: int, e: int)
    requires b in t.buses && e != d
    ensures var t2 := t.(buses := SetDriver(t.buses, Some(b), Some(d)));
      var r := AssignedBus(t2, map["user_id" := Int(d)]);
      && r.Success? && r.value.busId <= b
      && (r.value.busId == b || t.buses[r.value.busId].driverId == Some(d))
      && BusesOf(t2.buses, Some(e)) == BusesOf(t.buses, Some(e)) - {b}
  {
    var t2 := t.(buses := SetDriver(t.buses, Some(b), Some(d)));
    var q := map["user_id" := Int(d)];
    assert SqlInt(Field(q, "user_id", Int(0))) == Some(d);
    AssignedBusSpec(t2, q);
    assert t2.buses[b].driverId == Some(d);
    var x := BusesOf(t2.buses, Some(e));
    var y := BusesOf(t.buses, Some(e)) - {b};
    assert forall k :: k in x <==> k in y;
  }

  /** `getRouteStops($_GET['bus_id'] ?? 0)` */
  function RouteStops(t: Tables, query: Input): Reply<seq<(int, Stop)>>
  {
    var key := SqlInt(Field(query, "bus_id", Int(0)));
    if key.None? || key.value !in t.buses then Failure("Bus not found")
    else Success("Route stops retrieved", StopsOfRoute(t.stops, Some(t.buses[key.value].routeId)))
  }

  /** An unknown bus is refused; a known one gets exactly the stops of its route, once each,
      in stop order. */
  lemma RouteStopsSpec(t: Tables, query: Input)
    ensures var key := SqlInt(Field(query, "bus_id", Int(0)));
      var r := RouteStops(t, query);
      && (r.Failure? <==> key.None? || key.value !in t.buses)
      && (r.Failure? ==> r.message == "Bus not found")
      && (r.Success? ==> (
           && (forall p: (int, Stop) :: multiset(r.value)[p] ==
                 if p.0 in t.stops && t.stops[p.0] == p.1 && p.1.routeId == t.buses[key.value].routeId then 1 else 0)
           && (forall i, j :: 0 <= i < j < |r.value| ==> r.value[i].1.stopNumber <= r.value[j].1.stopNumber)))
  {
    var key := SqlInt(Field(query, "bus_id", Int(0)));
    if key.Some? && key.value in t.buses {
      StopsOfRouteSpec(t.stops, Some(t.buses[key.value].routeId));
    }
  }

  /** `getCurrentStatus($_GET['bus_id'] ?? 0)` */
  function CurrentStatus(t: Tables, query: Input): (r: Reply<BusStatus>)
    ensures var key := SqlInt(Field(query, "bus_id", Int(0)));
      && (r.Failure? <==> key.None? || key.value !in t.busStatus)
      && (r.Failure? ==> r.message == "Bus status not found")
      && (r.Success? ==> r.message == "Bus status retrieved" && r.value == t.busStatus[key.value])
  {
    var key := SqlInt(Field(query, "bus_id", Int(0)));
    if key.None? || key.value !in t.busStatus then Failure("Bus status not found")
    else Success("Bus status retrieved", t.busStatus[key.value])
  }
}
