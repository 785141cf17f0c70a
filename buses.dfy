/** Fleet mutations and counts (3DNA/backend/api/buses.php). */
module Buses {
  import opened Wrappers
  import opened PhpValues
  import opened Schema

  /** The row `createBus` inserts: the three required fields, capacity 50 and empty model and
      color when absent, no driver, status 'active'. */
  function BusFromInput(input: Input): Bus
  {
    Bus(StringOf(Field(input, "bus_number", Str(""))),
        StringOf(Field(input, "registration_plate", Str(""))),
        IntCast(Field(input, "route_id", Str(""))),
        None,
        IntCast(Field(input, "capacity", Int(50))),
        StringOf(Field(input, "model", Str(""))),
        StringOf(Field(input, "color", Str(""))),
        "active")
  }

  /** `INSERT INTO bus_status (bus_id) VALUES (?)`: every other column takes its default. */
  const FreshStatus: BusStatus := BusStatus(None, None, 0, false, None)

  /** A created bus is active and has no driver; without a capacity it seats 50. */
  lemma CreatedBusDefaults(input: Input)
    ensures BusFromInput(input).status == "active" && BusFromInput(input).driverId == None
    ensures "capacity" !in input ==> BusFromInput(input).capacity == 50
    ensures "model" !in input ==> BusFromInput(input).model == ""
  {
  }

  predicate MissingBusFields(input: Input)
  {
    Empty(Field(input, "bus_number", Str(""))) || Empty(Field(input, "registration_plate", Str("")))
      || Empty(Field(input, "route_id", Str("")))
  }

  method CreateBus(db: Database, input: Input) returns (r: Reply<int>)
    requires db.Valid()
    modifies db
    ensures db.Valid()
    ensures r.Failure? <==> MissingBusFields(input)
    ensures r.Failure? ==> r.message == "Required fields missing" && db.Snapshot() == old(db.Snapshot())
    ensures r.Success? ==> (r.message == "Bus created successfully" && r.value == old(db.nextBusId)
      && r.value !in old(db.buses) && r.value !in old(db.busStatus)
      && db.Snapshot() == old(db.Snapshot()).(
           buses := old(db.buses)[r.value := BusFromInput(input)],
           busStatus := old(db.busStatus)[r.value := FreshStatus],
           nextBusId := r.value + 1))
    ensures BusesHaveStatus(old(db.Snapshot())) ==> BusesHaveStatus(db.Snapshot())
  {
    if MissingBusFields(input) {
      return Failure("Required fields missing");
    }
    var id := db.InsertBus(BusFromInput(input));
    db.busStatus := db.busStatus[id := FreshStatus];
    r := Success("Bus created successfully", id);
  }

  /** `UPDATE bus_status SET current_passengers = ? WHERE bus_id = ?` */
  function SetPassengers(st: map<int, BusStatus>, key: Option<int>, n: int): map<int, BusStatus>
  {
    UpdateWhere(st, key, (s: BusStatus) => s.(currentPassengers := n))
  }

  method UpdatePassengers(db: Database, input: Input) returns (r: Reply<()>)
    requires db.Valid()
    modifies db
    ensures db.Valid()
    ensures var busId := Field(input, "bus_id", Str(""));
            && (r.Failure? <==> Empty(busId))
            && (r.Failure? ==> r.message == "Bus ID required" && db.Snapshot() == old(db.Snapshot()))
            && (r.Success? ==> r.message == "Passenger count updated" && db.Snapshot() == old(db.Snapshot()).(
                  busStatus := SetPassengers(old(db.busStatus), SqlInt(busId), IntCast(Field(input, "current_passengers", Int(0))))))
  {
    var busId := Field(input, "bus_id", Str(""));
    var n := Field(input, "current_passengers", Int(0));
    if Empty(busId) {
      return Failure("Bus ID required");
    }
    db.busStatus := SetPassengers(db.busStatus, SqlInt(busId), IntCast(n));
    r := Success("Passenger count updated", ());
  }

  /** `deleteBus`: removes only the bus row; its `bus_status` row stays behind. */
  method DeleteBus(db: Database, query: Input) returns (r: Reply<()>)
    requires db.Valid()
    modifies db
    ensures db.Valid()
    ensures r == Success("Bus deleted successfully", ())
    ensures db.Snapshot() == old(db.Snapshot()).(buses := DeleteWhere(old(db.buses), SqlInt(Field(query, "id", Int(0)))))
    ensures BusesHaveStatus(old(db.Snapshot())) ==> BusesHaveStatus(db.Snapshot())
  {
    db.buses := DeleteWhere(db.buses, SqlInt(Field(query, "id", Int(0))));
    r := Success("Bus deleted successfully", ());
  }

  datatype BusCounts = BusCounts(total: int, active: int, inactive: int)

  /** `getBusStats`: all buses, the ones whose status is exactly 'active', and the difference. */
  function BusStats(buses: map<int, Bus>): BusCounts
  {
    var total := |buses|;
    var active := |set k | k in buses && buses[k].status == "active"|;
    BusCounts(total, active, total - active)
  }

  /** `active` never exceeds `total`, and `inactive` counts every bus that is not 'active',
      paused and stopped alike. */
  lemma BusStatsSpec(buses: map<int, Bus>)
    ensures var s := BusStats(buses);
      && 0 <= s.active <= s.total == |buses|
      && s.inactive == |set k | k in buses && buses[k].status != "active"|
  {
    var yes := set k | k in buses && buses[k].status == "active";
    var no := set k | k in buses && buses[k].status != "active";
    DisjointUnion(yes, no, buses.Keys);
  }
}
