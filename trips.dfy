/** Trip start, end, pause and resume (3DNA/backend/api/trips.php). A trip's state is two
    fields written independently: `bus_status.is_running` and `buses.status`. No transition
    looks at the current state, so each one succeeds from every state. */
module Trips {
  import opened Wrappers
  import opened PhpValues
  import opened Schema

  /** `UPDATE bus_status SET is_running = ?, last_update = NOW() WHERE bus_id = ?` */
  function SetRunning(st: map<int, BusStatus>, key: Option<int>, running: bool, now: int): map<int, BusStatus>
  {
    UpdateWhere(st, key, (s: BusStatus) => s.(isRunning := running, lastUpdate := Some(now)))
  }

  /** `UPDATE buses SET status = ? WHERE bus_id = ?` */
  function SetStatus(buses: map<int, Bus>, key: Option<int>, status: string): map<int, Bus>
  {
    UpdateWhere(buses, key, (b: Bus) => b.(status := status))
  }

  /** What the two flags say about one bus; `None` where the row is missing. */
  datatype TripView = TripView(running: Option<bool>, status: Option<string>)

  function View(buses: map<int, Bus>, st: map<int, BusStatus>, k: int): TripView
  {
    TripView(if k in st then Some(st[k].isRunning) else None,
             if k in buses then Some(buses[k].status) else None)
  }

  /** The transition table keyed by the selected bus: start and end fix both flags, pause and
      resume fix only the status and keep the running flag, whatever the state before. Rows of
      other buses keep their view. */
  lemma TransitionTable(buses: map<int, Bus>, st: map<int, BusStatus>, k: int, j: int, now: int)
    requires k in buses && k in st && j != k
    ensures View(SetStatus(buses, Some(k), "active"), SetRunning(st, Some(k), true, now), k) == TripView(Some(true), Some("active"))
    ensures View(SetStatus(buses, Some(k), "stopped"), SetRunning(st, Some(k), false, now), k) == TripView(Some(false), Some("stopped"))
    ensures View(SetStatus(buses, Some(k), "paused"), st, k) == TripView(Some(st[k].isRunning), Some("paused"))
    ensures View(SetStatus(buses, Some(k), "active"), st, k) == TripView(Some(st[k].isRunning), Some("active"))
    ensures View(SetStatus(buses, Some(k), "paused"), SetRunning(st, Some(k), true, now), j) == View(buses, st, j)
  {
  }

  /** A bus paused after a start still reads as running in `bus_status` while `buses.status`
      says paused: the two flags disagree. */
  lemma PausedBusStillRunning(buses: map<int, Bus>, st: map<int, BusStatus>, k: int, now: int)
    requires k in buses && k in st
    ensures var b := SetStatus(buses, Some(k), "active");
            var s := SetRunning(st, Some(k), true, now);
            View(SetStatus(b, Some(k), "paused"), s, k) == TripView(Some(true), Some("paused"))
  {
  }

  /** Writing the same status twice is writing it once, so pause and resume are idempotent. */
  lemma SetStatusIdempotent(buses: map<int, Bus>, key: Option<int>, status: string)
    ensures SetStatus(SetStatus(buses, key, status), key, status) == SetStatus(buses, key, status)
  {
    UpdateWhereIdempotent(buses, key, (b: Bus) => b.(status := status));
  }

  /** The bus id every transition reads: `$input['bus_id'] ?? ''`. */
  function BusIdOf(input: Input): PhpValue
  {
    Field(input, "bus_id", Str(""))
  }

  method StartTrip(db: Database, input: Input, now: int) returns (r: Reply<()>)
    requires db.Valid()
    modifies db
    ensures db.Valid()
    ensures var busId := BusIdOf(input);
            var driverId := Field(input, "driver_id", Str(""));
            && (r.Failure? <==> Empty(busId) || Empty(driverId))
            && (r.Failure? ==> r.message == "Bus ID and Driver ID required" && db.Snapshot() == old(db.Snapshot()))
            && (r.Success? ==> r.message == "Trip started successfully" && db.Snapshot() == old(db.Snapshot()).(
                  busStatus := SetRunning(old(db.busStatus), SqlInt(busId), true, now),
                  buses := SetStatus(old(db.buses), SqlInt(busId), "active"),
                  logs := old(db.logs) + [ActivityLog(old(db.nextLogId), SqlInt(driverId), "trip_started", Some("bus"),
                                                      SqlInt(busId), "Trip started for bus ID " + StringOf(busId), now)],
                  nextLogId := old(db.nextLogId) + 1))
  {
    var busId := BusIdOf(input);
    var driverId := Field(input, "driver_id", Str(""));
    if Empty(busId) || Empty(driverId) {
      return Failure("Bus ID and Driver ID required");
    }
    db.busStatus := SetRunning(db.busStatus, SqlInt(busId), true, now);
    db.buses := SetStatus(db.buses, SqlInt(busId), "active");
    db.AppendLog(SqlInt(driverId), "trip_started", Some("bus"), SqlInt(busId),
                 "Trip started for bus ID " + StringOf(busId), now);
    r := Success("Trip started successfully", ());
  }

  method EndTrip(db: Database, input: Input, now: int) returns (r: Reply<()>)
    requires db.Valid()
    modifies db
    ensures db.Valid()
    ensures var busId := BusIdOf(input);
            && (r.Failure? <==> Empty(busId))
            && (r.Failure? ==> r.message == "Bus ID required" && db.Snapshot() == old(db.Snapshot()))
            && (r.Success? ==> r.message == "Trip ended successfully" && db.Snapshot() == old(db.Snapshot()).(
                  busStatus := SetRunning(old(db.busStatus), SqlInt(busId), false, now),
                  buses := SetStatus(old(db.buses), SqlInt(busId), "stopped")))
  {
    var busId := BusIdOf(input);
    if Empty(busId) {
      return Failure("Bus ID required");
    }
    db.busStatus := SetRunning(db.busStatus, SqlInt(busId), false, now);
    db.buses := SetStatus(db.buses, SqlInt(busId), "stopped");
    r := Success("Trip ended successfully", ());
  }

  method PauseTrip(db: Database, input: Input) returns (r: Reply<()>)
    requires db.Valid()
    modifies db
    ensures db.Valid()
    ensures var busId := BusIdOf(input);
            && (r.Failure? <==> Empty(busId))
            && (r.Failure? ==> r.message == "Bus ID required" && db.Snapshot() == old(db.Snapshot()))
            && (r.Success? ==> r.message == "Trip paused successfully" && db.Snapshot() == old(db.Snapshot()).(
                  buses := SetStatus(old(db.buses), SqlInt(busId), "paused")))
  {
    var busId := BusIdOf(input);
    if Empty(busId) {
      return Failure("Bus ID required");
    }
    db.buses := SetStatus(db.buses, SqlInt(busId), "paused");
    r := Success("Trip paused successfully", ());
  }

  method ResumeTrip(db: Database, input: Input) returns (r: Reply<()>)
    requires db.Valid()
    modifies db
    ensures db.Valid()
    ensures var busId := BusIdOf(input);
            && (r.Failure? <==> Empty(busId))
            && (r.Failure? ==> r.message == "Bus ID required" && db.Snapshot() == old(db.Snapshot()))
            && (r.Success? ==> r.message == "Trip resumed successfully" && db.Snapshot() == old(db.Snapshot()).(
                  buses := SetStatus(old(db.buses), SqlInt(busId), "active")))
  {
    var busId := BusIdOf(input);
    if Empty(busId) {
      return Failure("Bus ID required");
    }
    db.buses := SetStatus(db.buses, SqlInt(busId), "active");
    r := Success("Trip resumed successfully", ());
  }
}
