/** GPS ingestion and lookup (3DNA/backend/api/locations.php). Ingestion appends a history
    row and overwrites the position cache in `bus_status`; "current" is the newest row of a
    bus and "history" the newest rows of a bus, newest first. */
module Locations {
  import opened Wrappers
  import opened PhpValues
  import opened Schema
  import opened Sequences

  /** `UPDATE bus_status SET current_latitude = ?, current_longitude = ?, last_update = NOW() WHERE bus_id = ?` */
  function SetPosition(st: map<int, BusStatus>, key: Option<int>, lat: int, lon: int, now: int): map<int, BusStatus>
  {
    UpdateWhere(st, key, (s: BusStatus) => s.(currentLatitude := Some(lat), currentLongitude := Some(lon), lastUpdate := Some(now)))
  }

  /** The cache update touches only the position and the time: the trip flag and the passenger
      count of every row stay, and a bus without a status row gets none. */
  lemma SetPositionKeepsTripFields(st: map<int, BusStatus>, key: Option<int>, lat: int, lon: int, now: int)
    ensures var r := SetPosition(st, key, lat, lon, now);
      && r.Keys == st.Keys
      && (forall k :: k in st ==> r[k].isRunning == st[k].isRunning && r[k].currentPassengers == st[k].currentPassengers)
      && (forall k :: k in st && Some(k) == key ==> r[k].currentLatitude == Some(lat) && r[k].currentLongitude == Some(lon) && r[k].lastUpdate == Some(now))
      && (forall k :: k in st && Some(k) != key ==> r[k] == st[k])
  {
  }

  method UpdateLocation(db: Database, input: Input, now: int) returns (r: Reply<int>)
    requires db.Valid()
    modifies db
    ensures db.Valid()
    ensures var busId := Field(input, "bus_id", Str(""));
            var driverId := Field(input, "driver_id", Str(""));
            var lat := Field(input, "latitude", Str(""));
            var lon := Field(input, "longitude", Str(""));
            var speed := Field(input, "speed_kmh", Int(0));
            var accuracy := Field(input, "accuracy_meters", Int(0));
            && (r.Failure? <==> Empty(busId) || Empty(driverId) || Empty(lat) || Empty(lon))
            && (r.Failure? ==> r.message == "Required fields missing" && db.Snapshot() == old(db.Snapshot()))
            && (r.Success? ==> (r.message == "Location updated successfully" && r.value == old(db.nextLocationId)
                && db.Snapshot() == old(db.Snapshot()).(
                  locations := old(db.locations) + [Location(r.value, IntCast(busId), IntCast(driverId), IntCast(lat), IntCast(lon),
                                                              IntCast(speed), IntCast(accuracy), now)],
                  nextLocationId := r.value + 1,
                  busStatus := SetPosition(old(db.busStatus), SqlInt(busId), IntCast(lat), IntCast(lon), now))))
  {
    var busId := Field(input, "bus_id", Str(""));
    var driverId := Field(input, "driver_id", Str(""));
    var lat := Field(input, "latitude", Str(""));
    var lon := Field(input, "longitude", Str(""));
    var speed := Field(input, "speed_kmh", Int(0));
    var accuracy := Field(input, "accuracy_meters", Int(0));
    if Empty(busId) || Empty(driverId) || Empty(lat) || Empty(lon) {
      return Failure("Required fields missing");
    }
    var id := db.AppendLocation(IntCast(busId), IntCast(driverId), IntCast(lat), IntCast(lon),
                                IntCast(speed), IntCast(accuracy), now);
    db.busStatus := SetPosition(db.busStatus, SqlInt(busId), IntCast(lat), IntCast(lon), now);
    r := Success("Location updated successfully", id);
  }

  /** ORDER BY created_at DESC */
  predicate NewestFirst(a: Location, b: Location)
  {
    a.createdAt >= b.createdAt
  }

  lemma NewestFirstIsTotalPreorder()
    ensures TotalPreorder(NewestFirst)
  {
  }

  /** `WHERE bus_id = ?` */
  function OfBus(key: Option<int>): Location -> bool
  {
    (l: Location) => Some(l.busId) == key
  }

  /** `SELECT * FROM driver_locations WHERE bus_id = ? ORDER BY created_at DESC LIMIT n` */
  function Newest(locations: seq<Location>, key: Option<int>, n: nat): seq<Location>
  {
    NewestFirstIsTotalPreorder();
    Take(SortBy(Filter(locations, OfBus(key)), NewestFirst), n)
  }

  /** The bus a GET request names: `$_GET['bus_id'] ?? 0`. */
  function BusKey(query: Input): Option<int>
  {
    SqlInt(Field(query, "bus_id", Int(0)))
  }

  /** `getLocationHistory` with the limit bound as `p`: `$_GET['limit'] ?? 50`, cast with `(int)`;
      MySQL refuses a LIMIT that is not an unsigned integer literal. */
  function LocationHistoryWith(p: ParamType, locations: seq<Location>, query: Input): Reply<seq<Location>>
  {
    var limit := IntCast(Field(query, "limit", Int(50)));
    match LimitCount(LimitText(p, limit))
    case None => Failure(DatabaseError)
    case Some(n) => Success("History retrieved", Newest(locations, BusKey(query), n))
  }

  /** `getLocationHistory` with the limit bound as an integer, as the query means it to be. */
  function LocationHistory(locations: seq<Location>, query: Input): Reply<seq<Location>>
  {
    LocationHistoryWith(IntParam, locations, query)
  }

  /** `getCurrentLocation`: the first row of the same query with LIMIT 1. */
  function CurrentLocation(locations: seq<Location>, query: Input): Reply<Location>
  {
    var rows := Newest(locations, BusKey(query), 1);
    if rows == [] then Failure("Location not found") else Success("Location retrieved", rows[0])
  }

  lemma NewestSpec(locations: seq<Location>, key: Option<int>, n: nat)
    ensures var rows := Newest(locations, key, n);
      var matching := Filter(locations, OfBus(key));
      && |rows| == Min(n, |matching|)
      && (forall i :: 0 <= i < |rows| ==> rows[i] in locations && Some(rows[i].busId) == key)
      && (forall i, j :: 0 <= i < j < |rows| ==> rows[i].createdAt >= rows[j].createdAt)
      && (forall i, l :: 0 <= i < |rows| && l in multiset(matching) - multiset(rows) ==> l.createdAt <= rows[i].createdAt)
  {
    NewestSize(locations, key, n);
    NewestMembers(locations, key, n);
    NewestSorted(locations, key, n);
    NewestTop(locations, key, n);
  }

  lemma NewestSize(locations: seq<Location>, key: Option<int>, n: nat)
    ensures |Newest(locations, key, n)| == Min(n, |Filter(locations, OfBus(key))|)
  {
    NewestFirstIsTotalPreorder();
    TopK(Filter(locations, OfBus(key)), NewestFirst, n);
  }

  lemma NewestMembers(locations: seq<Location>, key: Option<int>, n: nat)
    ensures var rows := Newest(locations, key, n);
      forall i :: 0 <= i < |rows| ==> rows[i] in locations && Some(rows[i].busId) == key
  {
    var matching := Filter(locations, OfBus(key));
    NewestFirstIsTotalPreorder();
    var rows := Take(SortBy(matching, NewestFirst), n);
    assert rows == Newest(locations, key, n);
    TopK(matching, NewestFirst, n);
    forall i | 0 <= i < |rows| ensures rows[i] in locations && Some(rows[i].busId) == key {
      assert rows[i] in multiset(rows);
      MatchingRow(locations, key, rows[i]);
    }
  }

  lemma NewestSorted(locations: seq<Location>, key: Option<int>, n: nat)
    ensures var rows := Newest(locations, key, n);
      forall i, j :: 0 <= i < j < |rows| ==> rows[i].createdAt >= rows[j].createdAt
  {
    NewestFirstIsTotalPreorder();
    var rows := Take(SortBy(Filter(locations, OfBus(key)), NewestFirst), n);
    assert rows == Newest(locations, key, n);
    TopK(Filter(locations, OfBus(key)), NewestFirst, n);
    assert SortedBy(rows, NewestFirst);
  }

  lemma NewestTop(locations: seq<Location>, key: Option<int>, n: nat)
    ensures var rows := Newest(locations, key, n);
      forall i, l: Location :: 0 <= i < |rows| && l in multiset(Filter(locations, OfBus(key))) - multiset(rows) ==> l.createdAt <= rows[i].createdAt
  {
    var matching := Filter(locations, OfBus(key));
    NewestFirstIsTotalPreorder();
    var rows := Take(SortBy(matching, NewestFirst), n);
    assert rows == Newest(locations, key, n);
    TopK(matching, NewestFirst, n);
    forall i, l: Location | 0 <= i < |rows| && l in multiset(matching) - multiset(rows) ensures l.createdAt <= rows[i].createdAt {
      assert rows[i] in rows;
      assert NewestFirst(rows[i], l);
    }
  }

  /** No row of the bus the query does not return is newer than a returned one. */
  lemma NewestLeftOut(locations: seq<Location>, key: Option<int>, n: nat)
    ensures var rows := Newest(locations, key, n);
      forall i, l :: 0 <= i < |rows| && l in locations && Some(l.busId) == key && l !in rows ==> l.createdAt <= rows[i].createdAt
  {
    var matching := Filter(locations, OfBus(key));
    var rows := Newest(locations, key, n);
    NewestTop(locations, key, n);
    forall i, l | 0 <= i < |rows| && l in locations && Some(l.busId) == key && l !in rows
      ensures l.createdAt <= rows[i].createdAt
    {
      assert multiset(matching)[l] == multiset(locations)[l];
      assert multiset(rows)[l] == 0;
      assert l in multiset(matching) - multiset(rows);
    }
  }

  /** When the query returns nothing, the bus has no rows at all. */
  lemma NewestEmpty(locations: seq<Location>, key: Option<int>, n: nat)
    requires n > 0 && Newest(locations, key, n) == []
    ensures forall l :: l in locations ==> Some(l.busId) != key
  {
    var matching := Filter(locations, OfBus(key));
    NewestSize(locations, key, n);
    assert matching == [];
    forall l | l in locations ensures Some(l.busId) != key {
      assert multiset(matching)[l] == if OfBus(key)(l) then multiset(locations)[l] else 0;
      assert multiset(locations)[l] > 0;
    }
  }

  lemma MatchingRow(locations: seq<Location>, key: Option<int>, l: Location)
    requires l in multiset(Filter(locations, OfBus(key)))
    ensures l in locations && Some(l.busId) == key
  {
    var matching := Filter(locations, OfBus(key));
    assert multiset(matching)[l] == if OfBus(key)(l) then multiset(locations)[l] else 0;
  }

  /** As written, `getLocationHistory` hands its limit to `execute(array)`, which binds it as a
      string, so every request is refused with a database error, while the query with an
      integer limit answers a request without one. */
  lemma HistoryAsWritten(locations: seq<Location>, query: Input)
    ensures LocationHistoryWith(StrParam, locations, query) == Failure(DatabaseError)
    ensures "limit" !in query ==> LocationHistory(locations, query).Success?
  {
    StrLimitRefused(IntCast(Field(query, "limit", Int(50))));
    if "limit" !in query {
      assert Field(query, "limit", Int(50)) == Int(50);
      IntLimit(50);
    }
  }

  /** The history holds at most `limit` rows (50 when none is asked for), all of the asked-for bus,
      newest first, and no row of that bus it leaves out is newer than one it returns. A negative
      limit is refused. */
  lemma {:induction false} HistorySpec(locations: seq<Location>, query: Input)
    ensures var limit := IntCast(Field(query, "limit", Int(50)));
      && (LocationHistory(locations, query).Failure? <==> limit < 0)
      && ("limit" !in query ==> LocationHistory(locations, query).Success? && |LocationHistory(locations, query).value| <= 50)
      && (LocationHistory(locations, query).Success? ==>
            var rows := LocationHistory(locations, query).value;
            var matching := Filter(locations, OfBus(BusKey(query)));
            && |rows| == Min(limit, |matching|)
            && (forall i :: 0 <= i < |rows| ==> rows[i] in locations && Some(rows[i].busId) == BusKey(query))
            && (forall i, j :: 0 <= i < j < |rows| ==> rows[i].createdAt >= rows[j].createdAt)
            && (forall i, l :: 0 <= i < |rows| && l in multiset(matching) - multiset(rows) ==> l.createdAt <= rows[i].createdAt))
  {
    var limit := IntCast(Field(query, "limit", Int(50)));
    IntLimit(limit);
    if limit >= 0 {
      NewestSpec(locations, BusKey(query), limit);
    }
  }

  /** The current location is a row of the asked-for bus with the latest `created_at` of all its
      rows; only a bus without rows gets "Location not found". */
  lemma {:induction false} CurrentSpec(locations: seq<Location>, query: Input)
    ensures var key := BusKey(query);
      && (CurrentLocation(locations, query).Failure? <==> forall l :: l in locations ==> Some(l.busId) != key)
      && (CurrentLocation(locations, query).Failure? ==> CurrentLocation(locations, query).message == "Location not found")
      && (CurrentLocation(locations, query).Success? ==>
            var c := CurrentLocation(locations, query).value;
            && c in locations && Some(c.busId) == key
            && forall l :: l in locations && Some(l.busId) == key ==> l.createdAt <= c.createdAt)
  {
    var key := BusKey(query);
    NewestOne(locations, key);
    assert CurrentLocation(locations, query) == if Newest(locations, key, 1) == [] then Failure("Location not found")
      else Success("Location retrieved", Newest(locations, key, 1)[0]);
  }

  /** The first row of `LIMIT 1` is the bus's newest row; no row at all means the bus has none. */
  lemma NewestOne(locations: seq<Location>, key: Option<int>)
    ensures var rows := Newest(locations, key, 1);
      && (rows == [] <==> forall l :: l in locations ==> Some(l.busId) != key)
      && (rows != [] ==> (
            && rows[0] in locations && Some(rows[0].busId) == key
            && forall l :: l in locations && Some(l.busId) == key ==> l.createdAt <= rows[0].createdAt))
  {
    var rows := Newest(locations, key, 1);
    if rows == [] {
      NewestEmpty(locations, key, 1);
    } else {
      NewestMembers(locations, key, 1);
      NewestLeftOut(locations, key, 1);
      assert rows == [rows[0]];
    }
  }

  /** Once a position reported at `now` is appended, and no earlier row is later than `now`,
      the current location of that bus is a row reported at `now`. */
  lemma CurrentAfterUpdate(locations: seq<Location>, l: Location, query: Input, now: int)
    requires l.createdAt == now && BusKey(query) == Some(l.busId)
    requires forall m :: m in locations ==> m.createdAt <= now
    ensures CurrentLocation(locations + [l], query).Success?
    ensures CurrentLocation(locations + [l], query).value.createdAt == now
    ensures CurrentLocation(locations + [l], query).value.busId == l.busId
  {
    CurrentSpec(locations + [l], query);
    assert l in locations + [l];
  }
}
