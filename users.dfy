/** User administration (3DNA/backend/api/users.php). */
module Users {
  import opened Wrappers
  import opened PhpValues
  import opened Sequences
  import opened Schema

  /** A row of `SELECT u.*, b.bus_number FROM users u LEFT JOIN buses b ON u.user_id = b.driver_id`:
      one row per bus the user drives, or one row without a bus number. */
  datatype UserRow = UserRow(userId: int, user: User, busNumber: Option<string>)

  function DrivenBy(buses: map<int, Bus>, id: int): ((int, Bus)) -> bool
  {
    (p: (int, Bus)) => p.1.driverId == Some(id)
  }

  /** What the join promises about one output row's bus number: one of a bus the user drives,
      or absent when the user drives none. */
  predicate BusColumn(x: UserRow, buses: map<int, Bus>)
  {
    match x.busNumber
    case Some(n) => exists k :: k in buses && buses[k].driverId == Some(x.userId) && buses[k].busNumber == n
    case None => forall k :: k in buses ==> buses[k].driverId != Some(x.userId)
  }

  /** The buses a user drives, in bus-id order. */
  function Driven(buses: map<int, Bus>, id: int): seq<(int, Bus)>
  {
    Filter(Rows(buses), DrivenBy(buses, id))
  }

  lemma DrivenRow(buses: map<int, Bus>, id: int, p: (int, Bus))
    requires p in Driven(buses, id)
    ensures p.0 in buses && buses[p.0] == p.1 && p.1.driverId == Some(id)
  {
    var rows := Rows(buses);
    assert DrivenBy(buses, id)(p);
    assert p in multiset(Driven(buses, id));
    assert multiset(Driven(buses, id))[p] == multiset(rows)[p];
    assert p in rows;
  }

  lemma NoneDriven(buses: map<int, Bus>, id: int, k: int)
    requires Driven(buses, id) == [] && k in buses
    ensures buses[k].driverId != Some(id)
  {
    var rows := Rows(buses);
    assert (k, buses[k]) in rows;
    assert (k, buses[k]) in multiset(rows);
    assert multiset(Driven(buses, id))[(k, buses[k])] == if DrivenBy(buses, id)((k, buses[k])) then multiset(rows)[(k, buses[k])] else 0;
  }

  /** The keys of the buses a user drives. */
  function DrivenKeys(buses: map<int, Bus>, id: int): set<int>
  {
    set k | k in buses && buses[k].driverId == Some(id)
  }

  /** How many rows the LEFT JOIN gives one user: one per bus they drive, or a single row. */
  function JoinedRowsOf(buses: map<int, Bus>, id: int): nat
  {
    if DrivenKeys(buses, id) == {} then 1 else |DrivenKeys(buses, id)|
  }

  /** How many rows the LEFT JOIN gives a list of users. */
  function JoinedRows(rows: seq<(int, User)>, buses: map<int, Bus>): nat
  {
    if rows == [] then 0 else JoinedRowsOf(buses, rows[0].0) + JoinedRows(rows[1..], buses)
  }

  /** The scan of the buses a user drives has one row per such bus. */
  lemma DrivenCount(buses: map<int, Bus>, id: int)
    ensures |Driven(buses, id)| == |DrivenKeys(buses, id)|
    ensures Driven(buses, id) == [] <==> DrivenKeys(buses, id) == {}
  {
    FilterRowsCount(buses, DrivenBy(buses, id));
    assert MatchingKeys(buses, DrivenBy(buses, id)) == DrivenKeys(buses, id);
  }

  /** Each bus a user drives is in the scan of their buses. */
  lemma DrivenHas(buses: map<int, Bus>, id: int, k: int)
    requires k in DrivenKeys(buses, id)
    ensures (k, buses[k]) in Driven(buses, id)
  {
    FilterRows(buses, DrivenBy(buses, id), (k, buses[k]));
  }

  /** One row per driven bus, in order, each carrying the user and that bus's number. */
  function WithBuses(id: int, u: User, driven: seq<(int, Bus)>): (r: seq<UserRow>)
    ensures |r| == |driven|
    ensures forall i :: 0 <= i < |r| ==> r[i] == UserRow(id, u, Some(driven[i].1.busNumber))
  {
    if driven == [] then []
    else [UserRow(id, u, Some(driven[0].1.busNumber))] + WithBuses(id, u, driven[1..])
  }

  /** The rows of one user in the join: one per bus they drive, each with that bus's number,
      or a single row without a bus number when they drive none. */
  function UserJoin(id: int, u: User, buses: map<int, Bus>): (r: seq<UserRow>)
    ensures |r| == JoinedRowsOf(buses, id)
    ensures forall x :: x in r ==> x.userId == id && x.user == u && BusColumn(x, buses)
    ensures forall k :: k in DrivenKeys(buses, id) ==> UserRow(id, u, Some(buses[k].busNumber)) in r
  {
    DrivenCount(buses, id);
    if Driven(buses, id) == [] then
      assert BusColumn(UserRow(id, u, None), buses) by {
        forall k | k in buses ensures buses[k].driverId != Some(id) {
          assert k !in DrivenKeys(buses, id);
        }
      }
      [UserRow(id, u, None)]
    else
      DrivenColumns(buses, id, u);
      DrivenRowsPresent(buses, id, u);
      WithBuses(id, u, Driven(buses, id))
  }

  lemma DrivenColumns(buses: map<int, Bus>, id: int, u: User)
    ensures forall x :: x in WithBuses(id, u, Driven(buses, id)) ==>
      x.userId == id && x.user == u && BusColumn(x, buses)
  {
    var driven := Driven(buses, id);
    var r := WithBuses(id, u, driven);
    forall x | x in r ensures x.userId == id && x.user == u && BusColumn(x, buses) {
      var i :| 0 <= i < |r| && r[i] == x;
      var p := driven[i];
      DrivenRow(buses, id, p);
      assert x == UserRow(id, u, Some(p.1.busNumber));
      assert p.0 in buses && buses[p.0].driverId == Some(id) && buses[p.0].busNumber == p.1.busNumber;
    }
  }

  lemma DrivenRowsPresent(buses: map<int, Bus>, id: int, u: User)
    ensures forall k :: k in DrivenKeys(buses, id) ==>
      UserRow(id, u, Some(buses[k].busNumber)) in WithBuses(id, u, Driven(buses, id))
  {
    var driven := Driven(buses, id);
    var r := WithBuses(id, u, driven);
    forall k | k in DrivenKeys(buses, id) ensures UserRow(id, u, Some(buses[k].busNumber)) in r {
      DrivenHas(buses, id, k);
      var i :| 0 <= i < |driven| && driven[i] == (k, buses[k]);
      assert r[i] == UserRow(id, u, Some(buses[k].busNumber));
    }
  }

  /** The LEFT JOIN of user rows with the buses they drive: one row per (user, driven bus)
      pair and one row for each user who drives none, nothing else. */
  function JoinBuses(rows: seq<(int, User)>, buses: map<int, Bus>): (r: seq<UserRow>)
    ensures |r| == JoinedRows(rows, buses)
    ensures forall x :: x in r ==> (x.userId, x.user) in rows && BusColumn(x, buses)
    ensures forall p, k :: p in rows && k in DrivenKeys(buses, p.0) ==> UserRow(p.0, p.1, Some(buses[k].busNumber)) in r
    ensures forall p :: p in rows && DrivenKeys(buses, p.0) == {} ==> UserRow(p.0, p.1, None) in r
    ensures forall p :: p in rows ==> exists x :: x in r && x.userId == p.0 && x.user == p.1
  {
    if rows == [] then []
    else
      var head := UserJoin(rows[0].0, rows[0].1, buses);
      var tail := JoinBuses(rows[1..], buses);
      JoinSound(rows, buses, head, tail);
      JoinDriven(rows, buses, head, tail);
      JoinUndriven(rows, buses, head, tail);
      JoinEvery(rows, buses, head, tail);
      head + tail
  }

  /* The four lemmas below carry each clause of `JoinBuses` from the join of the other users
     to the join with the first user's rows in front. */

  lemma JoinSound(rows: seq<(int, User)>, buses: map<int, Bus>, head: seq<UserRow>, tail: seq<UserRow>)
    requires rows != []
    requires forall x :: x in head ==> x.userId == rows[0].0 && x.user == rows[0].1 && BusColumn(x, buses)
    requires forall x :: x in tail ==> (x.userId, x.user) in rows[1..] && BusColumn(x, buses)
    ensures forall x :: x in head + tail ==> (x.userId, x.user) in rows && BusColumn(x, buses)
  {
    forall x | x in head + tail ensures (x.userId, x.user) in rows && BusColumn(x, buses) {
      if x in tail {
        assert (x.userId, x.user) in rows[1..];
      }
    }
  }

  lemma JoinDriven(rows: seq<(int, User)>, buses: map<int, Bus>, head: seq<UserRow>, tail: seq<UserRow>)
    requires rows != []
    requires forall k :: k in DrivenKeys(buses, rows[0].0) ==> UserRow(rows[0].0, rows[0].1, Some(buses[k].busNumber)) in head
    requires forall p, k :: p in rows[1..] && k in DrivenKeys(buses, p.0) ==> UserRow(p.0, p.1, Some(buses[k].busNumber)) in tail
    ensures forall p, k :: p in rows && k in DrivenKeys(buses, p.0) ==> UserRow(p.0, p.1, Some(buses[k].busNumber)) in head + tail
  {
    forall p, k | p in rows && k in DrivenKeys(buses, p.0) ensures UserRow(p.0, p.1, Some(buses[k].busNumber)) in head + tail {
      if p != rows[0] {
        assert p in rows[1..];
      }
    }
  }

  lemma JoinUndriven(rows: seq<(int, User)>, buses: map<int, Bus>, head: seq<UserRow>, tail: seq<UserRow>)
    requires rows != []
    requires |head| == JoinedRowsOf(buses, rows[0].0)
    requires forall x :: x in head ==> x.userId == rows[0].0 && x.user == rows[0].1 && BusColumn(x, buses)
    requires forall p :: p in rows[1..] && DrivenKeys(buses, p.0) == {} ==> UserRow(p.0, p.1, None) in tail
    ensures forall p :: p in rows && DrivenKeys(buses, p.0) == {} ==> UserRow(p.0, p.1, None) in head + tail
  {
    forall p | p in rows && DrivenKeys(buses, p.0) == {} ensures UserRow(p.0, p.1, None) in head + tail {
      if p == rows[0] {
        var x := head[0];
        assert x in head;
        forall k | k in buses ensures buses[k].driverId != Some(p.0) {
          assert k !in DrivenKeys(buses, p.0);
        }
        assert x == UserRow(p.0, p.1, None);
      } else {
        assert p in rows[1..];
      }
    }
  }

  lemma JoinEvery(rows: seq<(int, User)>, buses: map<int, Bus>, head: seq<UserRow>, tail: seq<UserRow>)
    requires rows != []
    requires |head| == JoinedRowsOf(buses, rows[0].0)
    requires forall x :: x in head ==> x.userId == rows[0].0 && x.user == rows[0].1
    requires forall p :: p in rows[1..] ==> exists x :: x in tail && x.userId == p.0 && x.user == p.1
    ensures forall p :: p in rows ==> exists x :: x in head + tail && x.userId == p.0 && x.user == p.1
  {
    forall p | p in rows ensures exists x :: x in head + tail && x.userId == p.0 && x.user == p.1 {
      if p == rows[0] {
        assert head[0] in head + tail;
      } else {
        assert p in rows[1..];
        var x :| x in tail && x.userId == p.0 && x.user == p.1;
        assert x in head + tail;
      }
    }
  }

  /** `ORDER BY u.full_name` */
  predicate ByName(a: UserRow, b: UserRow)
  {
    StrLe(a.user.fullName, b.user.fullName)
  }

  /** `ORDER BY u.user_type, u.full_name` */
  predicate ByTypeThenName(a: UserRow, b: UserRow)
  {
    if a.user.userType == b.user.userType then StrLe(a.user.fullName, b.user.fullName)
    else StrLe(a.user.userType, b.user.userType)
  }

  lemma OrdersAreTotalPreorders()
    ensures TotalPreorder(ByName) && TotalPreorder(ByTypeThenName)
  {
    forall a: UserRow, b: UserRow ensures ByName(a, b) || ByName(b, a) {
      StrLeTotal(a.user.fullName, b.user.fullName);
    }
    forall a: UserRow, b: UserRow, c: UserRow | ByName(a, b) && ByName(b, c) ensures ByName(a, c) {
      StrLeTransitive(a.user.fullName, b.user.fullName, c.user.fullName);
    }
    forall a: UserRow, b: UserRow ensures ByTypeThenName(a, b) || ByTypeThenName(b, a) {
      StrLeTotal(a.user.fullName, b.user.fullName);
      StrLeTotal(a.user.userType, b.user.userType);
    }
    forall a: UserRow, b: UserRow, c: UserRow | ByTypeThenName(a, b) && ByTypeThenName(b, c)
      ensures ByTypeThenName(a, c)
    {
      TypeThenNameTransitive(a, b, c);
    }
  }

  lemma TypeThenNameTransitive(a: UserRow, b: UserRow, c: UserRow)
    requires ByTypeThenName(a, b) && ByTypeThenName(b, c)
    ensures ByTypeThenName(a, c)
  {
    var ta, tb, tc := a.user.userType, b.user.userType, c.user.userType;
    if ta == tb && tb == tc {
      StrLeTransitive(a.user.fullName, b.user.fullName, c.user.fullName);
    } else if ta != tb && tb != tc {
      StrLeTransitive(ta, tb, tc);
      if ta == tc {
        StrLeAntisymmetric(ta, tb);
      }
    }
  }

  /** `$type` as `if ($type)` reads it: '' and '0' mean every type. */
  function TypeFilter(query: Input): PhpValue
  {
    Field(query, "type", Str(""))
  }

  function OfType(t: PhpValue): ((int, User)) -> bool
  {
    (p: (int, User)) => Truthy(t) ==> p.1.userType == StringOf(t)
  }

  /** `listUsers` */
  function ListUsers(users: map<int, User>, buses: map<int, Bus>, query: Input): seq<UserRow>
  {
    var t := TypeFilter(query);
    var joined := JoinBuses(Selection(users, t), buses);
    OrdersAreTotalPreorders();
    if Truthy(t) then SortBy(joined, ByName) else SortBy(joined, ByTypeThenName)
  }

  function Selection(users: map<int, User>, t: PhpValue): seq<(int, User)>
  {
    Filter(Rows(users), OfType(t))
  }

  lemma SelectionRow(users: map<int, User>, t: PhpValue, p: (int, User))
    ensures p in Selection(users, t) <==> p.0 in users && users[p.0] == p.1 && (Truthy(t) ==> p.1.userType == StringOf(t))
  {
    var rows := Rows(users);
    RowsMultiplicity(users, p);
    assert multiset(Selection(users, t))[p] == if OfType(t)(p) then multiset(rows)[p] else 0;
    assert p in Selection(users, t) <==> p in multiset(Selection(users, t));
  }

  /** Sorting keeps the joined rows: the listing holds exactly the join's rows, each as often. */
  lemma ListUsersRows(users: map<int, User>, buses: map<int, Bus>, query: Input)
    ensures multiset(ListUsers(users, buses, query)) == multiset(JoinBuses(Selection(users, TypeFilter(query)), buses))
    ensures forall x :: x in ListUsers(users, buses, query) <==> x in JoinBuses(Selection(users, TypeFilter(query)), buses)
  {
    var joined := JoinBuses(Selection(users, TypeFilter(query)), buses);
    OrdersAreTotalPreorders();
    var r := ListUsers(users, buses, query);
    assert multiset(r) == multiset(joined);
    forall x ensures x in r <==> x in joined {
      assert x in r <==> x in multiset(r);
      assert x in joined <==> x in multiset(joined);
    }
  }

  /** Every row is a stored user of the requested type (of any type when no type is given),
      and a bus number shown is the number of a bus that user drives. */
  lemma ListUsersSound(users: map<int, User>, buses: map<int, Bus>, query: Input, x: UserRow)
    requires x in ListUsers(users, buses, query)
    ensures x.userId in users && users[x.userId] == x.user
    ensures Truthy(TypeFilter(query)) ==> x.user.userType == StringOf(TypeFilter(query))
    ensures x.busNumber.Some? ==>
      exists k :: k in buses && buses[k].driverId == Some(x.userId) && buses[k].busNumber == x.busNumber.value
  {
    ListUsersRows(users, buses, query);
    var joined := JoinBuses(Selection(users, TypeFilter(query)), buses);
    assert x in joined;
    assert BusColumn(x, buses);
    SelectionRow(users, TypeFilter(query), (x.userId, x.user));
  }

  /** Every user of the requested type appears in the listing. */
  lemma ListUsersComplete(users: map<int, User>, buses: map<int, Bus>, query: Input)
    ensures var t := TypeFilter(query);
      forall k :: k in users && (Truthy(t) ==> users[k].userType == StringOf(t)) ==>
        exists x :: x in ListUsers(users, buses, query) && x.userId == k
  {
    var t := TypeFilter(query);
    ListUsersRows(users, buses, query);
    var joined := JoinBuses(Selection(users, t), buses);
    forall k | k in users && (Truthy(t) ==> users[k].userType == StringOf(t))
      ensures exists x :: x in ListUsers(users, buses, query) && x.userId == k
    {
      SelectionRow(users, t, (k, users[k]));
      var x :| x in joined && x.userId == k && x.user == users[k];
      assert x in ListUsers(users, buses, query);
    }
  }

  /** With a type the listing is in name order, without one in type-then-name order. */
  lemma ListUsersOrder(users: map<int, User>, buses: map<int, Bus>, query: Input)
    ensures var t := TypeFilter(query);
      var r := ListUsers(users, buses, query);
      && (Truthy(t) ==> forall i, j :: 0 <= i < j < |r| ==> StrLe(r[i].user.fullName, r[j].user.fullName))
      && (!Truthy(t) ==> forall i, j :: 0 <= i < j < |r| ==>
            (r[i].user.userType != r[j].user.userType ==> StrLe(r[i].user.userType, r[j].user.userType))
            && (r[i].user.userType == r[j].user.userType ==> StrLe(r[i].user.fullName, r[j].user.fullName)))
  {
    var t := TypeFilter(query);
    var r := ListUsers(users, buses, query);
    OrdersAreTotalPreorders();
    if Truthy(t) {
      assert SortedBy(r, ByName);
      forall i, j | 0 <= i < j < |r| ensures StrLe(r[i].user.fullName, r[j].user.fullName) {
        assert ByName(r[i], r[j]);
      }
    } else {
      assert SortedBy(r, ByTypeThenName);
      forall i, j | 0 <= i < j < |r| ensures ByTypeThenName(r[i], r[j]) {
      }
    }
  }

  datatype UserCounts = UserCounts(total: int, active: Option<int>)

  /** The users `getUserStats` counts. */
  function Selected(users: map<int, User>, t: PhpValue): set<int>
  {
    set k | k in users && (Truthy(t) ==> users[k].userType == StringOf(t))
  }

  /** `getUserStats($_GET['type'] ?? '')`: `SUM` over no rows is NULL. */
  function UserStats(users: map<int, User>, query: Input): UserCounts
  {
    var sel := Selected(users, TypeFilter(query));
    var act := set k | k in sel && users[k].isActive;
    UserCounts(|sel|, if |sel| == 0 then None else Some(|act|))
  }

  lemma UserStatsSpec(users: map<int, User>, query: Input)
    ensures var t := TypeFilter(query);
      var s := UserStats(users, query);
      && s.total == |set k | k in users && (Truthy(t) ==> users[k].userType == StringOf(t))|
      && (s.active.None? <==> s.total == 0)
      && (s.active.Some? ==> (0 <= s.active.value <= s.total
            && s.active.value == |set k | k in users && (Truthy(t) ==> users[k].userType == StringOf(t)) && users[k].isActive|))
      && (!Truthy(t) ==> s.total == |users|)
  {
    var t := TypeFilter(query);
    var sel := Selected(users, t);
    var act := set k | k in sel && users[k].isActive;
    var act2 := set k | k in users && (Truthy(t) ==> users[k].userType == StringOf(t)) && users[k].isActive;
    assert forall k :: k in act <==> k in act2;
    assert act == act2;
    var rest := set k | k in sel && !users[k].isActive;
    DisjointUnion(act, rest, sel);
    if !Truthy(t) {
      assert forall k :: k in sel <==> k in users.Keys;
      assert sel == users.Keys;
    }
  }

  function CreatedUser(input: Input, hash: string -> string): User
  {
    User(StringOf(Field(input, "user_type", Str(""))), StringOf(Field(input, "email", Str(""))),
         hash(StringOf(Field(input, "password", Str("")))), StringOf(Field(input, "full_name", Str(""))),
         Some(StringOf(Field(input, "phone", Str("")))), None, true)
  }

  predicate MissingUserFields(input: Input)
  {
    Empty(Field(input, "user_type", Str(""))) || Empty(Field(input, "email", Str("")))
      || Empty(Field(input, "password", Str(""))) || Empty(Field(input, "full_name", Str("")))
  }

  predicate EmailInUse(users: map<int, User>, email: string)
  {
    exists k :: k in users && users[k].email == email
  }

  /** Creating a user keeps emails unique. */
  lemma CreateKeepsEmailsUnique(users: map<int, User>, u: User, id: int)
    requires UniqueEmails(users) && !EmailInUse(users, u.email) && id !in users
    ensures UniqueEmails(users[id := u])
  {
  }

  /** No phone check: an administrator can create a user with the phone another user has, so
      the phone uniqueness registration keeps is lost. */
  lemma CreateCanDuplicatePhone(users: map<int, User>, u: User, id: int, other: int)
    requires other in users && users[other].phone.Some? && u.phone == users[other].phone && id !in users
    ensures !UniquePhones(users[id := u])
  {
    var after := users[id := u];
    assert after[id].phone == after[other].phone && id != other;
  }

  /** `createUser`; `session` is `$_SESSION['user_id'] ?? null`. */
  method CreateUser(db: Database, input: Input, hash: string -> string, session: Option<int>, now: int)
    returns (r: Reply<int>)
    requires db.Valid()
    modifies db
    ensures db.Valid()
    ensures var email := StringOf(Field(input, "email", Str("")));
      && (r.Failure? <==> MissingUserFields(input) || EmailInUse(old(db.users), email))
      && (r.Failure? ==> (db.Snapshot() == old(db.Snapshot())
            && r.message == (if MissingUserFields(input) then "Required fields missing" else "Email already exists")))
      && (r.Success? ==> (
            && r.message == "User created successfully" && r.value == old(db.nextUserId)
            && db.Snapshot() == old(db.Snapshot()).(
                 users := old(db.users)[r.value := CreatedUser(input, hash)],
                 nextUserId := r.value + 1,
                 logs := old(db.logs) + [ActivityLog(old(db.nextLogId), session, "user_created", Some("user"), Some(r.value),
                           "New " + StringOf(Field(input, "user_type", Str(""))) + " user created: "
                           + StringOf(Field(input, "full_name", Str(""))), now)],
                 nextLogId := old(db.nextLogId) + 1)))
    ensures UniqueEmails(old(db.users)) ==> UniqueEmails(db.users)
  {
    if MissingUserFields(input) {
      return Failure("Required fields missing");
    }
    if EmailInUse(db.users, StringOf(Field(input, "email", Str("")))) {
      return Failure("Email already exists");
    }
    ghost var before := db.users;
    var id := db.InsertUser(CreatedUser(input, hash));
    if UniqueEmails(before) {
      CreateKeepsEmailsUnique(before, CreatedUser(input, hash), id);
    }
    db.AppendLog(session, "user_created", Some("user"), Some(id),
                 "New " + StringOf(Field(input, "user_type", Str(""))) + " user created: "
                 + StringOf(Field(input, "full_name", Str(""))), now);
    r := Success("User created successfully", id);
  }

  /** `deleteUser($_GET['id'] ?? 0)`: only that user row goes. */
  method DeleteUser(db: Database, query: Input) returns (r: Reply<()>)
    requires db.Valid()
    modifies db
    ensures db.Valid()
    ensures r == Success("User deleted successfully", ())
    ensures db.Snapshot() == old(db.Snapshot()).(users := DeleteWhere(old(db.users), SqlInt(Field(query, "id", Int(0)))))
    ensures UniqueEmails(old(db.users)) ==> UniqueEmails(db.users)
  {
    db.users := DeleteWhere(db.users, SqlInt(Field(query, "id", Int(0))));
    r := Success("User deleted successfully", ());
  }
}
