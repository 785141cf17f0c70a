/** Activity log queries (3DNA/backend/api/logs.php): filter, `ORDER BY created_at DESC`,
    `LIMIT (int)$limit`. */
module Logs {
  import opened Wrappers
  import opened PhpValues
  import opened Sequences
  import opened Schema

  /** `ORDER BY created_at DESC` */
  predicate NewestLogFirst(a: ActivityLog, b: ActivityLog)
  {
    a.createdAt >= b.createdAt
  }

  lemma NewestLogFirstIsTotalPreorder()
    ensures TotalPreorder(NewestLogFirst)
  {
  }

  /** The `n` newest rows satisfying `p`. */
  function Latest(logs: seq<ActivityLog>, p: ActivityLog -> bool, n: nat): seq<ActivityLog>
  {
    NewestLogFirstIsTotalPreorder();
    Take(SortBy(Filter(logs, p), NewestLogFirst), n)
  }

  /** At most `n` rows, all stored rows satisfying `p`, newest first, and none left out is
      newer than one returned; fewer than `n` only when no more rows match. */
  lemma LatestSpec(logs: seq<ActivityLog>, p: ActivityLog -> bool, n: nat)
    ensures var rows := Latest(logs, p, n);
      var matching := Filter(logs, p);
      && |rows| == Min(n, |matching|)
      && (forall i :: 0 <= i < |rows| ==> rows[i] in logs && p(rows[i]))
      && (forall i, j :: 0 <= i < j < |rows| ==> rows[i].createdAt >= rows[j].createdAt)
      && (forall i, l :: 0 <= i < |rows| && l in multiset(matching) - multiset(rows) ==> l.createdAt <= rows[i].createdAt)
  {
    LatestSize(logs, p, n);
    LatestMembers(logs, p, n);
    LatestSorted(logs, p, n);
    LatestNewest(logs, p, n);
  }

  lemma LatestSize(logs: seq<ActivityLog>, p: ActivityLog -> bool, n: nat)
    ensures |Latest(logs, p, n)| == Min(n, |Filter(logs, p)|)
  {
    NewestLogFirstIsTotalPreorder();
    TopK(Filter(logs, p), NewestLogFirst, n);
  }

  lemma LatestMembers(logs: seq<ActivityLog>, p: ActivityLog -> bool, n: nat)
    ensures var rows := Latest(logs, p, n);
      forall i :: 0 <= i < |rows| ==> rows[i] in logs && p(rows[i])
  {
    var matching := Filter(logs, p);
    NewestLogFirstIsTotalPreorder();
    var rows := Take(SortBy(matching, NewestLogFirst), n);
    assert rows == Latest(logs, p, n);
    TopK(matching, NewestLogFirst, n);
    forall i | 0 <= i < |rows| ensures rows[i] in logs && p(rows[i]) {
      assert rows[i] in multiset(rows);
      assert multiset(matching)[rows[i]] == if p(rows[i]) then multiset(logs)[rows[i]] else 0;
    }
  }

  lemma LatestSorted(logs: seq<ActivityLog>, p: ActivityLog -> bool, n: nat)
    ensures var rows := Latest(logs, p, n);
      forall i, j :: 0 <= i < j < |rows| ==> rows[i].createdAt >= rows[j].createdAt
  {
    NewestLogFirstIsTotalPreorder();
    var rows := Take(SortBy(Filter(logs, p), NewestLogFirst), n);
    assert rows == Latest(logs, p, n);
    TopK(Filter(logs, p), NewestLogFirst, n);
    assert SortedBy(rows, NewestLogFirst);
  }

  lemma LatestNewest(logs: seq<ActivityLog>, p: ActivityLog -> bool, n: nat)
    ensures var rows := Latest(logs, p, n);
      forall i, l: ActivityLog :: 0 <= i < |rows| && l in multiset(Filter(logs, p)) - multiset(rows) ==> l.createdAt <= rows[i].createdAt
  {
    var matching := Filter(logs, p);
    NewestLogFirstIsTotalPreorder();
    var rows := Take(SortBy(matching, NewestLogFirst), n);
    assert rows == Latest(logs, p, n);
    TopK(matching, NewestLogFirst, n);
    forall i, l: ActivityLog | 0 <= i < |rows| && l in multiset(matching) - multiset(rows) ensures l.createdAt <= rows[i].createdAt {
      assert rows[i] in rows;
      assert NewestLogFirst(rows[i], l);
    }
  }

  /** A row of `SELECT al.*, u.full_name AS user_name ... LEFT JOIN users u`. */
  datatype NamedLog = NamedLog(log: ActivityLog, userName: Option<string>)

  function UserName(users: map<int, User>, userId: Option<int>): Option<string>
  {
    if userId.Some? && userId.value in users then Some(users[userId.value].fullName) else None
  }

  function WithNames(logs: seq<ActivityLog>, users: map<int, User>): (r: seq<NamedLog>)
    ensures |r| == |logs| && forall i :: 0 <= i < |r| ==> r[i] == NamedLog(logs[i], UserName(users, logs[i].userId))
  {
    if logs == [] then [] else [NamedLog(logs[0], UserName(users, logs[0].userId))] + WithNames(logs[1..], users)
  }

  function Any(): ActivityLog -> bool
  {
    (l: ActivityLog) => true
  }

  /** `getRecentLogs` with the limit bound as `p`: `$_GET['limit'] ?? 20`, cast with `(int)`;
      MySQL refuses a LIMIT that is not an unsigned integer literal. */
  function RecentLogsWith(p: ParamType, t: Tables, query: Input): Reply<seq<NamedLog>>
  {
    var limit := IntCast(Field(query, "limit", Int(20)));
    match LimitCount(LimitText(p, limit))
    case None => Failure(DatabaseError)
    case Some(n) => Success("Logs retrieved", WithNames(Latest(t.logs, Any(), n), t.users))
  }

  /** `getRecentLogs` with the limit bound as an integer, as the query means it to be. */
  function RecentLogs(t: Tables, query: Input): Reply<seq<NamedLog>>
  {
    RecentLogsWith(IntParam, t, query)
  }

  /** `WHERE user_id = ?`: a NULL user id equals nothing. */
  function OfUser(key: Option<int>): ActivityLog -> bool
  {
    (l: ActivityLog) => key.Some? && l.userId == key
  }

  /** `getUserLogs($_GET['user_id'] ?? 0)` with `$_GET['limit'] ?? 50` bound as `p`. */
  function UserLogsWith(p: ParamType, t: Tables, query: Input): Reply<seq<ActivityLog>>
  {
    var limit := IntCast(Field(query, "limit", Int(50)));
    match LimitCount(LimitText(p, limit))
    case None => Failure(DatabaseError)
    case Some(n) => Success("Logs retrieved", Latest(t.logs, OfUser(SqlInt(Field(query, "user_id", Int(0)))), n))
  }

  /** `getUserLogs` with the limit bound as an integer. */
  function UserLogs(t: Tables, query: Input): Reply<seq<ActivityLog>>
  {
    UserLogsWith(IntParam, t, query)
  }

  /** `WHERE al.entity_type = ? AND al.entity_id = ?` */
  function OfEntity(entityType: string, key: Option<int>): ActivityLog -> bool
  {
    (l: ActivityLog) => l.entityType == Some(entityType) && key.Some? && l.entityId == key
  }

  /** `getEntityLogs($_GET['entity_type'] ?? '', $_GET['entity_id'] ?? 0)` with
      `$_GET['limit'] ?? 50` bound as `p`. */
  function EntityLogsWith(p: ParamType, t: Tables, query: Input): Reply<seq<NamedLog>>
  {
    var limit := IntCast(Field(query, "limit", Int(50)));
    var entityType := StringOf(Field(query, "entity_type", Str("")));
    var key := SqlInt(Field(query, "entity_id", Int(0)));
    match LimitCount(LimitText(p, limit))
    case None => Failure(DatabaseError)
    case Some(n) => Success("Logs retrieved", WithNames(Latest(t.logs, OfEntity(entityType, key), n), t.users))
  }

  /** `getEntityLogs` with the limit bound as an integer. */
  function EntityLogs(t: Tables, query: Input): Reply<seq<NamedLog>>
  {
    EntityLogsWith(IntParam, t, query)
  }

  /** As written, each endpoint of this file hands its limit to `execute(array)`, which binds
      it as a string, so every request is refused with a database error. */
  lemma LogsAsWritten(t: Tables, query: Input)
    ensures RecentLogsWith(StrParam, t, query) == Failure(DatabaseError)
    ensures UserLogsWith(StrParam, t, query) == Failure(DatabaseError)
    ensures EntityLogsWith(StrParam, t, query) == Failure(DatabaseError)
  {
    StrLimitRefused(IntCast(Field(query, "limit", Int(20))));
    StrLimitRefused(IntCast(Field(query, "limit", Int(50))));
  }

  /** A request for the recent logs with no parameters: the query with an integer limit
      returns rows, the query as written a database error. */
  lemma DefaultRecentRequest(t: Tables)
    ensures RecentLogs(t, map[]).Success?
    ensures RecentLogsWith(StrParam, t, map[]) == Failure(DatabaseError)
  {
    RecentByDefault(t, map[]);
    LogsAsWritten(t, map[]);
  }

  /** The recent logs: min(limit, all rows) rows (20 by default), newest first, each a stored
      row with the name of its user when that user exists, and no row left out is newer than a
      returned one. */
  lemma RecentLogsSpec(t: Tables, query: Input)
    ensures var limit := IntCast(Field(query, "limit", Int(20)));
      var r := RecentLogs(t, query);
      && (r.Failure? <==> limit < 0)
      && (r.Failure? ==> r.message == DatabaseError)
      && ("limit" !in query ==> r.Success? && |r.value| == Min(20, |t.logs|))
      && (r.Success? ==> (
            && |r.value| == Min(limit, |t.logs|)
            && (forall i :: 0 <= i < |r.value| ==> (r.value[i].log in t.logs
                  && r.value[i].userName == UserName(t.users, r.value[i].log.userId)))
            && (forall i, j :: 0 <= i < j < |r.value| ==> r.value[i].log.createdAt >= r.value[j].log.createdAt)
            && (forall i, l :: 0 <= i < |r.value| && l in t.logs && NamedLog(l, UserName(t.users, l.userId)) !in r.value ==>
                  l.createdAt <= r.value[i].log.createdAt)))
  {
    var limit := IntCast(Field(query, "limit", Int(20)));
    IntLimit(limit);
    if "limit" !in query {
      RecentByDefault(t, query);
      NamedLatest(t.logs, Any(), 20, t.users);
      FilterAll(t.logs);
    }
    if limit >= 0 {
      assert RecentLogs(t, query) == Success("Logs retrieved", WithNames(Latest(t.logs, Any(), limit), t.users));
      NamedLatest(t.logs, Any(), limit, t.users);
      FilterAll(t.logs);
    }
  }

  /** The `n` newest rows satisfying `p`, each with its user's name: min(n, matching rows)
      stored matching rows, newest first, and no matching row left out is newer. */
  lemma NamedLatest(logs: seq<ActivityLog>, p: ActivityLog -> bool, n: nat, users: map<int, User>)
    ensures var rows := WithNames(Latest(logs, p, n), users);
      && |rows| == Min(n, |Filter(logs, p)|)
      && (forall i :: 0 <= i < |rows| ==> (rows[i].log in logs && p(rows[i].log)
            && rows[i].userName == UserName(users, rows[i].log.userId)))
      && (forall i, j :: 0 <= i < j < |rows| ==> rows[i].log.createdAt >= rows[j].log.createdAt)
      && (forall i, l :: 0 <= i < |rows| && l in logs && p(l) && NamedLog(l, UserName(users, l.userId)) !in rows ==>
            l.createdAt <= rows[i].log.createdAt)
  {
    LatestSize(logs, p, n);
    NamedMembers(logs, p, n, users);
    NamedSorted(logs, p, n, users);
    NamedLeftOut(logs, p, n, users);
  }

  lemma NamedMembers(logs: seq<ActivityLog>, p: ActivityLog -> bool, n: nat, users: map<int, User>)
    ensures var rows := WithNames(Latest(logs, p, n), users);
      forall i :: 0 <= i < |rows| ==> rows[i].log in logs && p(rows[i].log)
  {
    var plain := Latest(logs, p, n);
    var rows := WithNames(plain, users);
    LatestMembers(logs, p, n);
    forall i | 0 <= i < |rows| ensures rows[i].log in logs && p(rows[i].log) {
      assert rows[i].log == plain[i];
    }
  }

  lemma NamedSorted(logs: seq<ActivityLog>, p: ActivityLog -> bool, n: nat, users: map<int, User>)
    ensures var rows := WithNames(Latest(logs, p, n), users);
      forall i, j :: 0 <= i < j < |rows| ==> rows[i].log.createdAt >= rows[j].log.createdAt
  {
    var plain := Latest(logs, p, n);
    var rows := WithNames(plain, users);
    LatestSorted(logs, p, n);
    forall i, j | 0 <= i < j < |rows| ensures rows[i].log.createdAt >= rows[j].log.createdAt {
      assert rows[i].log == plain[i] && rows[j].log == plain[j];
    }
  }

  lemma NamedLeftOut(logs: seq<ActivityLog>, p: ActivityLog -> bool, n: nat, users: map<int, User>)
    ensures var rows := WithNames(Latest(logs, p, n), users);
      forall i, l :: 0 <= i < |rows| && l in logs && p(l) && NamedLog(l, UserName(users, l.userId)) !in rows ==>
        l.createdAt <= rows[i].log.createdAt
  {
    var plain := Latest(logs, p, n);
    var rows := WithNames(plain, users);
    LatestLeftOut(logs, p, n);
    forall i, l | 0 <= i < |rows| && l in logs && p(l) && NamedLog(l, UserName(users, l.userId)) !in rows
      ensures l.createdAt <= rows[i].log.createdAt
    {
      assert l !in plain;
      assert rows[i].log == plain[i];
    }
  }

  lemma FilterAll(logs: seq<ActivityLog>)
    ensures |Filter(logs, Any())| == |logs|
  {
    var f := Filter(logs, Any());
    assert forall x :: multiset(f)[x] == multiset(logs)[x];
    assert multiset(f) == multiset(logs);
    assert |multiset(f)| == |multiset(logs)|;
  }

  /** A user's logs: min(limit, that user's rows) rows (50 by default), only rows of that user,
      newest first, and no row of that user left out is newer than a returned one. */
  lemma UserLogsSpec(t: Tables, query: Input)
    ensures var limit := IntCast(Field(query, "limit", Int(50)));
      var key := SqlInt(Field(query, "user_id", Int(0)));
      var r := UserLogs(t, query);
      var matching := |Filter(t.logs, OfUser(key))|;
      && (r.Failure? <==> limit < 0)
      && ("limit" !in query ==> r.Success? && |r.value| == Min(50, matching))
      && (r.Success? ==> (
            && |r.value| == Min(limit, matching)
            && (forall i :: 0 <= i < |r.value| ==> r.value[i] in t.logs && r.value[i].userId == key && key.Some?)
            && (forall i, j :: 0 <= i < j < |r.value| ==> r.value[i].createdAt >= r.value[j].createdAt)
            && (forall i, l :: 0 <= i < |r.value| && l in t.logs && l.userId == key && l !in r.value ==>
                  l.createdAt <= r.value[i].createdAt)))
  {
    var limit := IntCast(Field(query, "limit", Int(50)));
    var key := SqlInt(Field(query, "user_id", Int(0)));
    IntLimit(limit);
    if "limit" !in query {
      assert Field(query, "limit", Int(50)) == Int(50);
    }
    if limit >= 0 {
      LatestSize(t.logs, OfUser(key), limit);
      LatestMembers(t.logs, OfUser(key), limit);
      LatestSorted(t.logs, OfUser(key), limit);
      LatestLeftOut(t.logs, OfUser(key), limit);
    }
  }

  /** No matching stored row the query does not return is newer than a returned one. */
  lemma LatestLeftOut(logs: seq<ActivityLog>, p: ActivityLog -> bool, n: nat)
    ensures var rows := Latest(logs, p, n);
      forall i, l :: 0 <= i < |rows| && l in logs && p(l) && l !in rows ==> l.createdAt <= rows[i].createdAt
  {
    var rows := Latest(logs, p, n);
    LatestNewest(logs, p, n);
    forall i, l | 0 <= i < |rows| && l in logs && p(l) && l !in rows
      ensures l.createdAt <= rows[i].createdAt
    {
      LeftOut(logs, p, rows, l);
    }
  }

  /** A matching row missing from the result counts among the left-out rows. */
  lemma LeftOut(logs: seq<ActivityLog>, p: ActivityLog -> bool, rows: seq<ActivityLog>, l: ActivityLog)
    requires l in logs && p(l) && l !in rows
    ensures l in multiset(Filter(logs, p)) - multiset(rows)
  {
    assert multiset(Filter(logs, p))[l] == multiset(logs)[l];
    assert multiset(rows)[l] == 0;
  }

  /** An entity's logs: min(limit, that entity's rows) rows (50 by default), only rows of that
      entity type and id, newest first, each with its user's name, and no row of that entity
      left out is newer than a returned one. */
  lemma EntityLogsSpec(t: Tables, query: Input)
    ensures var limit := IntCast(Field(query, "limit", Int(50)));
      var entityType := StringOf(Field(query, "entity_type", Str("")));
      var key := SqlInt(Field(query, "entity_id", Int(0)));
      var r := EntityLogs(t, query);
      var matching := |Filter(t.logs, OfEntity(entityType, key))|;
      && (r.Failure? <==> limit < 0)
      && ("limit" !in query ==> r.Success? && |r.value| == Min(50, matching))
      && (r.Success? ==> (
            && |r.value| == Min(limit, matching)
            && (forall i :: 0 <= i < |r.value| ==> (r.value[i].log in t.logs
                  && r.value[i].log.entityType == Some(entityType) && key.Some? && r.value[i].log.entityId == key
                  && r.value[i].userName == UserName(t.users, r.value[i].log.userId)))
            && (forall i, j :: 0 <= i < j < |r.value| ==> r.value[i].log.createdAt >= r.value[j].log.createdAt)
            && (forall i, l :: (0 <= i < |r.value| && l in t.logs && l.entityType == Some(entityType) && l.entityId == key
                  && NamedLog(l, UserName(t.users, l.userId)) !in r.value) ==> l.createdAt <= r.value[i].log.createdAt)))
  {
    var limit := IntCast(Field(query, "limit", Int(50)));
    var entityType := StringOf(Field(query, "entity_type", Str("")));
    var key := SqlInt(Field(query, "entity_id", Int(0)));
    IntLimit(limit);
    if "limit" !in query {
      assert Field(query, "limit", Int(50)) == Int(50);
    }
    if limit >= 0 {
      NamedLatest(t.logs, OfEntity(entityType, key), limit, t.users);
    }
  }

  /** A row logged after every earlier row shows up first among the recent logs. */
  lemma NewestLogFirstInRecent(t: Tables, l: ActivityLog, query: Input)
    requires "limit" !in query
    requires forall m :: m in t.logs ==> m.createdAt <= l.createdAt
    ensures var r := RecentLogs(t.(logs := t.logs + [l]), query);
      r.Success? && |r.value| > 0 && r.value[0].log.createdAt == l.createdAt
  {
    var t2 := t.(logs := t.logs + [l]);
    RecentByDefault(t2, query);
    NewestRowFirst(t.logs, l, 20);
  }

  /** Without a `limit` parameter the recent logs are the 20 newest. */
  lemma RecentByDefault(t: Tables, query: Input)
    requires "limit" !in query
    ensures RecentLogs(t, query) == Success("Logs retrieved", WithNames(Latest(t.logs, Any(), 20), t.users))
  {
    assert Field(query, "limit", Int(20)) == Int(20);
    IntLimit(20);
  }

  /** Once a row no older than any other is stored, the newest rows start with one of its age. */
  lemma NewestRowFirst(logs: seq<ActivityLog>, l: ActivityLog, n: nat)
    requires n > 0
    requires forall m :: m in logs ==> m.createdAt <= l.createdAt
    ensures var rows := Latest(logs + [l], Any(), n);
      rows != [] && rows[0].createdAt == l.createdAt
  {
    var all := logs + [l];
    var rows := Latest(all, Any(), n);
    assert rows != [] by {
      LatestSize(all, Any(), n);
      FilterAll(all);
    }
    assert rows[0].createdAt <= l.createdAt by {
      LatestMembers(all, Any(), n);
      assert rows[0] in all;
    }
    assert l.createdAt <= rows[0].createdAt by {
      if l in rows {
        var k :| 0 <= k < |rows| && rows[k] == l;
        if k > 0 {
          LatestSorted(all, Any(), n);
        }
      } else {
        LatestLeftOut(all, Any(), n);
        assert Any()(l) && l in all;
      }
    }
  }
}
