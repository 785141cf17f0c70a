# 3DNA bus tracking: a verified model of the server endpoints and the driver sign-up checks

This project models the server side of the 3DNA bus tracking system. The system is a set of
PHP endpoints over a MySQL database, plus the browser-side checks of its driver sign-up page.
The models and their proofs are written in Dafny.

The database is one `Schema.Database` object:

- `buses`, `bus_status`, `users`, `routes` and `stops` are maps from primary key to row;
- `driver_locations` and `activity_logs` are append-only sequences;
- each table has its auto-increment counter.

Every endpoint that writes is a method on that object. It either rejects the request, with the
source's message, and leaves every table as it was, or it applies the source's writes in the
source's order. Each method states the whole new state through `Snapshot()`. Every read-only
query is a function over the tables, and lemmas state what it returns. SQL is modelled with
a few operators in `Sequences`:

- a table scan in key order;
- WHERE as a filter;
- ORDER BY as a sort under a total preorder;
- LIMIT as a prefix;
- DISTINCT.

Request values are PHP scalars (`PhpValues`). `empty()`, truthiness, `??` and the `(int)` cast
follow PHP, so `''`, `'0'`, `0`, `null` and `false` all count as missing. A parameter bound into
SQL is read as an integer through that cast, and null selects nothing.

The modules follow the source files:

| module | file |
|---|---|
| `Trips` | `3DNA/backend/api/trips.php` |
| `Locations` | `3DNA/backend/api/locations.php` |
| `Buses` | `3DNA/backend/api/buses.php` |
| `Drivers` | `3DNA/backend/api/drivers.php` |
| `Auth` | `3DNA/backend/api/auth.php` |
| `Users` | `3DNA/backend/api/users.php` |
| `Routes` | `3DNA/backend/api/routes.php` |
| `Analytics` | `3DNA/backend/api/analytics.php` |
| `Logs` | `3DNA/backend/api/logs.php` |
| `Requests` | the helpers in `3DNA/backend/config/Database.php` |
| `Signup` | `3DNA/frontend/js/driver-signup.js` |
| `Schema`, `Sequences`, `PhpValues`, `Wrappers` | shared by the modules above |

Things the code promises that the model states:

- Trip transitions are unconditional. They touch only the selected bus, and pause and resume
  are idempotent.
- A location report appends one history row and moves only the cached position.
- The current location is a newest row of its bus, and the history is a newest-first top-k.
- Creating a bus also creates its status row.
- Every required-field check rejects exactly the inputs PHP's `empty()` rejects.
- Registration checks run in a fixed order (presence, driver licence, email, phone, licence)
  and keep emails and phone numbers unique.
- Login looks an account up by email and type, refuses an inactive account before any
  password check, and accepts the demo password.
- Statistics stay within bounds. With no rows, `SUM` is NULL.
- Log and daily listings are filtered, newest first and limited.
- A bearer token is the leftmost `Bearer\s+(\S+)` capture, is non-empty and has no whitespace.
- The response envelope always has `success` and `message`, plus every data key.
- On the sign-up page every failing check shows its error, the form passes exactly when all
  seven conditions hold, and each registration error the server can send is shown next to its
  own field.

## Model

| member | source | states |
|---|---|---|
| Trips.TransitionTable | 3DNA/backend/api/trips.php:25-159 | for the selected bus, start sets running and `active`, end sets not running and `stopped`, pause sets `paused` and resume `active` while keeping the running flag, from any state; other buses keep their view |
| Trips.PausedBusStillRunning | 3DNA/backend/api/trips.php:121-126 | a bus paused after a start still has `is_running = 1` while its status says `paused` |
| Trips.SetStatusIdempotent | 3DNA/backend/api/trips.php:121-152 | writing the same status twice equals writing it once, so pause and resume are idempotent |
| Trips.StartTrip | 3DNA/backend/api/trips.php:25-72 | fails with "Bus ID and Driver ID required" exactly when `bus_id` or `driver_id` is empty, changing nothing; otherwise sets the running flag and `active` status of that bus and appends one `trip_started` log naming the bus |
| Trips.EndTrip | 3DNA/backend/api/trips.php:74-107 | fails with "Bus ID required" exactly when `bus_id` is empty; otherwise clears the running flag, sets `stopped`, and changes nothing else |
| Trips.PauseTrip | 3DNA/backend/api/trips.php:109-133 | fails exactly when `bus_id` is empty; otherwise only the status of that bus becomes `paused` |
| Trips.ResumeTrip | 3DNA/backend/api/trips.php:135-159 | fails exactly when `bus_id` is empty; otherwise only the status of that bus becomes `active` |
| Locations.SetPositionKeepsTripFields | 3DNA/backend/api/locations.php:50-57 | the cache update changes only latitude, longitude and update time of the named bus's row |
| Locations.UpdateLocation | 3DNA/backend/api/locations.php:25-66 | fails with "Required fields missing" exactly when bus, driver, latitude or longitude is empty, changing nothing; otherwise appends one history row with the next id (returned as `location_id`), speed and accuracy defaulting to 0, and moves that bus's cached position |
| Locations.NewestFirstIsTotalPreorder | 3DNA/backend/api/locations.php:75 | `ORDER BY created_at DESC` is a total preorder |
| Locations.NewestSpec | 3DNA/backend/api/locations.php:98-104 | the query returns min(n, matching rows) rows, each a row of that bus, newest first, and no left-out row of that bus is newer than a returned one |
| Locations.MatchingRow | 3DNA/backend/api/locations.php:98-99 | every row the bus filter keeps is a stored row of that bus |
| Locations.HistorySpec | 3DNA/backend/api/locations.php:92-112 | with the limit bound as an integer (the corrected query, see "## Findings"): the history is refused exactly when the `(int)` limit is negative; without a limit at most 50 rows; otherwise the rows are as in `NewestSpec` |
| Locations.CurrentSpec | 3DNA/backend/api/locations.php:68-90 | "Location not found" exactly when the bus has no rows; otherwise a row of that bus no older than any other of its rows |
| Locations.HistoryAsWritten | 3DNA/backend/api/locations.php:102-104 | as written, every history request is refused with a database error; with the limit bound as an integer, a request without a limit succeeds |
| Locations.NewestOne | 3DNA/backend/api/locations.php:72-83 | `LIMIT 1` finds no row exactly when the bus has none; otherwise a row of that bus no older than any other of its rows |
| Locations.CurrentAfterUpdate | 3DNA/backend/api/locations.php:43-79 | after a position reported at `now` is appended (and no row is later), the current location of that bus is a row of that bus reported at `now` |
| Buses.CreatedBusDefaults | 3DNA/backend/api/buses.php:121-137 | a created bus is `active` with no driver; without `capacity` it seats 50, without `model` the model is empty |
| Buses.CreateBus | 3DNA/backend/api/buses.php:116-152 | fails with "Required fields missing" exactly when bus number, plate or route is empty, changing nothing; otherwise inserts the bus under a fresh id (returned) and a default `bus_status` row for it, and keeps "every bus has a status row" |
| Buses.UpdatePassengers | 3DNA/backend/api/buses.php:154-177 | fails with "Bus ID required" exactly when `bus_id` is empty; otherwise only that bus's passenger count changes, to the `(int)` of `current_passengers` (0 when absent) |
| Buses.DeleteBus | 3DNA/backend/api/buses.php:179-191 | always succeeds; removes only the bus row with that id, leaving its status row, and keeps "every bus has a status row" |
| Buses.BusStatsSpec | 3DNA/backend/api/buses.php:93-114 | `active` is between 0 and `total`, `total` is the number of buses, and `inactive` counts exactly the buses whose status is not `active` |
| Drivers.AssignedBusSpec | 3DNA/backend/api/drivers.php:27-54 | "No bus assigned to this driver" exactly when no bus has that driver; otherwise the lowest-numbered bus of that driver, with its stored route and that route's stop count when the route exists (else no route and 0 stops), and its status row when one exists (else none) |
| Drivers.AssignBusToDriver | 3DNA/backend/api/drivers.php:107-132 | fails with "Driver ID and Bus ID required" exactly when either id is empty, changing nothing; otherwise only that bus's `driver_id` changes |
| Drivers.LookupAfterAssign | 3DNA/backend/api/drivers.php:27-132 | after assigning bus `b` to driver `d`, the driver's lookup succeeds with `b` or a lower-numbered bus `d` already had, and every other driver loses at most `b` |
| Drivers.RouteStopsSpec | 3DNA/backend/api/drivers.php:56-83 | "Bus not found" exactly when the bus is unknown; otherwise each stop of the bus's route exactly once and no other stop, in non-decreasing stop order |
| Drivers.CurrentStatus | 3DNA/backend/api/drivers.php:85-105 | "Bus status not found" exactly when the bus has no status row; otherwise that row |
| Auth.RegisterRejectionSpec | 3DNA/backend/api/auth.php:99-144 | each rejection message exactly under its own condition, in the source's order: missing email, password or name; a driver without a licence; the email taken; the phone taken; a driver's licence taken. No rejection exactly when all checks pass |
| Auth.PassengerByDefault | 3DNA/backend/api/auth.php:105-152 | without `user_type` the new user is an active passenger and neither licence message can occur |
| Auth.RegisterPreservesUniqueness | 3DNA/backend/api/auth.php:119-152 | inserting an accepted registration keeps emails and phone numbers unique |
| Auth.PhonelessRegistrationsCollide | 3DNA/backend/api/auth.php:106-152 | a registration without a phone stores phone '' and a later non-driver registration without a phone, with a fresh email, is refused with "Phone number already registered" |
| Auth.Register | 3DNA/backend/api/auth.php:99-178 | fails exactly when a check rejects, with that check's message and no change; otherwise inserts exactly the new user under the next id, appends one `registration` log, returns the id and the token, and keeps emails and phones unique |
| Auth.LoginSpec | 3DNA/backend/api/auth.php:40-75 | "Email and password are required" exactly when either is empty; "Invalid credentials" exactly when there is no account with that email and type, or the lowest-numbered one is active and its password does not match; "User account is inactive" exactly when that account is inactive; success exactly when it is active and its hash verifies or the password is literally `password`, and then for that account |
| Auth.InactiveBeforePassword | 3DNA/backend/api/auth.php:64-75 | an inactive account is refused as inactive whatever non-empty password is given |
| Auth.DemoPasswordOpensActiveAccount | 3DNA/backend/api/auth.php:70-75 | the literal password `password` opens the first active matching account whatever its hash and the verifier |
| Auth.Login | 3DNA/backend/api/auth.php:40-97 | fails exactly as the login checks decide, changing nothing; a success returns that account's id, type, name and the token and appends exactly one `login` log |
| Users.DrivenRow | 3DNA/backend/api/users.php:41 | every bus paired with a user by the join is a stored bus whose `driver_id` is that user |
| Users.NoneDriven | 3DNA/backend/api/users.php:41 | when the join finds no bus for a user, no stored bus has that user as driver |
| Users.WithBuses | 3DNA/backend/api/users.php:39-41 | one row per driven bus, in order, each carrying that user and that bus's number |
| Users.UserJoin | 3DNA/backend/api/users.php:39-41 | as many rows as the user drives buses, or one; every row carries that user with a bus column the LEFT JOIN allows; every bus the user drives has its row; NULL only when the user drives none |
| Users.JoinBuses | 3DNA/backend/api/users.php:39-41 | the joined row count is the sum over selected users of their driven buses (at least one each); every row comes from a selected user with a bus column the LEFT JOIN allows; every (user, driven bus) pair has its row; a user driving no bus has the NULL row |
| Users.OrdersAreTotalPreorders | 3DNA/backend/api/users.php:43-51 | `ORDER BY full_name` and `ORDER BY user_type, full_name` are total preorders, so the sort is defined |
| Users.TypeThenNameTransitive | 3DNA/backend/api/users.php:51 | the type-then-name order is transitive |
| Users.SelectionRow | 3DNA/backend/api/users.php:37-53 | a user is selected exactly when it is stored and, when a truthy type is given, has that type |
| Users.ListUsersRows | 3DNA/backend/api/users.php:31-56 | the listing is a permutation of the join over the selected users, so it holds exactly those rows with their multiplicities |
| Users.DrivenCount | 3DNA/backend/api/users.php:39-41 | the scan of the buses a user drives has one row per such bus, and is empty exactly when the user drives none |
| Users.ListUsersSound | 3DNA/backend/api/users.php:37-53 | every listed row is a stored user, of the requested type when one is given, and a bus number shown belongs to a bus that user drives |
| Users.ListUsersComplete | 3DNA/backend/api/users.php:37-53 | every stored user of the requested type (any type when `type` is empty or `0`) is listed |
| Users.ListUsersOrder | 3DNA/backend/api/users.php:43-51 | with a type the rows are in name order; without one they are in type order and, within one type, in name order |
| Users.UserStatsSpec | 3DNA/backend/api/users.php:89-117 | `total` counts the users of the given type (every user without one); `active` is NULL exactly when `total` is 0 and otherwise counts the active ones among them, at most `total` |
| Users.CreateKeepsEmailsUnique | 3DNA/backend/api/users.php:136-150 | inserting a user whose email is not in use keeps emails unique |
| Users.CreateCanDuplicatePhone | 3DNA/backend/api/users.php:128-150 | with no phone check, creating a user with another user's phone breaks phone uniqueness |
| Users.CreateUser | 3DNA/backend/api/users.php:119-172 | fails exactly when a required field is empty ("Required fields missing") or the email is in use ("Email already exists"), changing nothing; otherwise inserts exactly one active user under the next id (returned) and one `user_created` log for entity `user` with that id, and keeps emails unique |
| Users.DeleteUser | 3DNA/backend/api/users.php:174-186 | always succeeds and removes only the user row whose id matches, keeping emails unique |
| Routes.Summaries | 3DNA/backend/api/routes.php:38-42 | grouping gives one row per route, in the same order, each carrying the number of stops on that route |
| Routes.ByRouteNumberIsTotalPreorder | 3DNA/backend/api/routes.php:43 | `ORDER BY route_number` is a total preorder |
| Routes.ActiveInOrderSpec | 3DNA/backend/api/routes.php:37-44 | before grouping, every active route occurs exactly once, no inactive route occurs, and the rows are in route-number order |
| Routes.ListedRoute | 3DNA/backend/api/routes.php:33-53 | every listed route is a stored active route and its `stop_count` is the number of stops with that route id |
| Routes.ActiveRouteListed | 3DNA/backend/api/routes.php:41 | every active route is listed |
| Routes.ListRoutesOrdered | 3DNA/backend/api/routes.php:43 | the listing is in route-number order |
| Routes.GetRoute | 3DNA/backend/api/routes.php:55-78 | "Route not found" exactly when no route has the `(int)` of the id; otherwise that route with its stop count |
| Routes.RouteStatsSpec | 3DNA/backend/api/routes.php:80-97 | `total` is the number of routes; `active` is NULL exactly when there are none, and otherwise equals the number of routes the active-route listing returns, at most `total` |
| Routes.ActiveCount | 3DNA/backend/api/routes.php:37-44 | the active-route listing has exactly as many rows as there are active routes |
| Routes.GetStopsSpec | 3DNA/backend/api/routes.php:99-116 | always succeeds; each stop with that route id exactly once, no other stop, in non-decreasing stop number |
| Routes.CreatedRouteDefaults | 3DNA/backend/api/routes.php:127-137 | a created route is active, and distance and time are 0 when absent |
| Routes.CreateRoute | 3DNA/backend/api/routes.php:118-148 | fails with "Required fields missing" exactly when the number or the name is empty, changing nothing; otherwise inserts only the new route under a fresh id, which it returns |
| Routes.DeleteRoute | 3DNA/backend/api/routes.php:150-162 | always succeeds and removes only the route row with that id, leaving its stops and the buses on it |
| Routes.CreatedRouteListed | 3DNA/backend/api/routes.php:41-43 | a route just created is active and so appears in the route listing |
| Analytics.DistancePairs | 3DNA/backend/api/analytics.php:52-56 | every joined pair is a stored bus on a stored route, at that route's current distance, and seen today; every location row of today whose bus and route are stored yields its pair |
| Analytics.Distances | 3DNA/backend/api/analytics.php:51 | the distance column of the pairs, one value per pair, in order |
| Analytics.OverviewCounts | 3DNA/backend/api/analytics.php:27-38 | `total_buses` is the number of buses, `active_buses` lies between 0 and it, and `inactive_buses` counts exactly the buses whose status is not `active` |
| Analytics.TripsTodayBound | 3DNA/backend/api/analytics.php:40-47 | `trips_today` never exceeds the number of distinct buses in the location history |
| Analytics.DistanceOncePerBus | 3DNA/backend/api/analytics.php:49-60 | the distinct pairs summed name each bus at most once, each a bus seen today and stored, at its current route's distance, and every bus seen today that is stored on a stored route is among them |
| Analytics.NoTripsNoDistance | 3DNA/backend/api/analytics.php:40-60 | with no location row today, `trips_today` is 0 and the distance is 0 (the `?? 0` of an empty SUM) |
| Analytics.SumValuesUpdate | 3DNA/backend/api/analytics.php:63-68 | changing one value changes the column sum by the difference |
| Analytics.SumValuesInsert | 3DNA/backend/api/analytics.php:63-68 | adding one row adds its value to the column sum |
| Analytics.PassengerTotalAfterUpdate | 3DNA/backend/api/analytics.php:63-68 | after one bus's passenger count is set, `total_passengers` changes by the difference |
| Analytics.PassengerTotalAfterCreate | 3DNA/backend/api/analytics.php:63-68 | a new status row with no passengers leaves `total_passengers` unchanged |
| Analytics.OverviewExample | 3DNA/backend/api/analytics.php:23-82 | three buses with two active and five of today's location rows from two buses give 3, 2, 1 and 2 trips |
| Analytics.DatesOf | 3DNA/backend/api/analytics.php:90 | the `DATE(created_at)` of every location row, in order |
| Analytics.DayRows | 3DNA/backend/api/analytics.php:89-96 | one row per reported day, in the same order, each counting that day's buses and drivers |
| Analytics.ReportedDaysCount | 3DNA/backend/api/analytics.php:96-98 | the number of groups is the smaller of 30 and the number of distinct dates |
| Analytics.ReportedDaysOrder | 3DNA/backend/api/analytics.php:97 | the reported dates are strictly descending |
| Analytics.StrictlyLatestFirst | 3DNA/backend/api/analytics.php:96-97 | distinct dates sorted latest first are strictly descending |
| Analytics.ReportedDayHasRows | 3DNA/backend/api/analytics.php:96 | every reported date is the date of some location row |
| Analytics.OmittedDaysAreEarlier | 3DNA/backend/api/analytics.php:97-98 | a date cut by the limit is earlier than every reported date |
| Analytics.DailyStatsSpec | 3DNA/backend/api/analytics.php:84-108 | at most 30 rows, strictly descending by date, each counting the distinct buses and the distinct drivers of its day |
| Analytics.Performances | 3DNA/backend/api/analytics.php:115-126 | one group per route, in the same order, each with its own counts |
| Analytics.RoutePerformancesOrder | 3DNA/backend/api/analytics.php:123-127 | as many rows as stored routes, in non-increasing GPS-point order |
| Analytics.RoutePerformanceComplete | 3DNA/backend/api/analytics.php:123-127 | every stored route has its row, with its own bus and GPS-point counts |
| Analytics.RoutePerformancesDistinct | 3DNA/backend/api/analytics.php:123-127 | no route has two rows, so with the row count and completeness each route appears exactly once |
| Analytics.RoutePerformanceRow | 3DNA/backend/api/analytics.php:115-126 | every row is a stored route with the counts of its buses and of their location rows |
| Analytics.RouteWithoutBusesHasNoPoints | 3DNA/backend/api/analytics.php:119-125 | a route with no bus reports 0 buses and 0 GPS points |
| Logs.NewestLogFirstIsTotalPreorder | 3DNA/backend/api/logs.php:33 | `ORDER BY created_at DESC` is a total preorder |
| Logs.LatestSpec | 3DNA/backend/api/logs.php:29-36 | the query returns min(limit, matching rows) rows, each a stored row that matches, newest first, and no matching row left out is newer than a returned one |
| Logs.NamedLatest | 3DNA/backend/api/logs.php:29-36 | the newest min(n, matching) matching rows, newest first, each a stored row with its user's name, and no matching row left out newer than a returned one |
| Logs.WithNames | 3DNA/backend/api/logs.php:30-32 | the LEFT JOIN keeps every log row, in order, and adds its user's name, NULL when that user does not exist |
| Logs.FilterAll | 3DNA/backend/api/logs.php:29-33 | with no WHERE clause every log row is a candidate |
| Logs.RecentLogsSpec | 3DNA/backend/api/logs.php:23-44 | with the limit bound as an integer (the corrected query, see "## Findings"): a database error exactly when the `(int)` limit is negative; without a limit min(20, all rows) rows; otherwise min(limit, all rows) stored rows, newest first, each with its user's name, with no row left out newer than a returned one |
| Logs.UserLogsSpec | 3DNA/backend/api/logs.php:46-67 | with the limit bound as an integer (the corrected query, see "## Findings"): a database error exactly when the limit is negative; min(limit, that user's rows) rows (limit 50 by default), each of that user, newest first, with no row of that user left out newer than a returned one |
| Logs.LeftOut | 3DNA/backend/api/logs.php:55-57 | a matching row not returned is among the rows the limit cut |
| Logs.EntityLogsSpec | 3DNA/backend/api/logs.php:69-91 | with the limit bound as an integer (the corrected query, see "## Findings"): a database error exactly when the limit is negative; min(limit, matching rows) rows (limit 50 by default), each of that entity type and id and with its user's name, newest first, with no matching row left out newer than a returned one |
| Logs.NewestLogFirstInRecent | 3DNA/backend/api/logs.php:29-36 | with the limit bound as an integer (the corrected query, see "## Findings"): after appending a row no older than every stored row, the first recent row has the appended row's `created_at` |
| Logs.LogsAsWritten | 3DNA/backend/api/logs.php:34-36 | as written, the recent, user and entity log requests are all refused with a database error, whatever the limit |
| Logs.DefaultRecentRequest | 3DNA/backend/api/logs.php:23-44 | a request for the recent logs with no parameters succeeds with the limit bound as an integer and is refused as written |
| Logs.RecentByDefault | 3DNA/backend/api/logs.php:23-44 | with the limit bound as an integer (the corrected query, see "## Findings"): without a `limit` the reply is the 20 newest rows of the whole table, each with its user's name |
| Logs.NewestRowFirst | 3DNA/backend/api/logs.php:29-36 | once a row no older than every stored row is appended, the newest rows start with a row of its age |
| Requests.SpaceRun | 3DNA/backend/config/Database.php:71 | the greedy `\s+` run: every character in it is whitespace and the one after it, if any, is not |
| Requests.WordRun | 3DNA/backend/config/Database.php:71 | the greedy `(\S+)` run: no character in it is whitespace and the one after it, if any, is |
| Requests.MatchesAtIffPattern | 3DNA/backend/config/Database.php:71 | the scanner's test at a position holds exactly when `Bearer\s+\S+` matches there under some split of the text |
| Requests.SpaceRunStops | 3DNA/backend/config/Database.php:71 | a whitespace run ended by a non-whitespace character is the greedy run |
| Requests.FirstMatch | 3DNA/backend/config/Database.php:71 | the unanchored search returns the leftmost matching position, or none when no position matches |
| Requests.CaptureSpec | 3DNA/backend/config/Database.php:71-72 | the capture is non-empty, has no whitespace, starts right after the whitespace following `Bearer` and runs to the next whitespace or the end |
| Requests.NoTokenSpec | 3DNA/backend/config/Database.php:67-76 | null exactly when there is no `Authorization` header or the pattern matches nowhere in it |
| Requests.TokenSpec | 3DNA/backend/config/Database.php:69-73 | a returned token is the capture at the leftmost position where the pattern matches |
| Requests.TokenShape | 3DNA/backend/config/Database.php:71-72 | a returned token is non-empty and has no whitespace |
| Requests.GetAuthTokenExamples | 3DNA/backend/config/Database.php:67-76 | `Bearer abc` gives `abc`; the lower-case scheme, a missing token and a lower-case header name give null |
| Requests.ValidateTokenSpec | 3DNA/backend/config/Database.php:79-83 | a token is valid exactly when it is present and neither `""` nor `"0"` |
| Requests.ExtractedTokenValid | 3DNA/backend/config/Database.php:67-83 | an extracted token is valid exactly when there is one and it is not `"0"` |
| Requests.Keys | 3DNA/backend/config/Database.php:58-62 | the keys of an array's entries, in order |
| Requests.Lookup | 3DNA/backend/config/Database.php:58-62 | a key lookup finds nothing exactly when the key is absent |
| Requests.Replace | 3DNA/backend/config/Database.php:61 | assigning an existing key changes only the entries with that key |
| Requests.Put | 3DNA/backend/config/Database.php:61 | PHP assignment to a string key: an existing key keeps its place and takes the value, a new key is appended |
| Requests.Payloads | 3DNA/backend/config/Database.php:61 | the data entries as envelope entries, in order |
| Requests.PutKeys | 3DNA/backend/config/Database.php:61 | after an assignment the keys are the old keys plus the assigned one |
| Requests.LookupUnique | 3DNA/backend/config/Database.php:58-62 | with unique keys a lookup finds the one entry with that key |
| Requests.PutUnique | 3DNA/backend/config/Database.php:61 | assignment keeps keys unique |
| Requests.PutLookup | 3DNA/backend/config/Database.php:61 | after assigning `k`, looking up `k` gives the new value and every other key is unchanged |
| Requests.SpreadUnique | 3DNA/backend/config/Database.php:58-62 | spreading `$data` keeps keys unique |
| Requests.SpreadOther | 3DNA/backend/config/Database.php:61 | a key the data does not mention keeps its value |
| Requests.SpreadData | 3DNA/backend/config/Database.php:61 | every data key ends with its data value |
| Requests.SpreadFresh | 3DNA/backend/config/Database.php:61 | data with only new keys is appended in its order |
| Requests.SendResponseSpec | 3DNA/backend/config/Database.php:57-64 | the envelope has unique keys, always has `success` and `message`, carries each data key with its value, and keeps the `success`/`message` arguments unless the data overrides them |
| Requests.SpreadAllData | 3DNA/backend/config/Database.php:61 | every data key carries its data value after the spread |
| Requests.FixedKey | 3DNA/backend/config/Database.php:59-61 | a fixed key is always present and keeps its value unless the data has that key |
| Requests.SendResponseLayout | 3DNA/backend/config/Database.php:57-64 | without colliding keys the envelope is `success`, `message`, then the data in order |
| Signup.JsLength | 3DNA/frontend/js/driver-signup.js:112 | `.length` counts UTF-16 code units: between one and two per character |
| Signup.TrimStartSpec | 3DNA/frontend/js/driver-signup.js:103-106 | the start trim drops exactly the leading whitespace and leaves text that does not start with whitespace |
| Signup.TrimEndSpec | 3DNA/frontend/js/driver-signup.js:103-106 | the end trim drops exactly the trailing whitespace and leaves text that does not end with whitespace |
| Signup.TrimSpec | 3DNA/frontend/js/driver-signup.js:103-106 | `.trim()` gives the slice between the leading and the trailing whitespace, which neither starts nor ends with whitespace |
| Signup.TrimIdempotent | 3DNA/frontend/js/driver-signup.js:103-106 | trimming twice is trimming once |
| Signup.IndexOf | 3DNA/frontend/js/driver-signup.js:163 | the first occurrence of a character at or after a position, or none when there is none |
| Signup.IsValidEmailIffPattern | 3DNA/frontend/js/driver-signup.js:162-165 | the check holds exactly when `^[^\s@]+@[^\s@]+\.[^\s@]+$` matches: no whitespace, one `@` with text before it, and a dot with text on both sides after it |
| Signup.EmailRejections | 3DNA/frontend/js/driver-signup.js:162-165 | `a@b.co` is valid; the empty string, `0`, `@b.co` and `a@bco` are not |
| Signup.StripSpacesSpec | 3DNA/frontend/js/driver-signup.js:172 | `.replace(/\s/g, '')` keeps exactly the characters that are not whitespace |
| Signup.StripConcat | 3DNA/frontend/js/driver-signup.js:172 | removing whitespace distributes over concatenation |
| Signup.PhoneIgnoresSpace | 3DNA/frontend/js/driver-signup.js:170-173 | inserting a whitespace character anywhere never changes the phone verdict |
| Signup.PhoneLength | 3DNA/frontend/js/driver-signup.js:170-173 | a valid phone has at least ten characters, so the empty field fails |
| Signup.StrongStaysStrong | 3DNA/frontend/js/driver-signup.js:178-182 | appending text never makes a strong password weak |
| Signup.FormValidIffNoFailure | 3DNA/frontend/js/driver-signup.js:111-154 | the form meets every condition exactly when none of the seven checks fails |
| Signup.AllReportsSpec | 3DNA/frontend/js/driver-signup.js:111-156 | after the seven checks exactly the failing ones show their message, and nothing shows exactly when none fails |
| Signup.CheckSlot | 3DNA/frontend/js/driver-signup.js:111-154 | one check clears the flag exactly when it fails and then shows its message in its slot, "too short" before "weak" for the password; otherwise nothing changes |
| Signup.ValidateForm | 3DNA/frontend/js/driver-signup.js:100-157 | an error shows in a slot exactly when its check fails, with that check's message; the result is true exactly when no error shows and exactly when the form meets all seven conditions |
| Signup.TrimZero | 3DNA/frontend/js/driver-signup.js:103-106 | trimming leaves `0` and the empty string as they are |
| Signup.LongTrimNotBlank | 3DNA/backend/api/auth.php:109 | a value whose trim has at least two code units is not PHP-empty |
| Signup.EmailNotBlank | 3DNA/backend/api/auth.php:109 | a value whose trim is a valid email is not PHP-empty |
| Signup.AcceptedFormPassesPresenceChecks | 3DNA/frontend/js/driver-signup.js:17-43 | a form the page accepts passes the server's presence and licence checks, so only the duplicate email, phone or licence rejections remain |
| Signup.Lower | 3DNA/frontend/js/driver-signup.js:76-80 | `.toLowerCase()` maps each character to its lower-case form, keeping the length |
| Signup.RoutingIgnoresCase | 3DNA/frontend/js/driver-signup.js:75-84 | messages equal up to letter case are routed to the same place, and the server's own text is shown |
| Signup.LowerConcat | 3DNA/frontend/js/driver-signup.js:76-80 | lowercasing distributes over concatenation |
| Signup.MissingLetter | 3DNA/frontend/js/driver-signup.js:76-80 | a word holding a letter the text lacks in both cases is not found |
| Signup.NoStraddle | 3DNA/frontend/js/driver-signup.js:76-80 | an occurrence of a word without spaces lies wholly before or wholly after a space |
| Signup.SpaceSplits | 3DNA/frontend/js/driver-signup.js:76-80 | a word without spaces found in two space-joined parts is found in one of them |
| Signup.LowerAroundSpace | 3DNA/frontend/js/driver-signup.js:76-80 | lowercasing two space-joined parts lowercases each |
| Signup.NotInWords | 3DNA/frontend/js/driver-signup.js:76-80 | a word missing a letter from every space-separated part is not in the lower-cased text |
| Signup.WordIn | 3DNA/frontend/js/driver-signup.js:76-80 | a lower-case word is found in the lower-cased text containing it |
| Signup.CapitalizedWordIn | 3DNA/frontend/js/driver-signup.js:76-80 | a capitalised word is found, in lower case, in the lower-cased text containing it |
| Signup.NoEmailInTail | 3DNA/frontend/js/driver-signup.js:76 | "number already registered" and "number is required" do not contain "email" |
| Signup.EmailMessagesRouted | 3DNA/frontend/js/driver-signup.js:76-77 | both email messages of registration go to the email field |
| Signup.NoPhoneInTail | 3DNA/frontend/js/driver-signup.js:78 | "number already registered" and "number is required" do not contain "phone" |
| Signup.PhoneMessageHasNoEmail | 3DNA/frontend/js/driver-signup.js:76 | the phone rejection does not contain "email" |
| Signup.PhoneInMessage | 3DNA/frontend/js/driver-signup.js:78 | a message starting with "Phone" contains "phone" once lower-cased |
| Signup.PhoneMessageRouted | 3DNA/frontend/js/driver-signup.js:75-79 | "Phone number already registered" goes to the phone field |
| Signup.LicenseMessageHasNeither | 3DNA/frontend/js/driver-signup.js:76-78 | the licence rejection contains neither "email" nor "phone" |
| Signup.LicenseMessageRouted | 3DNA/frontend/js/driver-signup.js:75-81 | "License number already registered" goes to the licence field |
| Signup.LicenseRequiredHasNeither | 3DNA/frontend/js/driver-signup.js:76-78 | the missing-licence message contains neither "email" nor "phone" |
| Signup.LicenseRequiredRouted | 3DNA/frontend/js/driver-signup.js:75-81 | "Driver license number is required" goes to the licence field |
| Signup.LicenseInRequired | 3DNA/frontend/js/driver-signup.js:80 | the missing-licence message contains "license" |
| Signup.PhoneRegisteredRouted | 3DNA/frontend/js/driver-signup.js:75-84 | the phone rejection of registration is shown at the phone field |
| Signup.LicenseRegisteredRouted | 3DNA/frontend/js/driver-signup.js:75-84 | the duplicate-licence rejection is shown at the licence field |
| Signup.LicenseMissingRouted | 3DNA/frontend/js/driver-signup.js:75-84 | the missing-licence rejection is shown at the licence field |
| Signup.RegisterRejectionsRouted | 3DNA/frontend/js/driver-signup.js:75-84 | every rejection registration can give lands at its own field: email messages at the email field, the phone message at the phone field, the licence messages at the licence field |
| Schema.UpdateWhere | 3DNA/backend/api/trips.php:39-52 | an `UPDATE ... WHERE id = ?` keeps the table's keys, rewrites only the selected row if it exists, and leaves every other row as it was |
| Schema.DeleteWhere | 3DNA/backend/api/buses.php:183-184 | a `DELETE ... WHERE id = ?` removes exactly the selected key (nothing for NULL) and leaves every other row as it was |
| Schema.UpdateWhereIdempotent | 3DNA/backend/api/trips.php:121-126 | applying an idempotent row update twice equals applying it once |
| Schema.ByStopNumberIsTotalPreorder | 3DNA/backend/api/drivers.php:73 | `ORDER BY stop_number` is a total preorder |
| Schema.StopsOfRouteSpec | 3DNA/backend/api/routes.php:103-107 | the stops query returns each stop of the route exactly once, no stop of another route, in non-decreasing stop number |
| Schema.Database.InsertBus | 3DNA/backend/api/buses.php:133-139 | the bus goes in under the next auto-increment id, which is returned and is fresh in both `buses` and `bus_status`; nothing else changes |
| Schema.Database.InsertUser | 3DNA/backend/api/users.php:146-152 | the user goes in under the next auto-increment id, which is returned and fresh; nothing else changes |
| Schema.Database.InsertRoute | 3DNA/backend/api/routes.php:135-141 | the route goes in under the next auto-increment id, which is returned and fresh; nothing else changes |
| Schema.Database.AppendLocation | 3DNA/backend/api/locations.php:43-47 | one history row with a fresh id and `created_at` = now is appended; nothing else changes |
| Schema.Database.AppendLog | 3DNA/backend/api/trips.php:55-65 | one log row with the next id and `created_at` = now is appended; nothing else changes |
| Sequences.SortBy | 3DNA/backend/api/logs.php:33 | ORDER BY returns a permutation of the rows, sorted by the key |
| Sequences.Filter | 3DNA/backend/api/logs.php:55 | WHERE keeps each row satisfying the condition exactly as often as it occurs, and no other row |
| Sequences.Take | 3DNA/backend/api/logs.php:34-36 | LIMIT returns the first min(n, rows) rows |
| Sequences.TopK | 3DNA/backend/api/logs.php:33-36 | ORDER BY with LIMIT returns min(n, rows) of the rows, sorted, and no row left out sorts before a returned one |
| Sequences.Rows | 3DNA/backend/api/drivers.php:43 | a table scan lists every row once, with its key, in ascending key order, which is the row an unordered `fetch()` is taken to return first |
| Sequences.RowsMultiplicity | 3DNA/backend/api/routes.php:104 | a table scan yields each stored row exactly once |
| Sequences.FilterRows | 3DNA/backend/api/routes.php:104-105 | a filtered scan yields each stored row that matches exactly once and nothing else |
| Sequences.FilterRowsCount | 3DNA/backend/api/routes.php:104-105 | a filtered table scan has exactly as many rows as there are keys whose row matches |
| Sequences.Distinct | 3DNA/backend/api/analytics.php:52 | DISTINCT keeps exactly the values that occur, each once |
| Sequences.StrLeIsTotalPreorder | 3DNA/backend/api/users.php:43 | ordering by a text column (by code point) is a total preorder |
| PhpValues.Field | 3DNA/backend/api/auth.php:102-107 | `$input[key] ?? default` never gives null unless the default is null |
| PhpValues.LimitCount | 3DNA/backend/config/Database.php:17-22 | MySQL reads a row count after LIMIT exactly when the text is a non-empty run of digits |
| PhpValues.IntLimit | 3DNA/backend/config/Database.php:17-22 | a limit bound as an integer is read back as itself, and refused when negative |
| PhpValues.StrLimitRefused | 3DNA/backend/config/Database.php:17-22 | a limit bound as a string is written quoted under emulated prepares and refused whatever its value |
| PhpValues.SqlInt | 3DNA/backend/api/users.php:178 | a bound parameter selects nothing exactly when it is null |
| PhpValues.IntCastRoundTrip | 3DNA/backend/api/logs.php:36 | `(int)` reads back every integer from its decimal spelling |
| PhpValues.EmptyIffBlankString | 3DNA/backend/config/Database.php:82 | `empty()` holds exactly of the values whose string form is `""` or `"0"` |

## Left out

- The dispatch on `$_GET['action']` and the request method at the top of each endpoint file is not modelled. Each handler is modelled on its own.
- `json_decode` and `file_get_contents('php://input')` are not modelled. A request body is a map from key to PHP scalar, and a body that is not a JSON object reads as the empty map. Arrays, objects and floats inside a body are not modelled.
- Floating point is left out. Coordinates, speeds, accuracies and distances are integers. `round($total_distance_km, 2)`, `AVG` and `MAX` of speed, and the speed columns of `getDailyStats` and `getRoutePerformance` are not modelled.
- Clocks: `NOW()`, `CURRENT_TIMESTAMP` and `CURDATE()` are the parameters `now` and `today`. `DATE(ts)` is `ts / 86400` on a timestamp in seconds, so time zones are not modelled.
- `password_hash` and `password_verify` are opaque function parameters, so bcrypt is not modelled. The token produced from `random_bytes` on login and registration is a parameter.
- `$_SESSION['user_id'] ?? null` in `createUser` is the parameter `session`.
- Failures of the database are not modelled: a `PDOException` from a lost connection, a broken constraint or a deadlock. The exception is a `LIMIT` MySQL refuses: a negative one, or a quoted one (see "## Findings"). The model answers both with `Database error`. The driver's own error text is not modelled either.
- Constraints are not modelled: foreign keys, unique indexes and column types. For example, a bus may name a route that does not exist, which the queries' joins then drop. Deleting a bus leaves its status row.
- PhpValues.SqlInt: a parameter that is a fractional numeric string, such as `id=1.5`, is read as the integer `(int)` gives (1). MySQL compares it with an integer column as a double, so it selects no row, and it rounds it when storing. The model therefore lets `Buses.DeleteBus` with `id=1.5` delete bus 1, where the source deletes nothing.
- MySQL's implicit coercions are not modelled beyond integer columns. Text comparisons are exact on code points, so case-insensitive collations are not modelled. `ORDER BY` on text is by code point.
- An unordered `fetch()` is taken to return the row with the lowest primary key. MySQL does not promise this, and the code does not rely on it.
- Concurrency is not modelled. Two requests can race between the duplicate checks of registration and its insert, and the database resolves that; the model is sequential.
- `listBuses`, `getBus` and `getUser` are read-only presentation joins. `listBuses` and `getBus` repeat a bus once per location row. They have no contract of their own and are not modelled.
- `sendResponse` is not modelled beyond the array it builds. Nested data values are opaque payloads. `json_encode`, `echo` and `exit` are I/O. The early `exit` of a failed check is what makes each method stop at its first rejection.
- `Database.php` also opens the connection, sends CORS headers, starts the session and installs a shutdown handler. All of that is environment setup and is not modelled.
- `getAuthToken` takes the headers as a map. The key `Authorization` is matched exactly, as `isset($headers['Authorization'])` reads the array `getallheaders()` returns.
- `PhpValues.IntCast` is not modelled on the exponent form of numeric strings (`"1e3"`), nor on values outside PHP's 64-bit integer range, which PHP saturates. None of the modelled inputs depends on either.
- `Signup.Lower` lowercases ASCII letters only, where JavaScript's `toLowerCase` covers all of Unicode. The routing lemmas are about the server's ASCII messages, so they do not depend on the difference.
- `Signup.TrimSpec` and `Signup.IsValidEmailIffPattern` count characters as code points. `Signup.JsLength` gives the UTF-16 length the page's `.length` checks compare.
- The DOM is not modelled. `showError` is modelled as an update of a map from error slot to message. `clearAllErrors` is modelled as the empty map `validateForm` starts from. The request the page posts is `Signup.Submitted`, with the untrimmed field values the page sends.
- `validateField` (`3DNA/frontend/js/driver-signup.js:217-276`) re-checks one field on blur and duplicates the checks of `validateForm`. It is not modelled.
- The success branch of the sign-up page (storage, redirect, timers) and its `fetch` error handling are I/O and are not modelled.
- The UI modules `admin-dashboard.js`, `tracking-map.js`, `driver-dashboard.js` and `auth.js`, and `health.php`, are not part of this model.

## Findings

| source | as written | input that shows it | evidently intended | confidence | as-written member | corrected member |
|---|---|---|---|---|---|---|
| 3DNA/backend/api/logs.php:36 | `execute([(int)$limit])` binds the limit as a string. Under the emulated prepares that `3DNA/backend/config/Database.php:21` switches on, MySQL receives `LIMIT '20'`, a syntax error, so `getRecentLogs`, `getUserLogs` (line 59) and `getEntityLogs` (line 83) always answer "Database error" | `GET logs.php?action=recent` with no `limit` | the limit is bound as an integer, as the comment at `3DNA/backend/config/Database.php:20` expects ("allow LIMIT placeholders"), and the newest rows come back | high for the quoting; not executed | Logs.LogsAsWritten, Logs.DefaultRecentRequest | Logs.RecentLogsSpec, Logs.UserLogsSpec, Logs.EntityLogsSpec |
| 3DNA/backend/api/locations.php:104 | `execute([$bus_id, (int)$limit])` binds the limit as a string, so `getLocationHistory` always answers "Database error" | `GET locations.php?action=history&bus_id=1` | the limit is bound as an integer and the newest rows of the bus come back | high for the quoting; not executed | Locations.HistoryAsWritten | Locations.HistorySpec |
