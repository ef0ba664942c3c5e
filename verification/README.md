# RFID attendance logging — verified functional model

This project models the core of an RFID attendance tracker written in JavaScript:

- **The backend** (`rfid-backend/index.js`, an Express server over MySQL). A badge tap posted to
  `/api/scan` is either captured for enrollment or recorded as an IN/OUT attendance event, depending
  on a process-wide enrollment session. `/api/enroll/start`, `/api/enroll/stop` and
  `/api/enroll/latest` drive that session. `/api/rfid` registers a badge. `/api/attendance` lists
  every user with their latest status.
- **The dashboard's data logic** (`RFIDDashboard.jsx`, a React page). It covers the statistics block,
  CSV export text, the search filter, the fallback to an empty list, and the
  enrollment/registration sequence the page runs against the backend.

Each endpoint is a pure function `State x Request -> State x Response`. The state is the enrollment
`Session` (`enrollmentMode`, `lastEnrollmentUid`) plus the two tables (`users`,
`attendance_logs`), held as sequences in insertion order. Whether a database call succeeds is an
explicit parameter (`DbCall`). So is the database clock reading at an insertion (`now`).

| file | module | models |
|---|---|---|
| `wrappers.dfy` | `Wrappers` | `Option`, standing in for `null` |
| `strings.dfy` | `Strings` | name ordering, ASCII lower-casing, `includes`, `join`/`split` |
| `store.dfy` | `Store` | the tables, the user lookup, the latest entry per user, the IN/OUT toggle, the inserts |
| `view.dfy` | `AttendanceView` | the `/api/attendance` query: left join with the latest entry, ordered by name |
| `backend.dfy` | `Backend` | the six endpoints and the enrollment session |
| `scans.dfy` | `ScanSequences` | runs of scans: strict alternation, and scans while enrollment is armed |
| `dashboard.dfy` | `Dashboard` | non-array fallback, statistics, CSV, search filter |
| `client.dfy` | `Client` | page state, polling, start/stop, `handleAddRFID`, end-to-end enrollment |

Points where the code's behaviour is easy to misread:

- The backend's registration does **not** leave enrollment mode. Only the dashboard does that, by
  calling `/api/enroll/stop` after a successful insert. `Backend.Register` leaves the session
  unchanged. `Client.RegisterAloneKeepsEnrollment` shows what follows: after registering alone, the
  new badge's next tap is still only captured. `Client.EnrollmentFlow` shows the page's sequence
  does leave enrollment.
- There is no duplicate-badge check in the code. An insert the database refuses is the `DbFails`
  outcome, which gives a 500. The model adds no rule about which inserts the database refuses.
- A user's latest entry is the one with the greatest `scan_time`, not the one inserted last. The
  model follows the query: `Store.LatestIndex` picks an entry of greatest scan time, taking the one
  appended last among equal times. `Store.LatestIsLastAppended` shows that this is the last appended
  entry when times never decrease. `Backend.ScanPreservesTimesOrdered` shows that a clock that
  never runs backwards keeps them that way. Strict IN/OUT alternation needs a clock that moves
  forward. `ScanSequences.ClockBackwardsRepeatsStatus` shows taps at clock readings 10, 5 and 7
  record IN, OUT, OUT.
- The attendance rate is `Math.round(present / total * 100)`. It is modelled as exact round-half-up,
  `(200 * present + total) / (2 * total)`. Under that rounding, "the rate is 100 iff everyone is IN"
  holds only below 200 rows. `Dashboard.RoundingHidesAbsence` shows 199 IN and 1 OUT displayed
  as 100. `Dashboard.AttendanceExtremes` proves the exact statement.

## Model

| member | source | states |
|---|---|---|
| `Backend.Scan` | rfid-backend/index.js:94-165 | A missing or empty UID gives 400 and changes nothing. With enrollment on, the UID is captured, the response is `enroll`, and neither table changes whatever the database does. Otherwise an unregistered badge gives 403 and a failed database call gives 500, both with no change. A registered badge gets the toggle of its user's latest entry. Exactly one entry is appended, with that user, status, clock and device (or null). The response carries the same status and the user's name. No path creates a user. |
| `Backend.Register` | rfid-backend/index.js:68-91 | Missing or empty `rfid` or `name` gives 400 and no insertion. A failed insert gives 500 and no change. Otherwise exactly one user is appended with the next key. The session and the logs are never touched. |
| `Backend.Attendance` | rfid-backend/index.js:33-65 | Returns the view of the current tables, or 500 when the query fails. State is never changed. |
| `Backend.StartEnrollment` | rfid-backend/index.js:168-172 | Mode on and captured UID null. Tables unchanged. |
| `Backend.StopEnrollment` | rfid-backend/index.js:175-179 | Mode off and captured UID null. Tables unchanged. |
| `Backend.LatestEnrollment` | rfid-backend/index.js:182-184 | Reports the captured UID. State unchanged. |
| `Backend.StoredDevice` | rfid-backend/index.js:150 | The stored device id is null exactly when the request's is absent or empty. Otherwise it is the request's. |
| `Backend.StartStopIdempotent` | rfid-backend/index.js:168-179 | Start twice equals start once. Stop twice equals stop once. |
| `Backend.LatestAfterStartOrStop` | rfid-backend/index.js:168-184 | Polling right after start, or right after stop, returns null. |
| `Backend.ScanPreservesValid` | rfid-backend/index.js:117-151 | After any scan, keys are still auto-increment and every log entry still refers to an existing user. |
| `Backend.RegisterPreservesValid` | rfid-backend/index.js:79-82 | Registration keeps keys sequential and log references valid. |
| `Backend.ScanPreservesTimesOrdered` | rfid-backend/index.js:145-151 | A scan stamped no earlier than every existing entry keeps the log ordered by scan time. |
| `Store.FindUser` | rfid-backend/index.js:117-124 | Null exactly when no user holds the badge. Otherwise a user holding the badge. |
| `Store.FindUserIndex` | rfid-backend/index.js:117-120 | The position of the first user holding the badge, or none when no user does. |
| `Store.LatestLog` | rfid-backend/index.js:127-136 | Null exactly when the user has no entry. Otherwise one of the user's entries, with no entry of the user later in time. |
| `Store.LatestIndex` | rfid-backend/index.js:127-136 | None exactly when the user has no entry. Otherwise the position of an entry of the user whose scan time is the greatest among the user's entries. Every later-appended entry of the user is strictly earlier in time. |
| `Store.LatestIsLastAppended` | rfid-backend/index.js:127-136 | When scan times never decrease, the latest entry by time is the user's last appended entry. |
| `Store.NextStatus` | rfid-backend/index.js:138-142 | IN exactly when there is no entry or the latest is OUT. OUT exactly when the latest is IN. |
| `Store.InsertUser` | rfid-backend/index.js:79-82 | Appends one user with key `|users| + 1` and keeps every earlier user and all logs. |
| `Store.InsertLog` | rfid-backend/index.js:145-151 | Appends one entry with key `|logs| + 1` and keeps every earlier entry and all users. |
| `Store.LatestAfterAppend` | rfid-backend/index.js:127-151 | An appended entry stamped no earlier than its user's other entries becomes that user's latest. |
| `Store.LatestOtherAfterAppend` | rfid-backend/index.js:145-151 | Appending an entry does not change any other user's latest entry. |
| `ScanSequences.TapsAlternate` | rfid-backend/index.js:127-151 | With enrollment off and clock readings that rise strictly past every logged entry, repeated taps of a registered badge record strictly alternating statuses. They start from the toggle of the latest entry. Each tap appends one entry and leaves the session alone. |
| `ScanSequences.NewBadgeAlternates` | rfid-backend/index.js:127-151 | With a strictly rising clock, a badge whose user never scanned records IN, OUT, IN, ... starting at IN. |
| `ScanSequences.ClockBackwardsRepeatsStatus` | rfid-backend/index.js:127-151 | Without a forward clock the alternation breaks. A new badge tapped at readings 10, 5 and 7 records IN, OUT, OUT, because the query's latest entry for the third tap is the IN at 10. |
| `ScanSequences.EnrollmentScansWriteNothing` | rfid-backend/index.js:97-109 | While enrollment is on, any scans of any badges, whatever the database does, leave both tables unchanged. The mode stays on and the slot holds the most recent non-empty UID. Each scan answers `enroll`, or 400 for an empty UID. |
| `ScanSequences.LastCaptured` | rfid-backend/index.js:102-103 | The last non-empty UID of a sequence of scans, or the prior slot value when there is none. |
| `AttendanceView.View` | rfid-backend/index.js:38-56 | One row per user and no more: a permutation of the per-user joined rows. Sorted by name ascending. Every user's row is present. Department is always `N/A`. |
| `AttendanceView.Joined` | rfid-backend/index.js:38-54 | Row `i` is user `i` joined with that user's latest entry. |
| `AttendanceView.RowStatusFromLatest` | rfid-backend/index.js:44-54 | Status and lastScan are null exactly when the user has no entry. Otherwise they are the latest entry's type and time. |
| `AttendanceView.OneRowPerUser` | rfid-backend/index.js:46-54 | With distinct user keys, no two rows of the view belong to the same user. |
| `AttendanceView.SortByName` | rfid-backend/index.js:55 | The result is ordered by name and is a permutation of the input. |
| `AttendanceView.ViewCountsUsers` | rfid-backend/index.js:38-56 | The number of rows with status `s` equals the number of users whose latest entry is `s`. |
| `Client.ToClientRow` | rfid-backend/index.js:58 | rfid, name and department are carried over unchanged. A null status stays null, and IN and OUT become the strings "IN" and "OUT". A null last scan stays null, and a present one becomes its text. |
| `Client.StatsCountUsers` | rfid-attendance-dashboard/src/components/Dashboard/RFIDDashboard.jsx:59-62 | Over a fetched view: total is the number of users, present is those whose latest entry is IN, absent those whose latest is OUT. |
| `Client.RefreshAttendance` | rfid-attendance-dashboard/src/components/Dashboard/RFIDDashboard.jsx:139-147 | Replaces only the page's list. When the query succeeds the list is the encoded view of the current tables, one row per user. On a 500 it is the empty list. |
| `Client.StartEnrollment` | rfid-attendance-dashboard/src/components/Dashboard/RFIDDashboard.jsx:90-98 | The server is armed with nothing captured. The page shows active, no UID, and polls. |
| `Client.StopEnrollment` | rfid-attendance-dashboard/src/components/Dashboard/RFIDDashboard.jsx:100-107 | The server is disarmed. The page stops polling and shows inactive. A UID already shown is kept. |
| `Client.StopEndsCapture` | rfid-attendance-dashboard/src/components/Dashboard/RFIDDashboard.jsx:100-107 | After cancelling, a poll tick changes nothing and `latest` reports null. A registered badge's next tap is recorded as attendance, not captured. |
| `Client.PollTick` | rfid-attendance-dashboard/src/components/Dashboard/RFIDDashboard.jsx:23-38 | While polling, polling stops exactly when `latest` returns a non-null UID. That UID goes into both the shown UID and the form's rfid field. A null UID changes nothing. |
| `Client.AddRfid` | rfid-attendance-dashboard/src/components/Dashboard/RFIDDashboard.jsx:110-159 | An incomplete form alerts and sends nothing. A failed insert alerts and changes nothing. Success happens exactly when the form is complete and the insert succeeds. It appends the user, leaves the server disarmed with nothing captured, resets the page's enrollment state and clears the form. |
| `Client.RegisterAloneKeepsEnrollment` | rfid-backend/index.js:68-109 | The backend's registration alone leaves an armed session armed. The new badge's next tap is captured and writes no attendance. |
| `Client.EnrollmentFlow` | rfid-attendance-dashboard/src/components/Dashboard/RFIDDashboard.jsx:90-150 | Start, tap a new badge, poll, fill in and submit. The poll puts the UID in the form, and the tap wrote nothing. Afterwards the server is disarmed and `latest` is null. The badge's next tap records IN. |
| `Dashboard.LoadedRows` | rfid-attendance-dashboard/src/components/Dashboard/RFIDDashboard.jsx:40-58 | An array body is kept. Any other body, or a failed fetch, gives the empty list. |
| `Dashboard.NonArrayShowsEmpty` | rfid-attendance-dashboard/src/components/Dashboard/RFIDDashboard.jsx:44-68 | After a non-array or failed fetch, the statistics are all zero and the filter shows nothing. |
| `Dashboard.CountStatus` | rfid-attendance-dashboard/src/components/Dashboard/RFIDDashboard.jsx:61-62 | At most the row count. Equal to it exactly when every row has the status. Zero exactly when none has. |
| `Dashboard.RoundPercent` | rfid-attendance-dashboard/src/components/Dashboard/RFIDDashboard.jsx:63-67 | In 0..100. It is 100 exactly when `200 * (total - present) <= total`, and 0 exactly when `200 * present < total`. |
| `Dashboard.ComputeStats` | rfid-attendance-dashboard/src/components/Dashboard/RFIDDashboard.jsx:59-68 | total is the row count, present counts IN and absent counts OUT, so `present + absent <= total`. The rate is at most 100. It is 0 for no rows, and otherwise the rounded percentage of present over total. |
| `Dashboard.AttendanceExtremes` | rfid-attendance-dashboard/src/components/Dashboard/RFIDDashboard.jsx:63-67 | For a non-empty list, the rate is 100 exactly when `200 * (total - present) <= total` and 0 exactly when `200 * present < total`. All IN shows 100 and none IN shows 0. Below 200 rows, 100 holds iff everyone is IN and 0 iff nobody is. |
| `Dashboard.RoundingHidesAbsence` | rfid-attendance-dashboard/src/components/Dashboard/RFIDDashboard.jsx:63-67 | 199 IN rows and 1 OUT row show a rate of 100 with one absent. |
| `Dashboard.NullStatusCountsNowhere` | rfid-attendance-dashboard/src/components/Dashboard/RFIDDashboard.jsx:59-62 | A row with null status raises the total only. |
| `Dashboard.Fields` | rfid-attendance-dashboard/src/components/Dashboard/RFIDDashboard.jsx:76 | Five columns in the order rfid, name, department, status, last scan. A null status or last scan is printed as the empty string. |
| `Dashboard.CsvHasHeaderAndOneLinePerRow` | rfid-attendance-dashboard/src/components/Dashboard/RFIDDashboard.jsx:71-78 | When no field holds a newline, the text splits into exactly `1 + n` lines. The first is `RFID,Name,Department,Status,Last Scan` and line `i + 1` is row `i`. |
| `Dashboard.CsvLine` | rfid-attendance-dashboard/src/components/Dashboard/RFIDDashboard.jsx:75-77 | When no field holds a comma, a line splits back into the row's five fields. A character other than a comma that no field holds is not in the line. |
| `Dashboard.Csv` | rfid-attendance-dashboard/src/components/Dashboard/RFIDDashboard.jsx:71-78 | With no rows the text is the header alone. Otherwise it holds a newline. Its full meaning is stated by `Dashboard.CsvHasHeaderAndOneLinePerRow`. |
| `Dashboard.CommaInNameShiftsColumns` | rfid-attendance-dashboard/src/components/Dashboard/RFIDDashboard.jsx:76 | Nothing is quoted: a name holding one comma spreads over two columns, giving six. |
| `Dashboard.Matches` | rfid-attendance-dashboard/src/components/Dashboard/RFIDDashboard.jsx:163-167 | True exactly when the lower-cased term occurs at some position of the lower-cased name, rfid or department. |
| `Dashboard.FilterRows` | rfid-attendance-dashboard/src/components/Dashboard/RFIDDashboard.jsx:162-168 | An order-preserving subsequence of the input that holds only matching rows and as many rows as match, so exactly the matching rows in order. |
| `Dashboard.EmptyTermKeepsAll` | rfid-attendance-dashboard/src/components/Dashboard/RFIDDashboard.jsx:162-168 | An empty search term keeps every row. |
| `Dashboard.FilterIgnoresTermCase` | rfid-attendance-dashboard/src/components/Dashboard/RFIDDashboard.jsx:164-166 | Searching a term and its lower-cased form shows the same rows. |
| `Strings.Includes` | rfid-attendance-dashboard/src/components/Dashboard/RFIDDashboard.jsx:164-166 | True exactly when the needle occurs at some position of the haystack. |
| `Strings.ToLower` | rfid-attendance-dashboard/src/components/Dashboard/RFIDDashboard.jsx:164-166 | Same length. No ASCII capital letter is left. Every other character is unchanged, and each capital becomes its lower-case letter, 32 code points higher. |
| `Strings.Join` | rfid-attendance-dashboard/src/components/Dashboard/RFIDDashboard.jsx:73-78 | No parts give the empty string and one part gives itself. Two or more parts put the separator in the text. `Strings.SplitJoin` is its inverse. |
| `Backend.Truthy` | rfid-backend/index.js:71 | A field is falsy exactly when it is absent, null or the empty string. The same test guards the UID at line 97. |
| `Strings.SplitJoin` | rfid-attendance-dashboard/src/components/Dashboard/RFIDDashboard.jsx:74-78 | Splitting a join gives back the parts when no part holds the separator. |

## Left out

- Database plumbing: connection setup, TLS and environment (`rfid-backend/index.js:18-30`, `rfid-backend/db.js`), and closing connections. They are I/O. A failed call is the `DbFails` outcome.
- Express routing, CORS, JSON parsing, `app.listen`. Request bodies are modelled as optional strings. A JSON value that is not a string, such as a number or `false`, is not modelled.
- The database's unique constraint on `rfid_uid`, if there is one, is not part of this model. A refused insert is just `DbFails`. `Store.FindUser` takes the first user holding a badge.
- Backend.Scan: among a user's entries sharing the greatest `scan_time`, the query's choice is unspecified. The model takes the last appended one. The alternation lemmas therefore require strictly rising clock readings, where no tie arises. When the clock's resolution lets two taps share a time, the model does not cover the query's choice between them.
- Auto-increment keys are `|users| + 1` and `|logs| + 1`. Keys consumed by failed inserts are not modelled.
- The SQL collation. Names are ordered by character code, and `rfid_uid` is compared exactly. MySQL's case- and accent-insensitive collations are not modelled. Rows with equal names keep user order.
- Concurrency. Two simultaneous taps of a badge can both read the same latest status, and two operators can share the single session. The model is sequential and promises nothing about either case.
- Floating point in the attendance rate. The model uses exact half-up rounding. A float product falling just beside an exact `.5` is not modelled.
- `String.prototype.toLowerCase` is modelled on ASCII letters only.
- Network failures of the page's own requests, such as `fetch` rejecting, alerts' timing, `isLoading`, `setInterval` timing, rendering, the Blob download and the mock data. `rfid-attendance-dashboard/src/services/api.js` is a set of unused fetch wrappers. Some of them target endpoints the backend lacks, and it is not part of this model.
- The department. The page collects it and requires it, but the backend ignores it and the view always returns `N/A`. The model reproduces this gap.
- The encoding of a timestamp as text in JSON is a parameter (`timeText`).
