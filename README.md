# Downloader-Bot storage layer, in Dafny

This project models the storage layer of a media-download bot: the class
`DataBase` and its PostgreSQL statements over two tables.

- `downloaded_files` is a media cache keyed by the source URL. Its UNIQUE constraint on `url` means each URL is cached at most once.
- `users` is the user registry, keyed by `user_id`.

Each table is modelled as a map from its unique key to the rest of its row.
NULL-able columns are `Option`s, including `date_added`. A row whose `date_added` is NULL is in no report window, because the comparison `date_added >= start` is UNKNOWN for it.

- `tables.dfy` (module `Tables`) holds the row types. It also holds the SQL comparison helpers: `=` and `!=` follow three-valued logic, where a NULL gives UNKNOWN, and a WHERE clause keeps only the rows whose condition is TRUE.
- `users.dfy` (module `Users`) covers the `users` table. Each writing statement is a function from the table before to the table after. Each reading statement is a function from the table to the rows it returns, except `get_user_info_username`, which is a read-only method because its result is "some matching row". The module also holds the lemmas about counts and sequences of status updates.
- `media_cache.dfy` (module `MediaCache`) covers the `downloaded_files` table: the lookup, the insert with its UNIQUE conflict, and the per-day usage report with its lemmas.
- `store.dfy` (module `Store`) holds the class `DataBase`. Its fields `files` and `users` hold the two tables. Each writing method changes its field in place, and is proved to leave exactly what the matching statement function returns. Two client methods exercise the store. `CacheExample` records one URL, is refused a second record of it, and looks it up. `BanExample` registers three active users, bans one, and reads both counts.

Dates are whole day numbers. The clock is a parameter: `today` for `add_file`, `now` for the report.

Two facts about the code shape the model:

- The handler in `add_file` (services/db.py:227) catches only `OperationalError`. A UNIQUE violation (`IntegrityError`) therefore reaches the caller. The model returns a distinct `Conflict` outcome and leaves the table unchanged.
- `user_id` is declared `GENERATED BY DEFAULT AS IDENTITY` (services/db.py:39), but `add_users` always supplies it (services/db.py:64). So the model always takes the id as an argument.

## Model

| member | source | states |
|---|---|---|
| `Users.InsertUser` | services/db.py:60-66 | INSERT ... ON CONFLICT (user_id) DO NOTHING. A new id gains exactly one row, with the given fields and captions "off". Every row that already existed, including the one for a known id, is unchanged. The row count grows by one or by zero. |
| `Users.RemoveUser` | services/db.py:72-77 | Only the row of `id` goes; all other rows are unchanged. Afterwards `user_exist(id)` is empty. The count drops by one if the id was present. |
| `Users.RenameUser` | services/db.py:129-133 | Only `user_name` and `user_username` of the matching row change; `get_user_info` then shows the new pair. An absent id changes nothing. |
| `Users.WithCaptions` | services/db.py:148-152 | Only `captions` of the matching row changes, and `get_user_captions` then returns the new value. An absent id changes nothing and the read stays NotFound. |
| `Users.WithStatus` | services/db.py:157-171 | Overwrites only `status`, whatever it was before, and `status(id)` then returns it. No row is added or removed; an absent id changes nothing. |
| `Users.ActiveIds` | services/db.py:91-95 | `WHERE status = 'active'` keeps exactly the rows whose status is non-NULL and equal to "active". |
| `Users.InactiveIds` | services/db.py:100-104 | `WHERE status != 'active'` keeps exactly the rows whose status is non-NULL and not "active"; NULL rows are excluded. |
| `Users.BannedCountsAsInactive` | services/db.py:100-104 | A banned user is counted as inactive and not as active. |
| `Users.CountPartition` | services/db.py:82-107 | active count + inactive count = user count - number of NULL-status rows. |
| `Users.WithStatusCounts` | services/db.py:91-107 | One status overwrite moves the changed row out of the count its old status put it in and into the count its new status puts it in. |
| `Users.BanOneOfThreeActive` | services/db.py:214-217 | With three active users, banning one of them leaves two active users and one more inactive user. |
| `Users.LastStatusUpdateWins` | services/db.py:157-171 | After any sequence of set_active/set_inactive/ban_user calls, each row's status is the one written by the last call naming it. A row no call names keeps its status. No row is added or removed and no other column changes. |
| `Users.UserCount` | services/db.py:82-86 | The number of rows, zero only for an empty table. `Users.InsertUser` and `Users.RemoveUser` state how it moves; `Users.CountPartition` relates it to the other two counts. |
| `Users.ActiveUserCount` | services/db.py:91-95 | At most the user count, and zero iff no row's status is "active". It counts `Users.ActiveIds`; `Users.CountPartition` and `Users.WithStatusCounts` carry its other properties. |
| `Users.InactiveUserCount` | services/db.py:100-104 | At most the user count, and zero iff every row's status is NULL or "active". It counts `Users.InactiveIds`; `Users.CountPartition` and `Users.WithStatusCounts` carry its other properties. |
| `Users.AllUsers` | services/db.py:109-113 | Returns each id exactly once: an id is listed iff `user_exist` finds it, and there are `user_count` ids. |
| `Users.UserExist` | services/db.py:119-123 | At most one row, present iff the id is registered, and that row is the id's full row. |
| `Users.GetUserCaptions` | services/db.py:138-142 | Found(captions of the row) when the id is registered, NotFound otherwise. |
| `Users.Status` | services/db.py:173-177 | Found(status of the row), possibly NULL, when the id is registered; NotFound otherwise. |
| `Users.GetUserInfo` | services/db.py:182-188 | The row's name, username and status when the id is registered, no row otherwise. |
| `Users.GetUserInfoUsername` | services/db.py:193-199 | No row iff no row's username equals the argument. Otherwise some matching row's name, id and status. A NULL argument matches nothing. |
| `Users.DeleteThenRegister` | services/db.py:72-77 | After delete_user the id is unknown. Registering it again creates a fresh row: the new fields and the default captions. |
| `Users.RegisterTwiceKeepsFirst` | services/db.py:60-66 | A second add_users for the same id, whatever its fields, leaves the table as the first call left it. |
| `MediaCache.GetFileId` | services/db.py:231-235 | At most one row per URL, because url is UNIQUE. It is empty iff the URL was never cached, and otherwise holds the stored file_id. |
| `MediaCache.InsertFileOutcome` | services/db.py:25-34 | The insert conflicts exactly when a lookup of the URL finds a row. |
| `MediaCache.InsertFile` | services/db.py:222-226 | For a new URL, one row is added: the given file_id and file_type, with date_added defaulting to today. Existing rows are unchanged and the lookup then returns exactly [file_id]. On a conflict, nothing changes. |
| `MediaCache.SecondInsertConflicts` | services/db.py:222-235 | After a first insert, a second insert of the same URL conflicts and changes nothing, and the lookup still returns the first file_id. |
| `MediaCache.ParsePeriod` | services/db.py:243-264 | Only "Week", "Month" and "Year" select a query. |
| `MediaCache.WindowLength` | services/db.py:244-264 | The window is 7 days for Week (`timedelta(weeks=1)`), 30 for Month and 365 for Year. |
| `MediaCache.PeriodReport` | services/db.py:245-276 | One entry per day of the window that has rows, and every entry's day is on or after the window start. `MediaCache.ReportAscending`, `MediaCache.ReportKeys`, `MediaCache.ReportCounts` and `MediaCache.ReportTotal` carry the rest. |
| `MediaCache.GetDownloadedFilesCount` | services/db.py:240-276 | No report iff the period is not "Week", "Month" or "Year". Each of the three gives the report of its own window. |
| `MediaCache.DaysFrom` | services/db.py:246-249 | The groups are exactly the days on or after the window start on which some row has a non-NULL `date_added`. |
| `MediaCache.SortedDays` | services/db.py:250 | The days of a set in strictly ascending order, each exactly once. |
| `MediaCache.Buckets` | services/db.py:246-250 | One (day, COUNT(*)) per day, in the given order, counting the rows of that day. |
| `MediaCache.ReportAscending` | services/db.py:240-276 | The report's days ascend strictly, so no day appears twice. |
| `MediaCache.ReportKeys` | services/db.py:243-276 | A day has an entry iff it is no earlier than now - 7/30/365 days (Week/Month/Year) and some row was added on it. |
| `MediaCache.ReportCounts` | services/db.py:246-276 | Each entry is the number of rows of its day, and is at least 1. |
| `MediaCache.ReportTotal` | services/db.py:240-276 | The counts of the report add up to the number of rows with a non-NULL date_added inside the window. |
| `MediaCache.WeekWindowExample` | services/db.py:243-252 | With rows added yesterday and eight days ago, `get_downloaded_files_count("Week")` has yesterday's entry and not the other. |
| `Store.DataBase.constructor` | services/db.py:24-48 | CREATE TABLE IF NOT EXISTS keeps the tables' existing rows. |
| `Store.DataBase.AddUsers` | services/db.py:60-70 | The new users table is `InsertUser` of the old one; for a known id it is unchanged. Only `users` changes. |
| `Store.DataBase.DeleteUser` | services/db.py:72-80 | The new users table is `RemoveUser` of the old one, and the id is no longer found. |
| `Store.DataBase.UserUpdateName` | services/db.py:129-136 | The new users table is `RenameUser` of the old one. |
| `Store.DataBase.UpdateCaptions` | services/db.py:148-155 | The new users table is `WithCaptions` of the old one, and `get_user_captions` returns the stored value. |
| `Store.DataBase.SetInactive` | services/db.py:157-163 | The new users table is `WithStatus(old, id, "inactive")`. |
| `Store.DataBase.SetActive` | services/db.py:165-171 | The new users table is `WithStatus(old, id, "active")`. |
| `Store.DataBase.BanUser` | services/db.py:214-220 | The new users table is `WithStatus(old, id, "ban")`. |
| `Store.DataBase.AddFile` | services/db.py:222-229 | The outcome is Conflict iff the URL was cached. The new cache table is `InsertFile` of the old one. The lookup then returns [file_id] on success, and is unchanged on Conflict. Only `files` changes. |
| `Store.CacheExample` | services/db.py:222-235 | Record "https://inst/p/1" → "file_abc", then look it up: ["file_abc"]. A second record of that URL conflicts. |
| `Store.BanExample` | services/db.py:91-107 | Three users registered as active, one banned: active count 2, inactive count 1. |

## Left out

- Connection handling (`__init__`, `reconnect`, connect/close/autocommit) is I/O. The constructor only takes the tables' current contents.
- Transport and query failures are left out. The source logs `OperationalError` and returns None; the report catches every exception. No "Unavailable" outcome is modelled, so every statement succeeds or, for `add_file`, conflicts.
- The DDL of `create_tables` and its swallowed failure are left out. The column and constraint facts are the row types.
- `get_all_users_info` is left out. It selects `referrer_id`, which the schema does not define, so the statement always fails.
- The result for an unknown `period` string is left out. `GetDownloadedFilesCount` returns `None` for it, meaning no query is issued. In the source, `fetchall()` then either returns the previous statement's rows or raises an error that the handler turns into None; which one depends on the driver.
- The identity column `id` of `downloaded_files` is left out, because no statement reads it.
- Timestamps, time zones and date formatting are left out. Days are integers, and a row inserted by `add_file` gets the day passed to it. As a result, the model counts the whole first day of the window, while the source compares full timestamps and so keeps only the part of that day after the current time of day. The server-side `gmt+3` default, the session time zone used by `DATE()`, and the `%Y-%m-%d` string keys are not modelled. The report is a sequence of (day, count) pairs in the order of the source's dictionary.
- Row shapes are left out. The cursor is created with `RealDictCursor`, whose rows are keyed by column name. The model reads `fetchone()[0]` as the first selected column.
- A missing row for `get_user_captions` and `status` is modelled as `NotFound`. In the source, `fetchone()` returns None there and the `[0]` raises an error that no handler catches.
- NULL or out-of-range arguments are excluded by the parameter types: `url`, `file_id` and `captions` cannot be NULL, and `user_id` is a BIGINT. In the source, only some statements raise errors for them. The INSERTs of `add_users` and `add_file` (services/db.py:64, 225) raise one, and so does `SET captions = NULL` on a present row. A NULL or out-of-range value used only in a WHERE clause matches no row and raises nothing. So `delete_user(None)`, `set_active(None)` and `user_update_name(None, ...)` change nothing, `get_file_id(None)` returns `[]`, and `update_captions(None, id)` on an absent id updates nothing.
- The row order of `all_users` is left out: it is a set. So is which row `get_user_info_username` returns when several rows match: the model returns some matching row.
- `async` and interleaving are left out. Each method is one auto-committed statement, so calls are modelled as sequential. The race between two concurrent first inserts of one URL shows up only as the `Conflict` outcome.
