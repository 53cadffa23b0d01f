/**
 The two tables of the bot's store, as values.

 `downloaded_files` is a media cache keyed by the source URL (the URL column is
 UNIQUE), and `users` is a registry keyed by the platform's user id (the primary
 key). A table is modelled as a map from its unique key to the rest of its row;
 NULL-able columns are `Option`s, NOT NULL columns are plain values.
 */
module Tables {

  datatype Option<+T> = None | Some(value: T)

  /** The result of a single-column read of one row: the row's value, or no row. */
  datatype Lookup<+T> = NotFound | Found(value: T)

  /** BIGINT: the range of the `user_id` column. */
  const MinBigInt: int := -0x8000_0000_0000_0000
  const MaxBigInt: int := 0x7FFF_FFFF_FFFF_FFFF

  type UserId = x: int | MinBigInt <= x <= MaxBigInt

  /** A calendar day, counted in days from an arbitrary epoch. */
  type Day = int

  /**
   One row of `downloaded_files`, without its key `url` and without the
   surrogate identity `id`, which no statement reads. `date_added` is NULL-able;
   an insert that does not name it gets the column default, the current day.
   */
  datatype FileRow = FileRow(fileId: string, fileType: Option<string>, dateAdded: Option<Day>)

  /** One row of `users`, without its key `user_id`. */
  datatype UserRow = UserRow(
    userName: Option<string>,
    userUsername: Option<string>,
    chatType: Option<string>,
    language: Option<string>,
    status: Option<string>,
    captions: string)

  type FileTable = map<string, FileRow>
  type UserTable = map<UserId, UserRow>

  /** The default of the NOT NULL `captions` column. */
  const CaptionsDefault: string := "off"

  /** The three values the status updates write. */
  const Active: string := "active"
  const Inactive: string := "inactive"
  const Banned: string := "ban"

  /** A row of `SELECT * FROM users`: the key together with the other columns. */
  datatype UserRecord = UserRecord(userId: UserId, row: UserRow)

  /** A row of `SELECT user_name, user_username, status FROM users`. */
  datatype UserInfo = UserInfo(userName: Option<string>, userUsername: Option<string>, status: Option<string>)

  /** A row of `SELECT user_name, user_id, status FROM users`. */
  datatype UsernameInfo = UsernameInfo(userName: Option<string>, userId: UserId, status: Option<string>)

  /**
   SQL `a = b` under three-valued logic: a NULL on either side makes the
   comparison UNKNOWN, written `None`.
   */
  function SqlEq(a: Option<string>, b: Option<string>): (r: Option<bool>)
    ensures r.None? <==> a.None? || b.None?
    ensures r == Some(true) <==> a.Some? && b.Some? && a.value == b.value
  {
    if a.None? || b.None? then None else Some(a.value == b.value)
  }

  /** SQL NOT: UNKNOWN stays UNKNOWN. */
  function SqlNot(b: Option<bool>): (r: Option<bool>)
    ensures r.None? <==> b.None?
    ensures r.Some? ==> r.value == !b.value
  {
    if b.None? then None else Some(!b.value)
  }

  /** A WHERE clause keeps a row only when its condition is TRUE, not when it is FALSE or UNKNOWN. */
  predicate Holds(b: Option<bool>)
  {
    b == Some(true)
  }

  /** What an INSERT into `downloaded_files` does: adds a row, or violates UNIQUE (url). */
  datatype InsertOutcome = Inserted | Conflict
}
