/**
 The statements on the `users` table, as functions on the table's contents.

 Each writing statement (INSERT, DELETE, UPDATE) is a function from the table
 before to the table after; the store's methods are proved to change their
 table exactly as these functions say. Each reading statement is a function
 from the table to the rows the query returns.
 */
module Users {
  import opened Tables

  // ---------------------------------------------------------------------------
  // Writing statements
  // ---------------------------------------------------------------------------

  /**
   `INSERT INTO users (...) VALUES (...) ON CONFLICT (user_id) DO NOTHING`:
   a new id gets one row whose `captions` takes the column default; an id
   already present leaves every row, its own included, as it was.
   */
  function InsertUser(users: UserTable, id: UserId, userName: Option<string>, userUsername: Option<string>,
                      chatType: Option<string>, language: Option<string>, status: Option<string>): (r: UserTable)
    ensures r.Keys == users.Keys + {id}
    ensures forall k :: k in users ==> r[k] == users[k]
    ensures id !in users ==>
      r[id] == UserRow(userName, userUsername, chatType, language, status, CaptionsDefault)
    ensures |r| == |users| + (if id in users then 0 else 1)
  {
    if id in users then users
    else users[id := UserRow(userName, userUsername, chatType, language, status, CaptionsDefault)]
  }

  /** `DELETE FROM users WHERE user_id = %s`: only that row goes; afterwards the id is unknown. */
  function RemoveUser(users: UserTable, id: UserId): (r: UserTable)
    ensures r.Keys == users.Keys - {id}
    ensures forall k :: k in r ==> r[k] == users[k]
    ensures UserExist(r, id) == []
    ensures |r| == |users| - (if id in users then 1 else 0)
  {
    users - {id}
  }

  /**
   `UPDATE users SET user_username = %s, user_name = %s WHERE user_id = %s`:
   changes those two columns of the matching row; no row matches an absent id.
   */
  function RenameUser(users: UserTable, id: UserId, userName: Option<string>, userUsername: Option<string>): (r: UserTable)
    ensures r.Keys == users.Keys
    ensures forall k :: k in users && k != id ==> r[k] == users[k]
    ensures id in users ==> r[id] == users[id].(userName := userName, userUsername := userUsername)
    ensures GetUserInfo(r, id) ==
      (if id in users then Some(UserInfo(userName, userUsername, users[id].status)) else None)
  {
    if id in users then users[id := users[id].(userName := userName, userUsername := userUsername)]
    else users
  }

  /**
   `UPDATE users SET captions = %s WHERE user_id = %s`: changes only `captions`,
   which `get_user_captions` then reads back.
   */
  function WithCaptions(users: UserTable, id: UserId, captions: string): (r: UserTable)
    ensures r.Keys == users.Keys
    ensures forall k :: k in users && k != id ==> r[k] == users[k]
    ensures id in users ==> r[id] == users[id].(captions := captions)
    ensures GetUserCaptions(r, id) == (if id in users then Found(captions) else NotFound)
  {
    if id in users then users[id := users[id].(captions := captions)] else users
  }

  /**
   `UPDATE users SET status = %s WHERE user_id = %s`, the statement behind
   `set_active`, `set_inactive` and `ban_user`: an unconditional overwrite of
   `status` alone, whatever it was before.
   */
  function WithStatus(users: UserTable, id: UserId, status: string): (r: UserTable)
    ensures r.Keys == users.Keys
    ensures forall k :: k in users && k != id ==> r[k] == users[k]
    ensures id in users ==> r[id] == users[id].(status := Some(status))
    ensures Status(r, id) == (if id in users then Found(Some(status)) else NotFound)
  {
    if id in users then users[id := users[id].(status := Some(status))] else users
  }

  // ---------------------------------------------------------------------------
  // Reading statements
  // ---------------------------------------------------------------------------

  /** `SELECT COUNT(*) FROM users`: the number of rows, zero only for an empty table. */
  function UserCount(users: UserTable): (n: nat)
    ensures n == 0 <==> users == map[]
  {
    |users|
  }

  /** The rows `WHERE status = 'active'` keeps. */
  function ActiveIds(users: UserTable): (ids: set<UserId>)
    ensures forall k :: k in ids <==> k in users && users[k].status == Some(Active)
  {
    set k | k in users && Holds(SqlEq(users[k].status, Some(Active)))
  }

  /** The rows `WHERE status != 'active'` keeps: a NULL status makes the condition UNKNOWN. */
  function InactiveIds(users: UserTable): (ids: set<UserId>)
    ensures forall k :: k in ids <==> k in users && users[k].status.Some? && users[k].status.value != Active
  {
    set k | k in users && Holds(SqlNot(SqlEq(users[k].status, Some(Active))))
  }

  /** The rows whose status is NULL, which neither of the two counts above sees. */
  function NullStatusIds(users: UserTable): set<UserId>
  {
    set k | k in users && users[k].status.None?
  }

  /** `SELECT COUNT(*) FROM users WHERE status = 'active'`. */
  function ActiveUserCount(users: UserTable): (n: nat)
    ensures n <= UserCount(users)
    ensures n == 0 <==> forall k :: k in users ==> users[k].status != Some(Active)
  {
    SubsetSize(ActiveIds(users), users.Keys);
    assert (exists k :: k in users && users[k].status == Some(Active)) ==> ActiveIds(users) != {} by {
      if exists k :: k in users && users[k].status == Some(Active) {
        var k :| k in users && users[k].status == Some(Active);
        assert k in ActiveIds(users);
      }
    }
    |ActiveIds(users)|
  }

  /** `SELECT COUNT(*) FROM users WHERE status != 'active'`. */
  function InactiveUserCount(users: UserTable): (n: nat)
    ensures n <= UserCount(users)
    ensures n == 0 <==> forall k :: k in users ==> users[k].status.None? || users[k].status == Some(Active)
  {
    SubsetSize(InactiveIds(users), users.Keys);
    assert (exists k :: k in users && users[k].status.Some? && users[k].status != Some(Active)) ==>
      InactiveIds(users) != {} by {
      if exists k :: k in users && users[k].status.Some? && users[k].status != Some(Active) {
        var k :| k in users && users[k].status.Some? && users[k].status != Some(Active);
        assert k in InactiveIds(users);
      }
    }
    |InactiveIds(users)|
  }

  /** A subset is no larger than the set. */
  lemma SubsetSize(a: set<UserId>, b: set<UserId>)
    requires a <= b
    ensures |a| <= |b|
  {
    assert b == a + (b - a);
  }

  /** The number of rows with a NULL status. */
  function NullStatusCount(users: UserTable): nat
  {
    |NullStatusIds(users)|
  }

  /** `SELECT user_id FROM users`: every id, once each (the order of the rows is not modelled). */
  function AllUsers(users: UserTable): (ids: set<UserId>)
    ensures |ids| == UserCount(users)
    ensures forall k :: k in ids <==> UserExist(users, k) != []
  {
    users.Keys
  }

  /** `SELECT * FROM users WHERE user_id = %s`: the row of that id, or no row. */
  function UserExist(users: UserTable, id: UserId): (rows: seq<UserRecord>)
    ensures |rows| <= 1
    ensures rows != [] <==> id in users
    ensures rows != [] ==> rows[0].userId == id && rows[0].row == users[id]
  {
    if id in users then [UserRecord(id, users[id])] else []
  }

  /** `SELECT captions FROM users WHERE user_id = %s`, first row's first column. */
  function GetUserCaptions(users: UserTable, id: UserId): (r: Lookup<string>)
    ensures r.Found? <==> id in users
    ensures r.Found? ==> r.value == users[id].captions
  {
    if id in users then Found(users[id].captions) else NotFound
  }

  /** `SELECT DISTINCT status FROM users WHERE user_id = %s`, first row's first column (which may be NULL). */
  function Status(users: UserTable, id: UserId): (r: Lookup<Option<string>>)
    ensures r.Found? <==> id in users
    ensures r.Found? ==> r.value == users[id].status
  {
    if id in users then Found(users[id].status) else NotFound
  }

  /** `SELECT user_name, user_username, status FROM users WHERE user_id = %s`, first row. */
  function GetUserInfo(users: UserTable, id: UserId): (r: Option<UserInfo>)
    ensures r.Some? <==> id in users
    ensures r.Some? ==>
      r.value.userName == users[id].userName && r.value.userUsername == users[id].userUsername &&
      r.value.status == users[id].status
  {
    if id in users then Some(UserInfo(users[id].userName, users[id].userUsername, users[id].status)) else None
  }

  /** The condition `user_username = %s` of one row. */
  predicate UsernameMatches(users: UserTable, k: UserId, userUsername: Option<string>)
    requires k in users
  {
    Holds(SqlEq(users[k].userUsername, userUsername))
  }

  /**
   `SELECT user_name, user_id, status FROM users WHERE user_username = %s`,
   first row. `user_username` is not unique and the query has no ORDER BY, so
   the row returned is some matching row; a NULL parameter matches nothing.
   */
  method GetUserInfoUsername(users: UserTable, userUsername: Option<string>) returns (r: Option<UsernameInfo>)
    ensures r.None? <==> forall k :: k in users ==> !UsernameMatches(users, k, userUsername)
    ensures r.Some? ==> r.value.userId in users && UsernameMatches(users, r.value.userId, userUsername)
    ensures r.Some? ==> r.value == UsernameInfo(users[r.value.userId].userName, r.value.userId, users[r.value.userId].status)
    ensures userUsername.None? ==> r.None?
  {
    if exists k :: k in users && UsernameMatches(users, k, userUsername) {
      var k :| k in users && UsernameMatches(users, k, userUsername);
      r := Some(UsernameInfo(users[k].userName, k, users[k].status));
    } else {
      r := None;
    }
  }

  // ---------------------------------------------------------------------------
  // Properties of the counts
  // ---------------------------------------------------------------------------

  /** A banned user, like any user whose status is set and is not "active", counts as inactive. */
  lemma BannedCountsAsInactive(users: UserTable, id: UserId)
    requires id in users && users[id].status == Some(Banned)
    ensures id in InactiveIds(users) && id !in ActiveIds(users)
  {
  }

  /**
   Every row is counted by exactly one of the active count, the inactive count
   and the NULL-status rows, so active + inactive = total - NULL-status.
   */
  lemma CountPartition(users: UserTable)
    ensures ActiveUserCount(users) + InactiveUserCount(users) == UserCount(users) - NullStatusCount(users)
  {
    var a, i, n := ActiveIds(users), InactiveIds(users), NullStatusIds(users);
    assert a * i == {};
    assert (a + i) * n == {};
    assert a + i + n == users.Keys;
    assert |a + i| == |a| + |i|;
    assert |a + i + n| == |a + i| + |n|;
  }

  /**
   Two sets that agree except perhaps on `x` differ in size by whether each
   holds `x`.
   */
  lemma SizeAfterSwap(before: set<UserId>, after: set<UserId>, x: UserId)
    requires before - {x} == after - {x}
    ensures |after| == |before| - (if x in before then 1 else 0) + (if x in after then 1 else 0)
  {
    var rest := before - {x};
    if x in before { assert before == rest + {x}; } else { assert before == rest; }
    if x in after { assert after == rest + {x}; } else { assert after == rest; }
  }

  /** The rows both counts see other than `id` are the same once `id` alone has changed its status. */
  lemma CountedSetsAwayFrom(users: UserTable, id: UserId, status: string)
    requires id in users
    ensures ActiveIds(users) - {id} == ActiveIds(WithStatus(users, id, status)) - {id}
    ensures InactiveIds(users) - {id} == InactiveIds(WithStatus(users, id, status)) - {id}
  {
  }

  /**
   How one status overwrite of a present row moves the two counts: the row
   leaves the count its old status put it in and joins the one its new status
   puts it in.
   */
  lemma WithStatusCounts(users: UserTable, id: UserId, status: string)
    requires id in users
    ensures var was := users[id].status;
      ActiveUserCount(WithStatus(users, id, status)) ==
        ActiveUserCount(users) - (if was == Some(Active) then 1 else 0) + (if status == Active then 1 else 0)
    ensures var was := users[id].status;
      InactiveUserCount(WithStatus(users, id, status)) ==
        InactiveUserCount(users) - (if was.Some? && was != Some(Active) then 1 else 0) + (if status != Active then 1 else 0)
  {
    var r := WithStatus(users, id, status);
    CountedSetsAwayFrom(users, id, status);
    SizeAfterSwap(ActiveIds(users), ActiveIds(r), id);
    SizeAfterSwap(InactiveIds(users), InactiveIds(r), id);
  }

  /**
   With three active users, banning one of them leaves two active users and one
   more inactive user.
   */
  lemma BanOneOfThreeActive(users: UserTable, id: UserId)
    requires ActiveUserCount(users) == 3 && id in users && users[id].status == Some(Active)
    ensures ActiveUserCount(WithStatus(users, id, Banned)) == 2
    ensures InactiveUserCount(WithStatus(users, id, Banned)) == InactiveUserCount(users) + 1
  {
    WithStatusCounts(users, id, Banned);
  }

  // ---------------------------------------------------------------------------
  // Sequences of status updates
  // ---------------------------------------------------------------------------

  /** One call of `set_active`, `set_inactive` or `ban_user`. */
  datatype StatusUpdate = Activate(id: UserId) | Deactivate(id: UserId) | Ban(id: UserId)

  /** The status value the call writes. */
  function Target(u: StatusUpdate): string
  {
    match u
    case Activate(_) => Active
    case Deactivate(_) => Inactive
    case Ban(_) => Banned
  }

  /** The table after the calls `ops`, in order. */
  function ApplyStatusUpdates(users: UserTable, ops: seq<StatusUpdate>): UserTable
    decreases |ops|
  {
    if ops == [] then users
    else
      var last := ops[|ops| - 1];
      WithStatus(ApplyStatusUpdates(users, ops[..|ops| - 1]), last.id, Target(last))
  }

  /** The status written by the last call in `ops` that names `id`, if there is one. */
  function LastStatusFor(ops: seq<StatusUpdate>, id: UserId): Option<string>
    decreases |ops|
  {
    if ops == [] then None
    else if ops[|ops| - 1].id == id then Some(Target(ops[|ops| - 1]))
    else LastStatusFor(ops[..|ops| - 1], id)
  }

  /**
   The last call wins: after any sequence of status updates, each row's status
   is what the last call naming it wrote (and is untouched if no call named it);
   no row is added or removed and no other column changes.
   */
  lemma {:induction false} LastStatusUpdateWins(users: UserTable, ops: seq<StatusUpdate>)
    ensures ApplyStatusUpdates(users, ops).Keys == users.Keys
    ensures forall k :: k in users ==>
      ApplyStatusUpdates(users, ops)[k] ==
        (if LastStatusFor(ops, k).Some? then users[k].(status := LastStatusFor(ops, k)) else users[k])
    decreases |ops|
  {
    if ops != [] {
      LastStatusUpdateWins(users, ops[..|ops| - 1]);
    }
  }

  // ---------------------------------------------------------------------------
  // Delete, then register again
  // ---------------------------------------------------------------------------

  /**
   After a delete the id is unknown, and registering it again creates a fresh
   row: the new profile fields and the default captions, nothing kept from the
   deleted row.
   */
  lemma DeleteThenRegister(users: UserTable, id: UserId, userName: Option<string>, userUsername: Option<string>,
                           chatType: Option<string>, language: Option<string>, status: Option<string>)
    ensures UserExist(RemoveUser(users, id), id) == []
    ensures var r := InsertUser(RemoveUser(users, id), id, userName, userUsername, chatType, language, status);
      UserExist(r, id) == [UserRecord(id, UserRow(userName, userUsername, chatType, language, status, CaptionsDefault))]
  {
  }

  /**
   Registering twice keeps the first call's fields: the second insert, whatever
   fields it carries, leaves the table as the first one left it.
   */
  lemma RegisterTwiceKeepsFirst(users: UserTable, id: UserId,
                                n1: Option<string>, u1: Option<string>, c1: Option<string>, l1: Option<string>, s1: Option<string>,
                                n2: Option<string>, u2: Option<string>, c2: Option<string>, l2: Option<string>, s2: Option<string>)
    ensures var once := InsertUser(users, id, n1, u1, c1, l1, s1);
      InsertUser(once, id, n2, u2, c2, l2, s2) == once
  {
  }
}
