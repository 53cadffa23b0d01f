/**
 The store object: `DataBase` holds the two tables and each writing statement
 is a method that changes them in place. Every method is proved to leave its
 table exactly as the matching statement function of `Users` or `MediaCache`
 says, so the properties proved about those functions hold of any sequence of
 calls. The reading statements are the functions of those two modules applied
 to the fields.
 */
module Store {
  import opened Tables
  import Users
  import MediaCache

  class DataBase {
    /** `downloaded_files`, keyed by its UNIQUE `url`. */
    var files: FileTable
    /** `users`, keyed by its primary key `user_id`. */
    var users: UserTable

    /**
     Opening the store. `CREATE TABLE IF NOT EXISTS` never drops anything, so
     the tables hold whatever rows they held before (none for a new database).
     */
    constructor (existingFiles: FileTable, existingUsers: UserTable)
      ensures files == existingFiles && users == existingUsers
    {
      files := existingFiles;
      users := existingUsers;
    }

    /** `add_users`: register a user once; a known id is left as it is. */
    method AddUsers(id: UserId, userName: Option<string>, userUsername: Option<string>,
                    chatType: Option<string>, language: Option<string>, status: Option<string>)
      modifies this`users
      ensures users == Users.InsertUser(old(users), id, userName, userUsername, chatType, language, status)
      ensures id in old(users) ==> users == old(users)
    {
      if id !in users {
        users := users[id := UserRow(userName, userUsername, chatType, language, status, CaptionsDefault)];
      }
    }

    /** `delete_user`: drop the row of `id`, if any. */
    method DeleteUser(id: UserId)
      modifies this`users
      ensures users == Users.RemoveUser(old(users), id)
      ensures Users.UserExist(users, id) == []
    {
      users := map k | k in users && k != id :: users[k];
    }

    /** `user_update_name`: refresh the display name and username of `id`. */
    method UserUpdateName(id: UserId, userName: Option<string>, userUsername: Option<string>)
      modifies this`users
      ensures users == Users.RenameUser(old(users), id, userName, userUsername)
    {
      if id in users {
        users := users[id := users[id].(userUsername := userUsername, userName := userName)];
      }
    }

    /** `update_captions`: store the caption preference of `id`. */
    method UpdateCaptions(captions: string, id: UserId)
      modifies this`users
      ensures users == Users.WithCaptions(old(users), id, captions)
      ensures Users.GetUserCaptions(users, id) == (if id in old(users) then Found(captions) else NotFound)
    {
      if id in users {
        users := users[id := users[id].(captions := captions)];
      }
    }

    /** `set_inactive`. */
    method SetInactive(id: UserId)
      modifies this`users
      ensures users == Users.WithStatus(old(users), id, Inactive)
    {
      if id in users {
        users := users[id := users[id].(status := Some(Inactive))];
      }
    }

    /** `set_active`. */
    method SetActive(id: UserId)
      modifies this`users
      ensures users == Users.WithStatus(old(users), id, Active)
    {
      if id in users {
        users := users[id := users[id].(status := Some(Active))];
      }
    }

    /** `ban_user`. */
    method BanUser(id: UserId)
      modifies this`users
      ensures users == Users.WithStatus(old(users), id, Banned)
    {
      if id in users {
        users := users[id := users[id].(status := Some(Banned))];
      }
    }

    /**
     `add_file`: cache the delivery reference of `url`, dated `today`. A URL
     already cached violates UNIQUE (url): the outcome is `Conflict` and the
     table is unchanged. The violation is not one of the errors the source
     swallows, so it reaches the caller, here as a distinct outcome.
     */
    method AddFile(url: string, fileId: string, fileType: Option<string>, today: Day) returns (o: InsertOutcome)
      modifies this`files
      ensures o == MediaCache.InsertFileOutcome(old(files), url)
      ensures files == MediaCache.InsertFile(old(files), url, fileId, fileType, today)
      ensures MediaCache.GetFileId(files, url) == (if o == Inserted then [fileId] else old(MediaCache.GetFileId(files, url)))
    {
      if url in files {
        o := Conflict;
      } else {
        files := files[url := FileRow(fileId, fileType, Some(today))];
        o := Inserted;
      }
    }
  }

  /**
   A client of the cache: on an empty store, "https://inst/p/1" is recorded with
   the reference "file_abc"; a second record of that URL with "file_xyz" is
   refused, and the lookup still gives ["file_abc"].
   */
  method CacheExample(today: Day) returns (first: InsertOutcome, second: InsertOutcome, lookup: seq<string>)
    ensures first == Inserted && second == Conflict && lookup == ["file_abc"]
  {
    var db := new DataBase(map[], map[]);
    first := db.AddFile("https://inst/p/1", "file_abc", Some("video"), today);
    second := db.AddFile("https://inst/p/1", "file_xyz", Some("reel"), today);
    lookup := MediaCache.GetFileId(db.files, "https://inst/p/1");
  }

  /**
   A client of the registry: three distinct users registered with status
   "active", then one of them banned, leave an active count of 2 and an
   inactive count of 1.
   */
  method BanExample(a: UserId, b: UserId, c: UserId) returns (active: nat, inactive: nat)
    requires a != b && b != c && a != c
    ensures active == 2 && inactive == 1
  {
    var db := new DataBase(map[], map[]);
    db.AddUsers(a, None, None, None, None, Some(Active));
    db.AddUsers(b, None, None, None, None, Some(Active));
    db.AddUsers(c, None, None, None, None, Some(Active));
    var row := UserRow(None, None, None, None, Some(Active), CaptionsDefault);
    assert db.users == map[a := row, b := row, c := row];
    assert Users.ActiveIds(db.users) == {a, b, c};
    assert Users.InactiveIds(db.users) == {};
    ghost var before := db.users;
    db.BanUser(b);
    Users.BanOneOfThreeActive(before, b);
    active := Users.ActiveUserCount(db.users);
    inactive := Users.InactiveUserCount(db.users);
  }
}
