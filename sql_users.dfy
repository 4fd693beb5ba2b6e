/**
 * Bot/db/users.py: the SQLAlchemy `Users` table and its helpers.
 *
 * The table is the `rows` field of a `UsersTable`, keyed by the primary
 * key; each helper's session query, field assignments and commit become one
 * update of that map, proved to be the shared `UserStore` contract.
 */
module SqlUsers {
  import opened Wrappers
  import opened UserStore

  class UsersTable {
    var rows: Table

    ghost predicate Valid()
      reads this
    {
      Keyed(rows)
    }

    /** `Users.__table__.create(checkfirst=True)` on an empty database. */
    constructor ()
      ensures Valid() && rows == map[]
    {
      rows := map[];
    }

    /** `add_user`: create the user if absent (True), otherwise overwrite the
      * username, both names and last-seen time (False). Names left out by
      * the caller arrive as `None` and clear the stored ones. */
    method AddUser(userId: int, username: Option<string>, firstName: Option<string> := None, lastName: Option<string> := None, now: int)
      returns (created: bool)
      requires Valid()
      modifies this
      ensures Valid()
      ensures (rows, created) == Upsert(old(rows), userId, username, firstName, lastName, now)
    {
      var user := Lookup(rows, userId);
      if user.None? {
        rows := rows[userId := NewUser(userId, username, firstName, lastName, now)];
        return true;
      } else {
        var updated := user.value.(username := username, firstName := firstName, lastName := lastName, lastSeen := now);
        rows := rows[userId := updated];
        return false;
      }
    }

    /** `id_to_username`. */
    method IdToUsername(userId: int) returns (name: Option<string>)
      requires Valid()
      ensures name == UsernameOf(rows, userId)
      ensures userId in rows ==> name == rows[userId].username
    {
      var user := Lookup(rows, userId);
      if user.Some? {
        return user.value.username;
      }
      return None;
    }

    /** `get_user`. */
    method GetUser(userId: int) returns (user: Option<UserRecord>)
      requires Valid()
      ensures user == Lookup(rows, userId)
      ensures user.Some? ==> user.value.userId == userId
    {
      user := if userId in rows then Some(rows[userId]) else None;
    }

    /** `update_last_seen`: True and a new last-seen time for a stored user;
      * False and no change otherwise. */
    method UpdateLastSeen(userId: int, now: int) returns (found: bool)
      requires Valid()
      modifies this
      ensures Valid()
      ensures (rows, found) == Touch(old(rows), userId, now)
    {
      var user := Lookup(rows, userId);
      if user.Some? {
        rows := rows[userId := user.value.(lastSeen := now)];
        return true;
      }
      return false;
    }
  }
}
