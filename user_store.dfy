/**
 * The user table both persistence variants keep (Bot/db/users.py with an
 * SQL table, Bot/mongo/users.py with a document collection), stated once.
 *
 * The table is a map from user id to record; the database clock is the
 * `now` argument. `Upsert` and `Touch` are the abstract insert-or-update and
 * last-seen update that the two store classes are proved to carry out.
 */
module UserStore {
  import opened Wrappers

  /** One row / document. `None` is SQL NULL or a BSON null. */
  datatype UserRecord = UserRecord(
    userId: int,
    username: Option<string>,
    firstName: Option<string>,
    lastName: Option<string>,
    joinDate: int,
    lastSeen: int)

  type Table = map<int, UserRecord>

  /** The primary key (SQL), or the find-then-insert of `add_user` (Mongo):
    * every record is stored under its own id. */
  predicate Keyed(db: Table) {
    forall id :: id in db ==> db[id].userId == id
  }

  /** The record a first interaction creates. */
  function NewUser(userId: int, username: Option<string>, firstName: Option<string>, lastName: Option<string>, now: int): UserRecord {
    UserRecord(userId, username, firstName, lastName, now, now)
  }

  /** Insert-or-update: the new table, and whether the user was created. */
  function Upsert(db: Table, userId: int, username: Option<string>, firstName: Option<string>, lastName: Option<string>, now: int): (r: (Table, bool))
    ensures r.1 <==> userId !in db
    ensures r.0.Keys == db.Keys + {userId}
    ensures forall id :: id in db && id != userId ==> r.0[id] == db[id]
    ensures && r.0[userId].username == username
            && r.0[userId].firstName == firstName
            && r.0[userId].lastName == lastName
            && r.0[userId].lastSeen == now
    ensures r.0[userId].joinDate == if userId in db then db[userId].joinDate else now
    ensures Keyed(db) ==> Keyed(r.0)
  {
    if userId in db then
      (db[userId := db[userId].(username := username, firstName := firstName, lastName := lastName, lastSeen := now)], false)
    else
      (db[userId := NewUser(userId, username, firstName, lastName, now)], true)
  }

  /** The last-seen update: the new table, and whether the user was found. */
  function Touch(db: Table, userId: int, now: int): (r: (Table, bool))
    ensures r.1 <==> userId in db
    ensures r.0.Keys == db.Keys
    ensures forall id :: id in db && id != userId ==> r.0[id] == db[id]
    ensures userId in db ==> r.0[userId] == db[userId].(lastSeen := now)
    ensures Keyed(db) ==> Keyed(r.0)
  {
    if userId in db then (db[userId := db[userId].(lastSeen := now)], true) else (db, false)
  }

  /** `get_user`: the record, or `None`. */
  function Lookup(db: Table, userId: int): (r: Option<UserRecord>)
    ensures r.Some? <==> userId in db
    ensures r.Some? ==> r.value == db[userId]
  {
    if userId in db then Some(db[userId]) else None
  }

  /** `id_to_username`: the stored username, or `None` when there is no such
    * user (a stored user without a username also gives `None`). */
  function UsernameOf(db: Table, userId: int): (r: Option<string>)
    ensures userId !in db ==> r == None
    ensures userId in db ==> r == db[userId].username
  {
    match Lookup(db, userId)
    case Some(u) => u.username
    case None => None
  }

  // ---------------------------------------------------------------------
  // Properties of the contract

  /** The table grows by one exactly when a user is created. */
  lemma UpsertCount(db: Table, userId: int, username: Option<string>, firstName: Option<string>, lastName: Option<string>, now: int)
    ensures var (db', created) := Upsert(db, userId, username, firstName, lastName, now);
            |db'| == if created then |db| + 1 else |db|
  {
    var (db', created) := Upsert(db, userId, username, firstName, lastName, now);
    if created {
      assert db'.Keys == db.Keys + {userId};
      assert |db.Keys + {userId}| == |db.Keys| + 1;
    } else {
      assert db'.Keys == db.Keys;
    }
  }

  /** Upserting the same id twice: the second call reports an update, the
    * table holds one record for the id with the second call's fields and
    * the first call's join date, and nothing else changed. */
  lemma UpsertTwice(db: Table, userId: int,
                    u1: Option<string>, f1: Option<string>, l1: Option<string>, t1: int,
                    u2: Option<string>, f2: Option<string>, l2: Option<string>, t2: int)
    ensures var (db1, _) := Upsert(db, userId, u1, f1, l1, t1);
            var (db2, created) := Upsert(db1, userId, u2, f2, l2, t2);
            && !created
            && db2.Keys == db.Keys + {userId}
            && |db2| == (if userId in db then |db| else |db| + 1)
            && db2[userId] == UserRecord(db2[userId].userId, u2, f2, l2,
                                         if userId in db then db[userId].joinDate else t1, t2)
            && (forall id :: id in db && id != userId ==> db2[id] == db[id])
  {
    var (db1, _) := Upsert(db, userId, u1, f1, l1, t1);
    UpsertCount(db, userId, u1, f1, l1, t1);
    UpsertCount(db1, userId, u2, f2, l2, t2);
  }

  /** After an upsert, looking the user up gives the username just stored. */
  lemma UpsertThenUsername(db: Table, userId: int, username: Option<string>, firstName: Option<string>, lastName: Option<string>, now: int)
    ensures UsernameOf(Upsert(db, userId, username, firstName, lastName, now).0, userId) == username
  {
  }

  /** A store whose join dates never follow its last-seen times keeps that
    * property across upserts and last-seen updates, as long as the clock
    * does not run backwards past a stored last-seen time. */
  predicate SeenSinceJoin(db: Table) {
    forall id :: id in db ==> db[id].joinDate <= db[id].lastSeen
  }

  predicate ClockAhead(db: Table, now: int) {
    forall id :: id in db ==> db[id].lastSeen <= now
  }

  lemma UpsertKeepsSeenSinceJoin(db: Table, userId: int, username: Option<string>, firstName: Option<string>, lastName: Option<string>, now: int)
    requires SeenSinceJoin(db) && ClockAhead(db, now)
    ensures var db' := Upsert(db, userId, username, firstName, lastName, now).0;
            SeenSinceJoin(db') && ClockAhead(db', now)
            && forall id :: id in db ==> db[id].lastSeen <= db'[id].lastSeen
  {
  }

  lemma TouchKeepsSeenSinceJoin(db: Table, userId: int, now: int)
    requires SeenSinceJoin(db) && ClockAhead(db, now)
    ensures var db' := Touch(db, userId, now).0;
            SeenSinceJoin(db') && ClockAhead(db', now)
            && forall id :: id in db ==> db[id].lastSeen <= db'[id].lastSeen
  {
  }
}
