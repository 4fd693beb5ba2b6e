/**
 * Bot/mongo/users.py: the Motor `users` collection and its helpers.
 *
 * The collection is the `docs` field of a `UsersCollection`, keyed by
 * `user_id`: `add_user` inserts only after `find_one` found no document for
 * the id, so ids stay unique. `add_user` and `update_last_seen` change it in
 * place; the read-only queries are functions of the map and the clock.
 */
module MongoUsers {
  import opened Wrappers
  import opened UserStore

  /** `update_one(...).modified_count` for a `$set` of `last_seen`: MongoDB
    * counts a matched document only when the new value differs from the
    * stored one. */
  function ModifiedCount(docs: Table, userId: int, now: int): (n: nat)
    ensures n <= 1
    ensures n == 1 <==> userId in docs && docs[userId].lastSeen != now
  {
    if userId in docs && docs[userId].lastSeen != now then 1 else 0
  }

  class UsersCollection {
    var docs: Table

    ghost predicate Valid()
      reads this
    {
      Keyed(docs)
    }

    /** An empty collection, keyed by `user_id`. */
    constructor ()
      ensures Valid() && docs == map[]
    {
      docs := map[];
    }

    /** `add_user`: `find_one`, then `update_one` with `$set` of the names and
      * `last_seen` (False), or `insert_one` of a fresh document (True). */
    method AddUser(userId: int, username: Option<string>, firstName: Option<string> := None, lastName: Option<string> := None, now: int)
      returns (created: bool)
      requires Valid()
      modifies this
      ensures Valid()
      ensures (docs, created) == Upsert(old(docs), userId, username, firstName, lastName, now)
    {
      var existing := Lookup(docs, userId);
      if existing.Some? {
        docs := docs[userId := docs[userId].(username := username, firstName := firstName, lastName := lastName, lastSeen := now)];
        return false;
      } else {
        docs := docs[userId := UserRecord(userId, username, firstName, lastName, now, now)];
        return true;
      }
    }

    /** `update_last_seen`: the same change as the abstract `Touch`, but the
      * result is `modified_count > 0`, which is False both for an unknown
      * user and for a stored user whose `last_seen` already equals `now`. */
    method UpdateLastSeen(userId: int, now: int) returns (modified: bool)
      requires Valid()
      modifies this
      ensures Valid()
      ensures docs == Touch(old(docs), userId, now).0
      ensures modified <==> ModifiedCount(old(docs), userId, now) > 0
      ensures modified ==> userId in old(docs)
    {
      var count := ModifiedCount(docs, userId, now);
      if userId in docs {
        docs := docs[userId := docs[userId].(lastSeen := now)];
      }
      return count > 0;
    }
  }

  /** A user added at time 100 and touched again at time 100: the document
    * is found, so the intended answer is True, yet `modified_count` is 0 and
    * `update_last_seen` returns False. */
  lemma SameTickTouchReportsMissing()
    ensures var docs := Upsert(map[], 7, None, None, None, 100).0;
            && Touch(docs, 7, 100).1
            && ModifiedCount(docs, 7, 100) == 0
  {
  }

  // ---------------------------------------------------------------------
  // Read-only queries

  /** `get_user_count`: `count_documents({})`, one document per stored id. */
  function UserCount(docs: Table): (n: nat)
    ensures n == |docs.Keys|
    ensures n == 0 <==> docs == map[]
  {
    |docs|
  }

  /** The ids whose `last_seen` is at or after `cutoff`. */
  function ActiveIds(docs: Table, cutoff: int): (ids: set<int>)
    ensures forall id :: id in ids <==> id in docs && docs[id].lastSeen >= cutoff
  {
    set id | id in docs && docs[id].lastSeen >= cutoff
  }

  /** `get_active_users(days)`: users seen within `days` days (of 86400
    * seconds) before `now`. */
  function ActiveUsers(docs: Table, now: int, days: int := 7): (n: nat)
    ensures n == 0 <==> forall id :: id in docs ==> docs[id].lastSeen < now - days * 86400
    ensures (forall id :: id in docs ==> docs[id].lastSeen >= now - days * 86400) ==> n == UserCount(docs)
  {
    var cutoff := now - days * 86400;
    var ids := ActiveIds(docs, cutoff);
    assert (forall id :: id in docs ==> docs[id].lastSeen >= cutoff) ==> ids == docs.Keys;
    assert ids == {} ==> forall id :: id in docs ==> docs[id].lastSeen < cutoff;
    assert (forall id :: id in docs ==> docs[id].lastSeen < cutoff) ==> ids == {};
    |ids|
  }

  datatype Stats = Stats(totalUsers: nat, activeUsers: nat)

  /** `get_user_stats`: the total and the active count over the default
    * seven days. */
  function UserStats(docs: Table, now: int): (s: Stats)
    ensures s.totalUsers == UserCount(docs)
    ensures s.activeUsers == ActiveUsers(docs, now)
    ensures s.activeUsers <= s.totalUsers
  {
    ActiveNoMoreThanTotal(docs, now, 7);
    Stats(UserCount(docs), ActiveUsers(docs, now))
  }

  lemma SubsetCount(a: set<int>, b: set<int>)
    requires a <= b
    ensures |a| <= |b|
  {
    assert b == a + (b - a);
    assert a * (b - a) == {};
  }

  /** Never more active users than users. */
  lemma ActiveNoMoreThanTotal(docs: Table, now: int, days: int)
    ensures ActiveUsers(docs, now, days) <= UserCount(docs)
  {
    SubsetCount(ActiveIds(docs, now - days * 86400), docs.Keys);
  }

  /** A longer look-back never counts fewer users. */
  lemma ActiveMonotone(docs: Table, now: int, days: int, days': int)
    requires days <= days'
    ensures ActiveUsers(docs, now, days) <= ActiveUsers(docs, now, days')
  {
    SubsetCount(ActiveIds(docs, now - days * 86400), ActiveIds(docs, now - days' * 86400));
  }

  /** `add_user` inserts only when `find_one` found no document for the id,
    * so `count_documents({})` grows by one exactly when it reports an insert. */
  lemma AddUserCount(docs: Table, userId: int, username: Option<string>, firstName: Option<string>, lastName: Option<string>, now: int)
    ensures var (docs', created) := Upsert(docs, userId, username, firstName, lastName, now);
            UserCount(docs') == UserCount(docs) + (if created then 1 else 0)
  {
    UpsertCount(docs, userId, username, firstName, lastName, now);
  }

  /** A user just added or updated counts as active for any non-negative look-back. */
  lemma AddedUserIsActive(docs: Table, userId: int, username: Option<string>, firstName: Option<string>, lastName: Option<string>, now: int, days: int)
    requires days >= 0
    ensures userId in ActiveIds(Upsert(docs, userId, username, firstName, lastName, now).0, now - days * 86400)
  {
  }
}
