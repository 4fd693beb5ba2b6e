/**
 * The per-user fixed-window limiter of Bot/core/decorators/rate_limit.py.
 *
 * One `RateLimiter` object is one application of the decorator to a handler:
 * it owns the `last_call` map from user id to the time of that user's last
 * accepted call. The wall clock is the `now` argument of `Call`. A ghost
 * history of accepted calls records what the map summarizes, and the object
 * invariant says every accepted call of a user came at least `window` after
 * that user's previous accepted call.
 */
module RateLimit {

  /** An accepted call: who made it and when. */
  datatype Grant = Grant(user: int, time: int)

  /** Whether the wrapped handler ran, or the caller was told how long to wait. */
  datatype Outcome = Invoked | Rejected(wait: int)

  /** The time of each user's latest grant in a history. */
  function LastGrants(h: seq<Grant>): map<int, int> {
    if h == [] then map[] else LastGrants(h[..|h| - 1])[h[|h| - 1].user := h[|h| - 1].time]
  }

  /** Every grant to a user comes at least `window` after that user's previous grant. */
  predicate Spaced(h: seq<Grant>, window: int) {
    forall j :: 0 <= j < |h| && h[j].user in LastGrants(h[..j]) ==>
      h[j].time - LastGrants(h[..j])[h[j].user] >= window
  }

  class RateLimiter {
    /** Accepted by `rate_limit(limit, window)` and never consulted. */
    const limit: int
    const window: int
    var lastCall: map<int, int>
    ghost var granted: seq<Grant>

    ghost predicate Valid()
      reads this
    {
      lastCall == LastGrants(granted) && Spaced(granted, window)
    }

    /** Decorating a handler: each decorated handler starts with its own empty map. */
    constructor (limit: int, window: int := 60)
      ensures Valid()
      ensures this.limit == limit && this.window == window
      ensures lastCall == map[] && granted == []
    {
      this.limit := limit;
      this.window := window;
      lastCall := map[];
      granted := [];
    }

    /** The wrapper: a call by `user` at time `now`. */
    method Call(user: int, now: int) returns (outcome: Outcome)
      requires Valid()
      modifies this
      ensures Valid()
      ensures outcome.Invoked? <==> (user !in old(lastCall) || now - old(lastCall)[user] >= window)
      ensures outcome.Invoked? ==>
        lastCall == old(lastCall)[user := now] && granted == old(granted) + [Grant(user, now)]
      ensures outcome.Rejected? ==>
        && lastCall == old(lastCall) && granted == old(granted)
        && outcome.wait == window - (now - old(lastCall)[user])
        && 0 < outcome.wait
        && (now >= old(lastCall)[user] ==> outcome.wait <= window)
    {
      if user in lastCall {
        var elapsed := now - lastCall[user];
        if elapsed < window {
          return Rejected(window - elapsed);
        }
      }
      GrantKeepsSpacing(granted, window, Grant(user, now));
      lastCall := lastCall[user := now];
      granted := granted + [Grant(user, now)];
      return Invoked;
    }
  }

  lemma GrantKeepsSpacing(h: seq<Grant>, window: int, g: Grant)
    requires Spaced(h, window)
    requires g.user in LastGrants(h) ==> g.time - LastGrants(h)[g.user] >= window
    ensures Spaced(h + [g], window)
    ensures LastGrants(h + [g]) == LastGrants(h)[g.user := g.time]
  {
    var h' := h + [g];
    assert h'[..|h|] == h;
    forall j | 0 <= j < |h| ensures h'[..j] == h[..j] {
    }
  }

  /** A user's latest grant in a history is at or after any earlier grant of theirs. */
  lemma {:induction false} LatestGrant(h: seq<Grant>, i: nat)
    requires i < |h|
    ensures h[i].user in LastGrants(h)
    ensures exists k :: i <= k < |h| && h[k].user == h[i].user && LastGrants(h)[h[i].user] == h[k].time
  {
    var n := |h| - 1;
    if i < n {
      LatestGrant(h[..n], i);
      if h[n].user != h[i].user {
        var k :| i <= k < n && h[..n][k].user == h[i].user && LastGrants(h[..n])[h[i].user] == h[..n][k].time;
        assert h[k] == h[..n][k];
      }
    }
  }

  /** With a non-negative window, any two accepted calls of the same user are
    * at least `window` apart: at most one call per user per window. */
  lemma {:induction false} SpacedPairwise(h: seq<Grant>, window: int, i: nat, j: nat)
    requires window >= 0 && Spaced(h, window)
    requires i < j < |h| && h[i].user == h[j].user
    ensures h[j].time - h[i].time >= window
    decreases j
  {
    var p := h[..j];
    assert p[i] == h[i];
    LatestGrant(p, i);
    var k :| i <= k < j && p[k].user == h[i].user && LastGrants(p)[h[i].user] == p[k].time;
    assert p[k] == h[k];
    if k > i {
      SpacedPairwise(h, window, i, k);
    }
  }
}
