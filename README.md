# Telegram bot template: verified model of its small core

This project models, in Dafny, the parts of a Telegram bot template that carry
logic of their own, and proves what they promise:

- the command-argument tokenizer `parse_args`, which splits a message on
  spaces except inside double quotes;
- the display helpers `format_user_mention` and `format_time`;
- the `rate_limit` decorator, a per-user fixed-window limiter over a
  `last_call` map;
- the user store, in its two variants: an SQL table (`Bot/db/users.py`) and a
  MongoDB collection (`Bot/mongo/users.py`). Both provide insert-or-update
  `add_user`, `update_last_seen`, `id_to_username` and `get_user`; the Mongo
  variant also counts users and active users.

Clocks are explicit integer parameters (`now`, in seconds). Tables and
collections are maps from user id to record. The shared store contract is
stated once (`UserStore`), and both store classes are proved to carry it out.

Modules, one per source file or component:

| file | module | models |
|---|---|---|
| `wrappers.dfy` | `Wrappers` | `Option` (Python's `None` or a value) |
| `decimal.dfy` | `Decimal` | `str(int)` and its inverse |
| `parser.dfy` | `Parser` | `Bot/core/utils/parser.py` |
| `formatting.dfy` | `Formatting` | `Bot/core/utils/formatting.py` |
| `rate_limit.dfy` | `RateLimit` | `Bot/core/decorators/rate_limit.py` |
| `user_store.dfy` | `UserStore` | the user record and the insert-or-update contract both stores share |
| `sql_users.dfy` | `SqlUsers` | `Bot/db/users.py` |
| `mongo_users.dfy` | `MongoUsers` | `Bot/mongo/users.py` |

The tokenizer and the two stores change state step by step, so they are
imperative Dafny: a `for` loop with an invariant, and classes whose methods
update a map field. The tokenizer is proved against `Tokens`, a fold of one
loop step over the text. The mention, the time decomposition and the Mongo
read-only queries are functions. `format_time` keeps the source's
conditional appends, as a method. It takes its four numbers from `Decompose`.

Each operation is paired with a partner:
- the mention and the duration text each have a reader that inverts them
  (`MentionTarget`, `ParseParts`);
- the tokenizer is compared with `text.split(' ')` and with the text minus
  quotes and unquoted spaces;
- the limiter keeps a ghost history of accepted calls;
- both stores are tied to the `UserStore` contract.

## Model

| member | source | states |
|---|---|---|
| `Parser.ParseArgs` | Bot/core/utils/parser.py:3-28 | The result is the scan of the whole text. Empty text gives `[]`. No argument is empty or holds `"`. The arguments joined together equal the text with every `"` and every unquoted space removed, so they are never longer than the text. Without `"`, the result is `text.split(' ')` with the empty pieces dropped. |
| `Parser.TokensWellFormed` | Bot/core/utils/parser.py:14-26 | No argument is the empty string, and none contains a double quote. |
| `Parser.ScanWellFormed` | Bot/core/utils/parser.py:13-23 | At every point of the scan, the finished arguments are non-empty and quote-free, and so is the token being built. |
| `Parser.TokensSpellKept` | Bot/core/utils/parser.py:13-26 | The arguments joined together equal the text with its quotes and its unquoted spaces taken out. Quoted spaces, tabs and newlines are kept. |
| `Parser.ScanSpellsKept` | Bot/core/utils/parser.py:13-23 | At every point, `in_quotes` says whether an odd number of quotes has been read. The finished arguments plus `current` spell out the kept text so far. |
| `Parser.KeptLength` | Bot/core/utils/parser.py:13-23 | The kept text is never longer than the input. |
| `Parser.TokensSplitWithoutQuotes` | Bot/core/utils/parser.py:13-26 | For text without `"`, the arguments equal `text.split(' ')` with the empty pieces dropped. |
| `Parser.ScanWithoutQuotes` | Bot/core/utils/parser.py:18-23 | On quote-free text, the finished arguments are the non-empty split pieces before the last one. `current` is the last piece, and `in_quotes` stays false. |
| `Parser.UnterminatedQuote` | Bot/core/utils/parser.py:14-26 | After a quote that is never closed, the rest of the text, spaces included, is glued onto the last argument. |
| `Parser.ScanInsideQuotes` | Bot/core/utils/parser.py:16-23 | While a quote is open and no further quote comes, each character, spaces included, is appended to `current` and nothing else changes. |
| `Parser.SplitOn` | Bot/core/utils/parser.py:18-21 | The reference `split(' ')` always returns at least one piece. |
| `Parser.DropEmpty` | Bot/core/utils/parser.py:19-21 | Dropping empty pieces leaves no empty string. |
| `Decimal.NatToString` | Bot/core/utils/formatting.py:17-23 | The decimal rendering of a count is a non-empty string of digits with no leading zero. |
| `Decimal.IntToString` | Bot/core/utils/formatting.py:7 | The rendering of an id is never empty. |
| `Decimal.DigitsRoundTrip` | Bot/core/utils/formatting.py:17-23 | Reading the decimal rendering of a natural number gives the number back. |
| `Decimal.IntRoundTrip` | Bot/core/utils/formatting.py:7 | Reading the rendering of any integer, negative ids included, gives the integer back. |
| `Formatting.FormatUserMention` | Bot/core/utils/formatting.py:3-7 | The mention is never empty. |
| `Formatting.MentionRoundTrip` | Bot/core/utils/formatting.py:5-7 | A non-empty username is mentioned as `@username`. A missing or empty username gives the `[User](tg://user?id=…)` link. Reading the mention back yields that username or that exact id. |
| `Formatting.Decompose` | Bot/core/utils/formatting.py:11-13 | The three `divmod`s give d, h, m, s with `d*86400 + h*3600 + m*60 + s == seconds`, `0 <= h < 24`, `0 <= m < 60` and `0 <= s < 60`. Days are negative exactly when the input is. |
| `Formatting.FormatTime` | Bot/core/utils/formatting.py:9-25 | The text is exactly `TimeText(seconds)`, the space-join of the rendered parts. It is never empty, and `0` gives `"0s"`. The text reads back as canonical parts: units in order d, h, m, s, each at most once, below their carry limits, no zero part except a lone `0s`. Those parts add up to the input when it is non-negative, and to the input modulo one day when it is negative. |
| `Formatting.OneHourText` | Bot/core/utils/formatting.py:16-25 | 3600 seconds render as `1h`: zero days, minutes and seconds emit nothing. |
| `Formatting.MixedText` | Bot/core/utils/formatting.py:11-25 | 93784 seconds render as `1d 2h 3m 4s`. |
| `Formatting.TimeTextReadsBack` | Bot/core/utils/formatting.py:9-25 | For every input, the `format_time` text is non-empty, is `0s` for zero, and reads back as canonical parts. Those parts add up to the input (modulo one day when negative). |
| `Formatting.ShownReadsBack` | Bot/core/utils/formatting.py:15-25 | The parts emitted for a duration, joined by single spaces, read back as those parts. The parts are canonical and add up to the duration (negative inputs: modulo one day). |
| `Formatting.ShownCanonical` | Bot/core/utils/formatting.py:15-23 | The emitted parts are in d, h, m, s order, within limits, and positive, or they are a lone `0s`. A larger unit with zero seconds therefore emits no seconds part. |
| `Formatting.ShownTotal` | Bot/core/utils/formatting.py:15-23 | The emitted parts add up to h, m and s, plus the days when they are positive. |
| `Formatting.ShownSeconds` | Bot/core/utils/formatting.py:11-23 | Days are dropped only when they are not positive. So the shown amount is the input itself for `seconds >= 0`, and the input modulo 86400 otherwise. |
| `Formatting.ZeroIsZeroSeconds` | Bot/core/utils/formatting.py:22-25 | Zero seconds renders as `"0s"`. |
| `Formatting.EmptyIsNoDuration` | Bot/core/utils/formatting.py:25 | The empty string is not a duration text, so a readable `format_time` result is never empty. |
| `Formatting.RenderedPartsRoundTrip` | Bot/core/utils/formatting.py:17-25 | Parts such as `3h`, joined with `" ".join`, read back as the same parts. |
| `Formatting.SplitJoin` | Bot/core/utils/formatting.py:25 | Splitting a space-join of space-free parts on `' '` gives the parts back. |
| `Formatting.ParsePartRender` | Bot/core/utils/formatting.py:17-23 | An f-string part `f"{n}d"` (or h, m, s) reads back as the same number and unit. The reader rejects leading zeros, as `f"{n}"` never writes them, so only the rendered text reads back. |
| `RateLimit.RateLimiter.constructor` | Bot/core/decorators/rate_limit.py:5-15 | Each decorated handler gets its own `last_call` map, initially empty. It keeps `limit` and `window`, and `window` defaults to 60. |
| `RateLimit.RateLimiter.Call` | Bot/core/decorators/rate_limit.py:17-35 | A call is accepted exactly when the user has no entry or `now - last_call[user] >= window`. On acceptance, only that user's entry changes, to `now`, and the call joins the history. On rejection, nothing changes and the wait is `window - elapsed`. The wait is positive, and at most `window` when the clock has not gone backwards. The invariant keeps the map equal to the latest grant per user and keeps grants spaced. |
| `RateLimit.GrantKeepsSpacing` | Bot/core/decorators/rate_limit.py:22-32 | Recording a grant that comes at least `window` after the user's last one keeps the history spaced. The map of latest grants is updated for that user only. |
| `RateLimit.LatestGrant` | Bot/core/decorators/rate_limit.py:32 | A user who was ever granted has an entry, and it holds the time of one of their grants at or after any given one. |
| `RateLimit.SpacedPairwise` | Bot/core/decorators/rate_limit.py:22-32 | With a non-negative window, any two accepted calls of one user are at least `window` apart. So there is at most one accepted call per user per window, whatever `limit` says. |
| `UserStore.Upsert` | Bot/db/users.py:29-44 | The created flag is true exactly when the id was absent. Afterwards the id is present and every other record is unchanged. The record carries the given username and names, and `last_seen = now`. `join_date` is kept on update and is `now` on insert. The key invariant is preserved. |
| `UserStore.Touch` | Bot/db/users.py:63-72 | The found flag is true exactly when the id is present. Only that record's `last_seen` becomes `now`. An absent id changes nothing. |
| `UserStore.Lookup` | Bot/mongo/users.py:51-61 | `get_user` returns the stored record for a present id and `None` for an absent one. |
| `UserStore.UsernameOf` | Bot/mongo/users.py:89-100 | A present id gives its stored username, and an absent id gives `None`. |
| `UserStore.UpsertCount` | Bot/db/users.py:31-44 | The table grows by one exactly when `add_user` creates a user. Otherwise it keeps its size. |
| `UserStore.UpsertTwice` | Bot/db/users.py:29-44 | Upserting one id twice reports an update the second time. It leaves exactly one record for the id, with the second call's fields, the first call's join date (or the original one), and every other record unchanged. |
| `UserStore.UpsertThenUsername` | Bot/db/users.py:49-55 | After `add_user`, `id_to_username` returns the username just given. |
| `UserStore.UpsertKeepsSeenSinceJoin` | Bot/db/users.py:37-44 | With a clock that is not behind any stored `last_seen`, `add_user` keeps `join_date <= last_seen`. No `last_seen` moves backwards. |
| `UserStore.TouchKeepsSeenSinceJoin` | Bot/db/users.py:63-68 | The same two facts hold for `update_last_seen`. |
| `SqlUsers.UsersTable.constructor` | Bot/db/users.py:27 | The table starts empty and keyed. |
| `SqlUsers.UsersTable.AddUser` | Bot/db/users.py:29-46 | The new table and the returned flag are exactly `UserStore.Upsert` of the old table. Omitted names default to `None` and clear the stored ones. |
| `SqlUsers.UsersTable.UpdateLastSeen` | Bot/db/users.py:63-72 | The new table and the result are exactly `UserStore.Touch`: True with a new `last_seen` when present, False with no change when absent. |
| `SqlUsers.UsersTable.IdToUsername` | Bot/db/users.py:49-55 | The result is the stored username for a present id and `None` for an absent one. |
| `SqlUsers.UsersTable.GetUser` | Bot/db/users.py:57-58 | The result is the record stored under the id, whose `user_id` is that id, or `None`. |
| `MongoUsers.UsersCollection.constructor` | Bot/mongo/users.py:5 | The `users` collection starts empty, and every document is keyed by its `user_id`. |
| `MongoUsers.UsersCollection.AddUser` | Bot/mongo/users.py:7-49 | The new collection and the returned flag are exactly `UserStore.Upsert`. The variant thus meets the same contract as the SQL one. |
| `MongoUsers.UsersCollection.UpdateLastSeen` | Bot/mongo/users.py:73-87 | The collection changes exactly as `UserStore.Touch` says. The result is `modified_count > 0`: it implies the user exists, but not the converse. |
| `MongoUsers.ModifiedCount` | Bot/mongo/users.py:83-87 | `modified_count` is 1 exactly when a matching document's `last_seen` actually changes, and 0 otherwise. |
| `MongoUsers.SameTickTouchReportsMissing` | Bot/mongo/users.py:83-87 | For a user stored at time 100 and touched again at time 100, the user is found, yet `modified_count` is 0. |
| `MongoUsers.UserCount` | Bot/mongo/users.py:102-109 | `get_user_count` is the number of distinct stored ids. It is 0 exactly when the collection is empty. |
| `MongoUsers.ActiveIds` | Bot/mongo/users.py:121-122 | An id is active exactly when it is stored and its `last_seen >= cutoff`. |
| `MongoUsers.ActiveUsers` | Bot/mongo/users.py:111-122 | `get_active_users(days)`, with `days` defaulting to 7, is 0 exactly when nobody was seen since `now - days` days. It equals the user count when everybody was. |
| `MongoUsers.ActiveNoMoreThanTotal` | Bot/mongo/users.py:102-122 | `get_active_users(days)` never exceeds `get_user_count()`. |
| `MongoUsers.ActiveMonotone` | Bot/mongo/users.py:121-122 | `get_active_users` is non-decreasing in `days`. |
| `MongoUsers.SubsetCount` | Bot/mongo/users.py:122 | A set of matching documents is no larger than the set it is drawn from. |
| `MongoUsers.UserStats` | Bot/mongo/users.py:124-137 | `total_users` is `get_user_count()`, `active_users` is `get_active_users()` over the default seven days, and `active_users <= total_users`. |
| `MongoUsers.AddUserCount` | Bot/mongo/users.py:102-109 | `add_user` inserts only after `find_one` found nothing for the id. So `get_user_count` grows by one exactly when `add_user` reports an insert. |
| `MongoUsers.AddedUserIsActive` | Bot/mongo/users.py:111-122 | A user just added or updated is counted active for any non-negative look-back. |

## Left out

- Clocks: `time.time()` (float seconds) and `datetime.utcnow()` are an integer `now` parameter in seconds. `timedelta(days=d)` is `d * 86400` seconds.
- RateLimit.RateLimiter.Call: does not model float truncation. With a float clock, `int(window - elapsed)` can print 0; with integer time the wait is exact and at least 1.
- RateLimit.RateLimiter.Call: uses one `now` for both clock reads. The source reads the clock twice, once for `elapsed` and once for the stored time.
- RateLimit.RateLimiter.Call: sending the reply and awaiting the wrapped handler are not modelled. `Rejected(wait)` stands for the reply `Please wait {wait} seconds…`, and `Invoked` for running the handler.
- The `limit` argument of `rate_limit` is kept in the object and never read, as in the source. The model cannot state "ignored" beyond that.
- A message without a sender (`message.from_user` is `None`) makes the source raise before any rate-limit check. The model's `Call` always takes a user id.
- `parse_args(None)`: the model takes a string. Python treats `None` like `""` (both falsy), giving `[]`.
- Users.__init__ and Mongo `add_user` read the clock once or twice per call. The model uses one `now` for `join_date` and `last_seen`.
- SQLAlchemy sessions, `commit`, `close`, `try/finally` and database errors are not modelled. Neither are Motor's `await`, the Mongo connection being absent (`users_collection = None`), or the non-atomic find-then-insert under concurrent calls. Each store is a map updated one call at a time.
- The SQL ORM object's identity is not modelled: `user.username = …` on the fetched object is a record update in the map.
- `get_all_users` (both stores) is not modelled. It returns every record in the database's order, and the model's map already is that collection.
- `create_indexes` is not modelled. Its indexes only affect performance and the rejection of duplicate inserts. In the one-call-at-a-time model, `add_user`'s find-then-insert already keeps ids unique, which is the map's key and the `Keyed` invariant.
- Decimal.NatToString, Decimal.IntToString: render integers of any size. CPython 3.11 and later (and security releases of 3.7–3.10) raise `ValueError` when converting an int of more than 4300 digits to text. So `format_time` and `format_user_mention` raise there, and the model does not.
- MongoUsers.ActiveUsers: holds for every integer `days`. In the source, `timedelta(days=days)` raises `OverflowError` for `|days| > 999999999`, and subtracting it from `utcnow()` raises once the cutoff leaves years 1–9999 (about 739000 days). Those error paths are not modelled.
- `Users.__repr__` is not modelled.
- The `/info` and `/stats` handlers are not part of this model. The handlers in `Bot/modules/start.py`, the error handler, the tracking decorator, configuration, logging and the hot reloader are glue around the modelled operations.
- `UserStore.UsernameOf` follows the source. A stored user whose username is `None` also gives `None`, so the result alone does not say whether the user exists.

## Findings

| source | as written | input that shows it | evidently intended | confidence | as-written member | corrected member |
|---|---|---|---|---|---|---|
| Bot/mongo/users.py:83-87 | `update_last_seen` returns `modified_count > 0`. MongoDB leaves that count at 0 when `$set` writes the value already stored. | A stored user whose `last_seen` already equals the current time, e.g. two updates within one clock tick, or `add_user` at time 100 then `update_last_seen` at time 100 (`SameTickTouchReportsMissing`). | True whenever the user exists, False only when no user matches. This is what the docstring at lines 80-81 says, and what the SQL variant does. | low; not executed (needs two writes within one millisecond of the stored timestamp) | MongoUsers.UsersCollection.UpdateLastSeen | UserStore.Touch |
