# Kek leaderboard: a verified model of the tracking-and-ranking core

The bot watches the text channels of a Discord guild. It scores every recent
message by its "kek" reactions: the summed count of the reactions whose emoji
name, lower-cased, starts with `kek`. It keeps the messages with a positive
score in a SQLite table `messages`, keyed by message id. On request it answers
with the five best-scoring rows.

This project models that core in Dafny. The Discord client and the SQLite
connection around it are left out. There are four modules:

- `Text` (`text.dfy`): the ASCII part of `str.lower()`, and the decimal
  rendering `f"{n}"` that turns integer ids into table keys. A parse function
  reads the rendering back, so distinct ids give distinct keys.
- `Kek` (`kek.dfy`): the emoji as a tagged variant, `Named(name)` for a custom
  or partial emoji and `Plain(symbol)` for a Unicode emoji. `EmojiName` is
  `get_emoji_name`. `IsKek` is `re.match("^kek", name.lower())`. `CalcKeks` is
  the `sum` over the list comprehension. The lemmas fix the score on every list
  of reactions: it adds up over concatenation, a single reaction gives its count
  when it is a kek and 0 otherwise, and reordering changes nothing.
- `Store` (`store.dfy`): the `messages` table as a `map<string, Row>` held in
  the class `MessageTable`. `ExecuteMany` is `executemany` with
  `INSERT OR REPLACE`. It loops over the batch and is proved equal to
  `UpsertAll`, a left-to-right fold. The lemmas prove that the last write for
  an id wins, that rows for other ids do not change, that upsert is idempotent,
  and that batches with disjoint ids commute. The query
  `ORDER BY reaction_count DESC LIMIT 5` is specified by the predicate
  `IsTopN`, which allows any order among equal counts. `SelectTop` computes one
  admissible answer. One lemma proves that any two admissible answers show the
  same counts position by position.
- `Scanner` (`scanner.dfy`): `update_tracked_messages_for_channel`. The
  history is passed in as a sequence, oldest first, and the clock reading is a
  parameter. The fetch yields the first 100 messages newer than
  `now - 5 days` (discord.py's default `limit`). The scan keeps those whose
  score is positive, in history order. It builds one row
  `(id, channel id, jump url, author id, score)` per kept message and upserts
  the batch. A channel that is not a text channel writes nothing.

## Model

| member | source | states |
|---|---|---|
| `Text.Lower` | bot.py:51 | Lower-casing keeps the length and lower-cases each character on its own (ASCII letters only) |
| `Text.Decimal` | bot.py:62 | `f"{n}"` of a non-negative id is a non-empty string of decimal digits without a leading zero |
| `Text.ParseDecimalOfDecimal` | bot.py:62 | Reading back the decimal key of an id gives the id (round trip) |
| `Text.DecimalInjective` | bot.py:62 | Distinct message ids give distinct `message_id` keys |
| `Kek.EmojiName` | bot.py:46-47 | A custom or partial emoji is matched by its name, a plain emoji by its own character string |
| `Kek.IsKek` | bot.py:51 | No contract of its own: the lower-cased name starts with "kek"; `Kek.IsKekCaseInsensitive` characterises it |
| `Kek.IsKekCaseInsensitive` | bot.py:51 | `^kek` on the lower-cased name holds exactly when the name's first three characters are k, e, k in either case |
| `Kek.CalcKeks` | bot.py:50-51 | No contract of its own: the sum of the counts of the kek reactions; `Kek.CalcKeksAppend` and `Kek.CalcKeksUnits` fix its value on every list |
| `Kek.CalcKeksAppend` | bot.py:50-51 | The score of two lists of reactions put together is the sum of their scores |
| `Kek.CalcKeksUnits` | bot.py:50-51 | No reactions score 0; one reaction scores its count if it is a kek and 0 otherwise |
| `Kek.CalcKeksAppendNonKek` | bot.py:51 | Appending a reaction whose name does not start with "kek" leaves the score unchanged |
| `Kek.CalcKeksPositive` | bot.py:51 | The score is positive exactly when some kek reaction has a positive count |
| `Kek.CalcKeksPermutation` | bot.py:50-51 | The score does not depend on the order of the reactions |
| `Kek.CalcKeksExample` | bot.py:50-51 | Kekw x3, sad x5, keklul x1 score 4 |
| `Store.UpsertAll` | bot.py:64 | After a batch the table's ids are the old ids plus the batch's ids, and each row still sits under its own id |
| `Store.LastWith` | bot.py:64 | Finds the last row of a batch with a given id; absent exactly when no row has that id |
| `Store.UpsertAllLastWins` | bot.py:62-64 | An id written by the batch maps to the batch's last row for it; every other id keeps its row or stays absent |
| `Store.UpsertAllIdempotent` | bot.py:64 | Upserting the same batch twice gives the same table as upserting it once |
| `Store.UpsertAllCommutes` | bot.py:64-68 | Batches with disjoint ids give the same table in either order, so the landing order of concurrent channel scans does not matter |
| `Store.IsTopN` | bot.py:88 | The answers the query may give: min(n, table size) distinct table rows, counts descending, no row left out outranking a chosen one |
| `Store.TopNOfWholeTable` | bot.py:88 | With a limit at least the table size, the leaderboard holds every row |
| `Store.TopNCountsDetermined` | bot.py:88 | Any two admissible leaderboards have the same length and the same count at each position; they differ only among ties |
| `Store.MessageTable.Bootstrap` | bot.py:33-34 | The table starts empty and satisfies the one-row-per-id invariant |
| `Store.MessageTable.ExecuteMany` | bot.py:64 | After the call the table is the old table with each batch row, left to right, stored under its id, and every row still sits under its own id |
| `Store.MessageTable.MostKeks` | bot.py:88 | Picks, among candidate ids, one whose row has the largest count |
| `Store.MessageTable.SelectTop` | bot.py:88 | Returns min(limit, table size) distinct rows of the table, sorted by count descending, none outranked by a row left out |
| `Scanner.ScanCutoff` | bot.py:56 | No contract of its own: the clock reading less 5 days of 86400 seconds |
| `Scanner.Score` | bot.py:57 | The `len(...)` guard changes nothing: a message's score is `calc_keks` of its reactions |
| `Scanner.Recent` | bot.py:57 | No contract of its own: the history messages newer than the cutoff, in order; fixed by `Scanner.RecentMembers` |
| `Scanner.RecentMembers` | bot.py:57 | A message is in the window exactly when it is in the history and created after the cutoff |
| `Scanner.Fetched` | bot.py:57 | No contract of its own: `history(after=..., oldest_first=True)` with the default limit; fixed by `Scanner.FetchedWindow` and `Scanner.FetchCapDrops` |
| `Scanner.FetchedWindow` | bot.py:57 | The fetch is the oldest min(100, window size) messages of the window, all history messages newer than the cutoff, and the whole window when it holds at most 100 |
| `Scanner.FetchCapDrops` | bot.py:57 | A message past the first 100 of the window is neither fetched nor kept, whatever its reactions |
| `Scanner.Kept` | bot.py:57 | No contract of its own: the comprehension's test, created after the cutoff with a positive score |
| `Scanner.Tracked` | bot.py:57 | No contract of its own: the comprehension's filter; fixed by `Scanner.TrackedMembers`, `Scanner.TrackedAppend` and `Scanner.TrackedKeepsOrder` |
| `Scanner.TrackedMembers` | bot.py:56-57 | A message is kept exactly when it is in the history, newer than the cutoff and has a positive score |
| `Scanner.TrackedAppend` | bot.py:57 | Filtering keeps order: the kept messages of two stretches of history come one after the other |
| `Scanner.TrackedKeepsOrder` | bot.py:57 | Two kept messages appear in the result in their history order |
| `Scanner.TrackedDropsNonKek` | bot.py:57 | A message with no reactions, or with only non-kek reactions, is never kept |
| `Scanner.TrackedRecent` | bot.py:57 | Keeping only the window first changes nothing the filter keeps |
| `Scanner.ShortWindowKeepsAll` | bot.py:57 | With at most 100 messages in the window the scan keeps exactly what filtering the whole history keeps |
| `Scanner.MessageRow` | bot.py:62 | No contract of its own: the tuple written for one message; `Scanner.ChannelRowsAreKeptMessages` states what it holds |
| `Scanner.MessageTuples` | bot.py:62 | No contract of its own: one row per kept message, in order; fixed by `Scanner.ChannelRowsAreKeptMessages` |
| `Scanner.ChannelRows` | bot.py:54-62 | No contract of its own: the batch one scan writes; fixed by `Scanner.ChannelRowsAreKeptMessages` |
| `Scanner.ChannelRowsAreKeptMessages` | bot.py:54-62 | A non-text channel yields no rows; a text channel yields a row, with positive count equal to the score, for exactly the kept messages among those fetched |
| `Scanner.ScanStoresKeptMessages` | bot.py:62-64 | After the scan each fetched, kept message's row is stored under its id |
| `Scanner.ScanLeavesOtherRows` | bot.py:62-64 | A scan leaves every row not belonging to a fetched, kept message unchanged |
| `Scanner.ScanKeepsCountsPositive` | bot.py:62-64 | If every stored count is positive before a scan, it is positive after |
| `Scanner.RescanExample` | bot.py:53-64 | A kekw x3 + sad x1 message and an unreacted one leave one row with count 3, which heads the leaderboard |
| `Scanner.UpdateTrackedMessagesForChannel` | bot.py:53-64 | The table after the scan is the old table upserted with the channel's rows; unchanged for a non-text channel |

## Left out

- The Discord client and its events (`discord.Client`, `on_ready`, `on_message`, `print`). The leaderboard reply is left out too: looking up the channel, the author and the message, and building the embed are network calls into a library that is not part of this model. `SelectTop` models the query that feeds the reply.
- `update_counts_for_channels` and `asyncio.gather`: the per-channel scans run concurrently. The model covers the scan of a single channel. `Store.UpsertAllCommutes` shows that the landing order does not matter when channels do not share message ids. The model also leaves out that one failing scan makes the whole `gather` fail.
- `setup_reload_polling`: an endless loop with a 60-second sleep. Its point is timing.
- The clock: `datetime.now()` becomes the `now` parameter, in seconds. A comment at bot.py:55 says "three days", but the code uses 5 days. The model uses 5.
- The history fetch: the channel's messages are given as a sequence, oldest first, and `Fetched` takes the first 100 created strictly after the cutoff. The paging of the fetch into API requests is left out.
- The SQLite connection, transactions and durability. The code never calls `commit()`, so the model only gives the table's state inside one connection. Each run starts from an empty table.
- The order SQLite gives to rows with equal counts. `IsTopN` allows any order among ties, and `SelectTop` picks one.
- `self.tracked_messages`: it is overwritten for every channel and never read.
- The unused `ThreadPoolExecutor`.
- Unicode case folding: `Lower` changes only ASCII letters. Python's `str.lower()` also maps, for example, the Kelvin sign to `k`.
- A custom emoji without a name is not represented: `Named` always carries a name.
- Scanner.ScanStoresKeptMessages: assumes that the history does not list one message id with two different contents. A message id identifies one message.

## Notes on the code

- `history(after=...)` excludes the cutoff itself: a message created exactly at the cutoff is not scanned.
- `history(...)` is called without `limit`, so it yields at most 100 messages: in a busy channel the newest messages of the window are never scanned.
- An exception in one channel's scan propagates out of `asyncio.gather`; in the polling task it ends polling.
- A custom emoji whose name is `None` makes `.lower()` raise.
- `author_id` is stored as the raw integer `message.author.id`, and `channel_id` as the string `f"{channel.id}"`.
