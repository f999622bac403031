/** The channel scanner: one pass over a channel's recent history keeps the
    messages with a positive kek score and writes one row per kept message into
    the `messages` table. */
module Scanner {
  import opened Text
  import opened Kek
  import opened Store

  /** A message as the channel history yields it; `createdAt` is in seconds. */
  datatype Message = Message(id: nat, createdAt: int, jumpUrl: string,
                             authorId: nat, reactions: seq<Reaction>)

  /** A guild channel. Only a text channel has a message history; its messages
      are listed oldest first. Voice channels, categories and the like are
      `OtherChannel`. */
  datatype Channel =
    | TextChannel(id: nat, history: seq<Message>)
    | OtherChannel(id: nat)

  const SCAN_WINDOW_DAYS: int := 5
  const SECONDS_PER_DAY: int := 86400

  /** `datetime.now() - timedelta(days=5)`, with the clock reading passed in. */
  function ScanCutoff(now: int): int
  {
    now - SCAN_WINDOW_DAYS * SECONDS_PER_DAY
  }

  /** `self.calc_keks(message.reactions) if len(message.reactions) else 0`. */
  function Score(m: Message): (score: nat)
    ensures score == CalcKeks(m.reactions)
  {
    if |m.reactions| > 0 then CalcKeks(m.reactions) else 0
  }

  /** A history message survives the scan: it is newer than the cutoff and its
      score is positive. */
  predicate Kept(m: Message, cutoff: int)
  {
    m.createdAt > cutoff && Score(m) > 0
  }

  /** The messages a scan keeps, in history order. */
  function Tracked(history: seq<Message>, cutoff: int): seq<Message>
  {
    if history == [] then []
    else (if Kept(history[0], cutoff) then [history[0]] else []) + Tracked(history[1..], cutoff)
  }

  /** A message is kept exactly when it is in the history and passes the scan's test. */
  lemma {:induction false} TrackedMembers(history: seq<Message>, cutoff: int)
    ensures forall m :: m in Tracked(history, cutoff) <==> m in history && Kept(m, cutoff)
  {
    if history != [] {
      TrackedMembers(history[1..], cutoff);
      assert history == [history[0]] + history[1..];
    }
  }

  /** Scanning two stretches of history one after the other keeps what scanning
      their concatenation keeps. */
  lemma {:induction false} TrackedAppend(a: seq<Message>, b: seq<Message>, cutoff: int)
    ensures Tracked(a + b, cutoff) == Tracked(a, cutoff) + Tracked(b, cutoff)
  {
    if a == [] {
      assert a + b == b;
    } else {
      var head := if Kept(a[0], cutoff) then [a[0]] else [];
      assert (a + b)[0] == a[0];
      assert (a + b)[1..] == a[1..] + b;
      assert Tracked(a + b, cutoff) == head + Tracked(a[1..] + b, cutoff);
      TrackedAppend(a[1..], b, cutoff);
      assert head + (Tracked(a[1..], cutoff) + Tracked(b, cutoff))
          == (head + Tracked(a[1..], cutoff)) + Tracked(b, cutoff);
    }
  }

  /** Two kept messages appear in the result in the order they have in the history. */
  lemma TrackedKeepsOrder(history: seq<Message>, cutoff: int, i: nat, j: nat)
    requires i < j < |history|
    requires Kept(history[i], cutoff) && Kept(history[j], cutoff)
    ensures exists p, q :: (0 <= p < q < |Tracked(history, cutoff)| &&
      Tracked(history, cutoff)[p] == history[i] && Tracked(history, cutoff)[q] == history[j])
  {
    var before, after := history[..j], history[j..];
    assert history == before + after;
    TrackedAppend(before, after, cutoff);
    assert before[i] == history[i];
    TrackedMembers(before, cutoff);
    var p :| 0 <= p < |Tracked(before, cutoff)| && Tracked(before, cutoff)[p] == history[i];
    assert after == [history[j]] + after[1..];
    TrackedAppend([history[j]], after[1..], cutoff);
    assert [history[j]][1..] == [];
    var q := |Tracked(before, cutoff)|;
    assert Tracked(history, cutoff)[p] == history[i];
    assert Tracked(history, cutoff)[q] == history[j];
  }

  /** A message with no kek reaction, in particular one with no reactions at all,
      is never kept. */
  lemma TrackedDropsNonKek(history: seq<Message>, cutoff: int, m: Message)
    requires forall r :: r in m.reactions ==> !IsKek(r.emoji)
    ensures m !in Tracked(history, cutoff)
  {
    CalcKeksPositive(m.reactions);
    TrackedMembers(history, cutoff);
  }

  /** How many messages one `channel.history(...)` call yields when no `limit`
      is given: discord.py's default. */
  const HISTORY_LIMIT: nat := 100

  /** The messages of `history` created after the cutoff, oldest first. */
  function Recent(history: seq<Message>, cutoff: int): seq<Message>
  {
    if history == [] then []
    else (if history[0].createdAt > cutoff then [history[0]] else []) + Recent(history[1..], cutoff)
  }

  /** `channel.history(after=cutoff, oldest_first=True)`: the first
      `HISTORY_LIMIT` messages created after the cutoff, oldest first. */
  function Fetched(history: seq<Message>, cutoff: int): seq<Message>
  {
    var recent := Recent(history, cutoff);
    recent[..Min(HISTORY_LIMIT, |recent|)]
  }

  /** A message is after the cutoff exactly when it is in the history and newer
      than the cutoff. */
  lemma {:induction false} RecentMembers(history: seq<Message>, cutoff: int)
    ensures forall m :: m in Recent(history, cutoff) <==> m in history && m.createdAt > cutoff
  {
    if history != [] {
      RecentMembers(history[1..], cutoff);
      assert history == [history[0]] + history[1..];
    }
  }

  /** The fetch yields the oldest `HISTORY_LIMIT` messages after the cutoff, or
      all of them when there are no more; each is a history message newer than
      the cutoff. */
  lemma FetchedWindow(history: seq<Message>, cutoff: int)
    ensures |Fetched(history, cutoff)| == Min(HISTORY_LIMIT, |Recent(history, cutoff)|)
    ensures Fetched(history, cutoff) == Recent(history, cutoff)[..|Fetched(history, cutoff)|]
    ensures |Recent(history, cutoff)| <= HISTORY_LIMIT ==> Fetched(history, cutoff) == Recent(history, cutoff)
    ensures forall m :: m in Fetched(history, cutoff) ==> m in history && m.createdAt > cutoff
  {
    RecentMembers(history, cutoff);
    var recent, fetched := Recent(history, cutoff), Fetched(history, cutoff);
    forall m | m in fetched
      ensures m in recent
    {
      var p :| 0 <= p < |fetched| && fetched[p] == m;
      assert recent[p] == m;
    }
  }

  /** The cap: a message after the first `HISTORY_LIMIT` in the window is never
      fetched, so it is not kept whatever its reactions. */
  lemma FetchCapDrops(history: seq<Message>, cutoff: int, i: nat)
    requires HISTORY_LIMIT <= i < |Recent(history, cutoff)|
    requires forall p :: 0 <= p < i ==> Recent(history, cutoff)[p] != Recent(history, cutoff)[i]
    ensures Recent(history, cutoff)[i] !in Fetched(history, cutoff)
    ensures Recent(history, cutoff)[i] !in Tracked(Fetched(history, cutoff), cutoff)
  {
    var recent, fetched := Recent(history, cutoff), Fetched(history, cutoff);
    forall p | 0 <= p < |fetched|
      ensures fetched[p] != recent[i]
    {
      assert fetched[p] == recent[p];
    }
    TrackedMembers(fetched, cutoff);
  }

  /** Filtering on the cutoff first changes nothing the scan keeps. */
  lemma {:induction false} TrackedRecent(history: seq<Message>, cutoff: int)
    ensures Tracked(Recent(history, cutoff), cutoff) == Tracked(history, cutoff)
  {
    if history != [] {
      var h := history[0];
      var head := if h.createdAt > cutoff then [h] else [];
      assert Recent(history, cutoff) == head + Recent(history[1..], cutoff);
      TrackedAppend(head, Recent(history[1..], cutoff), cutoff);
      TrackedRecent(history[1..], cutoff);
      assert Tracked(head, cutoff) == (if Kept(h, cutoff) then [h] else []) by {
        if head != [] {
          assert head[1..] == [];
        }
      }
    }
  }

  /** With at most `HISTORY_LIMIT` messages in the window the cap never bites:
      the scan keeps what filtering the whole history keeps. */
  lemma ShortWindowKeepsAll(history: seq<Message>, cutoff: int)
    requires |Recent(history, cutoff)| <= HISTORY_LIMIT
    ensures Tracked(Fetched(history, cutoff), cutoff) == Tracked(history, cutoff)
  {
    FetchedWindow(history, cutoff);
    TrackedRecent(history, cutoff);
  }

  /** The row a kept message is written as:
      `(f"{message.id}", f"{channel.id}", message.jump_url, message.author.id, score)`. */
  function MessageRow(m: Message, channelId: nat): Row
  {
    Row(Decimal(m.id), Decimal(channelId), m.jumpUrl, m.authorId, CalcKeks(m.reactions))
  }

  /** The batch handed to `executemany`, one row per kept message, in order. */
  function MessageTuples(messages: seq<Message>, channelId: nat): seq<Row>
  {
    seq(|messages|, i requires 0 <= i < |messages| => MessageRow(messages[i], channelId))
  }

  /** The batch one scan of `channel` at clock reading `now` writes. */
  function ChannelRows(channel: Channel, now: int): seq<Row>
  {
    match channel
    case TextChannel(id, history) =>
      var cutoff := ScanCutoff(now);
      MessageTuples(Tracked(Fetched(history, cutoff), cutoff), id)
    case OtherChannel(_) => []
  }

  /** Exactly the kept messages among those a text channel's fetch yields are
      written, each with its own score, which is positive; a channel that is not
      a text channel writes nothing. */
  lemma ChannelRowsAreKeptMessages(channel: Channel, now: int)
    ensures channel.OtherChannel? ==> ChannelRows(channel, now) == []
    ensures forall r :: r in ChannelRows(channel, now) ==>
      channel.TextChannel? && r.reactionCount > 0 &&
      exists m :: m in Fetched(channel.history, ScanCutoff(now)) && Kept(m, ScanCutoff(now)) &&
                  r == MessageRow(m, channel.id) && r.reactionCount == Score(m)
    ensures channel.TextChannel? ==>
      forall m :: m in Fetched(channel.history, ScanCutoff(now)) && Kept(m, ScanCutoff(now)) ==>
        MessageRow(m, channel.id) in ChannelRows(channel, now)
  {
    if channel.TextChannel? {
      var fetched := Fetched(channel.history, ScanCutoff(now));
      RowsComeFromKeptMessages(fetched, ScanCutoff(now), channel.id);
      KeptMessagesHaveRows(fetched, ScanCutoff(now), channel.id);
    }
  }

  lemma RowsComeFromKeptMessages(history: seq<Message>, cutoff: int, channelId: nat)
    ensures forall r :: r in MessageTuples(Tracked(history, cutoff), channelId) ==>
      r.reactionCount > 0 &&
      exists m :: m in history && Kept(m, cutoff) &&
                  r == MessageRow(m, channelId) && r.reactionCount == Score(m)
  {
    var kept := Tracked(history, cutoff);
    var rows := MessageTuples(kept, channelId);
    TrackedMembers(history, cutoff);
    forall r | r in rows
      ensures r.reactionCount > 0
      ensures exists m :: m in history && Kept(m, cutoff) &&
                          r == MessageRow(m, channelId) && r.reactionCount == Score(m)
    {
      var i :| 0 <= i < |rows| && rows[i] == r;
      assert kept[i] in kept;
    }
  }

  lemma KeptMessagesHaveRows(history: seq<Message>, cutoff: int, channelId: nat)
    ensures forall m :: m in history && Kept(m, cutoff) ==>
      MessageRow(m, channelId) in MessageTuples(Tracked(history, cutoff), channelId)
  {
    var kept := Tracked(history, cutoff);
    var rows := MessageTuples(kept, channelId);
    TrackedMembers(history, cutoff);
    forall m | m in history && Kept(m, cutoff)
      ensures MessageRow(m, channelId) in rows
    {
      var i :| 0 <= i < |kept| && kept[i] == m;
      assert rows[i] == MessageRow(m, channelId);
    }
  }

  /** After a scan every fetched, kept message's row sits under its own id,
      provided the history lists each message id with one content. */
  lemma ScanStoresKeptMessages(t: Table, channel: Channel, now: int, m: Message)
    requires channel.TextChannel?
    requires forall m1, m2 :: m1 in channel.history && m2 in channel.history && m1.id == m2.id ==> m1 == m2
    requires m in Fetched(channel.history, ScanCutoff(now)) && Kept(m, ScanCutoff(now))
    ensures Decimal(m.id) in UpsertAll(t, ChannelRows(channel, now))
    ensures UpsertAll(t, ChannelRows(channel, now))[Decimal(m.id)] == MessageRow(m, channel.id)
  {
    var cutoff := ScanCutoff(now);
    var fetched := Fetched(channel.history, cutoff);
    var rows := ChannelRows(channel, now);
    assert rows == MessageTuples(Tracked(fetched, cutoff), channel.id);
    FetchedWindow(channel.history, cutoff);
    KeptMessagesHaveRows(fetched, cutoff, channel.id);
    var key := Decimal(m.id);
    var mine := MessageRow(m, channel.id);
    assert mine in rows && mine.messageId == key;
    assert key in Ids(rows);
    UpsertAllLastWins(t, rows, key);
    var last := LastWith(rows, key).value;
    assert last in rows && last.messageId == key;
    RowsComeFromKeptMessages(fetched, cutoff, channel.id);
    var m' :| m' in fetched && Kept(m', cutoff) && last == MessageRow(m', channel.id);
    DecimalInjective(m'.id, m.id);
  }

  /** A scan leaves untouched every row whose id is not the id of a fetched,
      kept message. */
  lemma ScanLeavesOtherRows(t: Table, channel: Channel, now: int, k: string)
    requires k in t
    requires channel.TextChannel? ==>
      forall m :: m in Fetched(channel.history, ScanCutoff(now)) && Kept(m, ScanCutoff(now)) ==>
        Decimal(m.id) != k
    ensures k in UpsertAll(t, ChannelRows(channel, now))
    ensures UpsertAll(t, ChannelRows(channel, now))[k] == t[k]
  {
    var rows := ChannelRows(channel, now);
    ChannelRowsAreKeptMessages(channel, now);
    forall r | r in rows
      ensures r.messageId != k
    {
    }
    assert k !in Ids(rows);
    UpsertAllLastWins(t, rows, k);
  }

  /** Every stored count is positive, and a scan keeps it so. */
  lemma ScanKeepsCountsPositive(t: Table, channel: Channel, now: int)
    requires forall k :: k in t ==> t[k].reactionCount > 0
    ensures forall k :: k in UpsertAll(t, ChannelRows(channel, now)) ==>
      UpsertAll(t, ChannelRows(channel, now))[k].reactionCount > 0
  {
    var rows := ChannelRows(channel, now);
    ChannelRowsAreKeptMessages(channel, now);
    forall k | k in UpsertAll(t, rows)
      ensures UpsertAll(t, rows)[k].reactionCount > 0
    {
      UpsertAllLastWins(t, rows, k);
    }
  }

  /** A worked rescan: one channel holds a message with three "kekw" and one "sad"
      reaction, another a message without reactions. Starting from an empty
      table, the two scans leave exactly one row, with count 3, and it heads the
      leaderboard. */
  lemma RescanExample(now: int)
    ensures var m := Message(1, now, "jump/1", 7, [Reaction(Named("kekw"), 3), Reaction(Plain("sad"), 1)]);
            var quiet := Message(2, now, "jump/2", 8, []);
            var t := UpsertAll(UpsertAll(map[], ChannelRows(TextChannel(10, [m]), now)),
                               ChannelRows(TextChannel(20, [quiet]), now));
            && t == map[Decimal(1) := Row(Decimal(1), Decimal(10), "jump/1", 7, 3)]
            && IsTopN(t, [t[Decimal(1)]], 5)
  {
    var m := Message(1, now, "jump/1", 7, [Reaction(Named("kekw"), 3), Reaction(Plain("sad"), 1)]);
    var quiet := Message(2, now, "jump/2", 8, []);
    var row := Row(Decimal(1), Decimal(10), "jump/1", 7, 3);
    ExampleBatches(m, quiet, now);
    SingleRowTable(row);
    SingleRowTop(row, 5);
  }

  lemma SingleRowTable(row: Row)
    ensures UpsertAll(UpsertAll(map[], [row]), []) == map[row.messageId := row]
  {
    assert [row][..0] == [];
  }

  lemma SingleRowTop(row: Row, n: nat)
    requires n >= 1
    ensures IsTopN(map[row.messageId := row], [row], n)
  {
    assert Ids([row]) == {row.messageId};
  }

  lemma ExampleBatches(m: Message, quiet: Message, now: int)
    requires m == Message(1, now, "jump/1", 7, [Reaction(Named("kekw"), 3), Reaction(Plain("sad"), 1)])
    requires quiet == Message(2, now, "jump/2", 8, [])
    ensures ChannelRows(TextChannel(10, [m]), now) == [Row(Decimal(1), Decimal(10), "jump/1", 7, 3)]
    ensures ChannelRows(TextChannel(20, [quiet]), now) == []
  {
    var kekw, sad := m.reactions[0], m.reactions[1];
    IsKekCaseInsensitive(kekw.emoji);
    IsKekCaseInsensitive(sad.emoji);
    assert m.reactions == [kekw] + [sad];
    CalcKeksAppend([kekw], [sad]);
    CalcKeksUnits(kekw);
    CalcKeksUnits(sad);
    assert Score(m) == 3;
    assert Score(quiet) == 0;
    assert [m][1..] == [] && [quiet][1..] == [];
    assert Recent([m], ScanCutoff(now)) == [m] && Recent([quiet], ScanCutoff(now)) == [quiet];
    assert Fetched([m], ScanCutoff(now)) == [m] && Fetched([quiet], ScanCutoff(now)) == [quiet];
    assert Tracked([m], ScanCutoff(now)) == [m];
    assert Tracked([quiet], ScanCutoff(now)) == [];
  }

  /** `update_tracked_messages_for_channel`: scan one channel and upsert the rows
      of the kept messages; a channel that is not a text channel is skipped. */
  method UpdateTrackedMessagesForChannel(table: MessageTable, channel: Channel, now: int)
    requires table.Valid()
    modifies table
    ensures table.Valid()
    ensures table.rows == UpsertAll(old(table.rows), ChannelRows(channel, now))
    ensures channel.OtherChannel? ==> table.rows == old(table.rows)
  {
    if channel.TextChannel? {
      var cutoff := ScanCutoff(now);
      var fetched := Fetched(channel.history, cutoff);
      var messages := Tracked(fetched, cutoff);
      var tuples := MessageTuples(messages, channel.id);
      table.ExecuteMany(tuples);
    }
  }
}
