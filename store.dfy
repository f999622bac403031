/** The `messages` table: rows keyed by the UNIQUE `message_id`, written with
    INSERT OR REPLACE and read back as a top-N leaderboard by reaction count. */
module Store {

  datatype Option<T> = None | Some(value: T)

  /** One row: (message_id, channel_id, jump_id, user_id, reaction_count). */
  datatype Row = Row(messageId: string, channelId: string, jumpUrl: string,
                     authorId: nat, reactionCount: nat)

  /** The table's contents, indexed by the unique column. */
  type Table = map<string, Row>

  /** The UNIQUE constraint seen through the index: every row sits under its own id. */
  predicate Keyed(t: Table)
  {
    forall k :: k in t ==> t[k].messageId == k
  }

  function Ids(rows: seq<Row>): set<string>
  {
    set r | r in rows :: r.messageId
  }

  /** `executemany("INSERT OR REPLACE ...", batch)`: each row of the batch, left to
      right, replaces whatever row held its id. */
  function UpsertAll(t: Table, batch: seq<Row>): (u: Table)
    ensures u.Keys == t.Keys + Ids(batch)
    ensures Keyed(t) ==> Keyed(u)
    decreases |batch|
  {
    if batch == [] then t
    else
      var last := batch[|batch| - 1];
      assert batch == batch[..|batch| - 1] + [last];
      UpsertAll(t, batch[..|batch| - 1])[last.messageId := last]
  }

  /** The last row of the batch that carries `id`, if any. */
  function LastWith(batch: seq<Row>, id: string): (found: Option<Row>)
    ensures found.None? <==> id !in Ids(batch)
    ensures found.Some? ==> found.value in batch && found.value.messageId == id
    ensures found.Some? ==>
      exists i :: (0 <= i < |batch| && batch[i] == found.value && batch[i].messageId == id &&
                   forall j :: i < j < |batch| ==> batch[j].messageId != id)
    decreases |batch|
  {
    if batch == [] then None
    else
      var last := batch[|batch| - 1];
      assert batch == batch[..|batch| - 1] + [last];
      if last.messageId == id then Some(last) else LastWith(batch[..|batch| - 1], id)
  }

  /** Last write wins: an id written by the batch maps to the batch's last row for
      it; every other id keeps the row it had, or stays absent. */
  lemma {:induction false} UpsertAllLastWins(t: Table, batch: seq<Row>, id: string)
    ensures LastWith(batch, id).Some? ==>
      id in UpsertAll(t, batch) && UpsertAll(t, batch)[id] == LastWith(batch, id).value
    ensures LastWith(batch, id).None? ==>
      (id in UpsertAll(t, batch) <==> id in t) &&
      (id in t ==> UpsertAll(t, batch)[id] == t[id])
    decreases |batch|
  {
    if batch != [] {
      UpsertAllLastWins(t, batch[..|batch| - 1], id);
    }
  }

  /** Writing the same batch twice leaves the table as writing it once. */
  lemma UpsertAllIdempotent(t: Table, batch: seq<Row>)
    ensures UpsertAll(UpsertAll(t, batch), batch) == UpsertAll(t, batch)
  {
    var once := UpsertAll(t, batch);
    var twice := UpsertAll(once, batch);
    forall id | id in twice
      ensures id in once && twice[id] == once[id]
    {
      UpsertAllLastWins(t, batch, id);
      UpsertAllLastWins(once, batch, id);
    }
    assert twice.Keys == once.Keys;
  }

  /** Batches that touch disjoint ids can be written in either order: the result
      of concurrent per-channel scans does not depend on which lands first. */
  lemma {:induction false} UpsertAllCommutes(t: Table, a: seq<Row>, b: seq<Row>)
    requires Ids(a) !! Ids(b)
    ensures UpsertAll(UpsertAll(t, a), b) == UpsertAll(UpsertAll(t, b), a)
  {
    var ab := UpsertAll(UpsertAll(t, a), b);
    var ba := UpsertAll(UpsertAll(t, b), a);
    forall id | id in ab
      ensures ab[id] == ba[id]
    {
      UpsertAllCommutesAt(t, a, b, id);
    }
    SameTable(ab, ba);
  }

  lemma UpsertAllCommutesAt(t: Table, a: seq<Row>, b: seq<Row>, id: string)
    requires Ids(a) !! Ids(b)
    requires id in UpsertAll(UpsertAll(t, a), b)
    ensures id in UpsertAll(UpsertAll(t, b), a)
    ensures UpsertAll(UpsertAll(t, a), b)[id] == UpsertAll(UpsertAll(t, b), a)[id]
  {
    var ta, tb := UpsertAll(t, a), UpsertAll(t, b);
    UpsertAllLastWins(t, a, id);
    UpsertAllLastWins(t, b, id);
    UpsertAllLastWins(ta, b, id);
    UpsertAllLastWins(tb, a, id);
  }

  lemma SameTable(t: Table, u: Table)
    requires t.Keys == u.Keys
    requires forall k :: k in t ==> t[k] == u[k]
    ensures t == u
  {
  }

  function Min(a: nat, b: nat): nat
  {
    if a <= b then a else b
  }

  /** `SELECT * FROM messages ORDER BY reaction_count DESC LIMIT n`: the admissible
      answers. Rows with equal counts may come in any order, so this names every
      answer the query may give rather than one of them. */
  ghost predicate IsTopN(t: Table, top: seq<Row>, n: nat)
  {
    && |top| == Min(n, |t|)
    && (forall i :: 0 <= i < |top| ==> top[i].messageId in t && t[top[i].messageId] == top[i])
    && (forall i, j :: 0 <= i < j < |top| ==> top[i].messageId != top[j].messageId)
    && (forall i, j :: 0 <= i < j < |top| ==> top[i].reactionCount >= top[j].reactionCount)
    && (forall k, i :: k in t && k !in Ids(top) && 0 <= i < |top| ==>
          t[k].reactionCount <= top[i].reactionCount)
  }

  /** Distinct ids in a sequence of rows: one id per row. */
  lemma {:induction false} DistinctIdsCount(rows: seq<Row>)
    requires forall i, j :: 0 <= i < j < |rows| ==> rows[i].messageId != rows[j].messageId
    ensures |Ids(rows)| == |rows|
  {
    if rows != [] {
      var init := rows[..|rows| - 1];
      var last := rows[|rows| - 1];
      assert rows == init + [last];
      DistinctIdsCount(init);
      assert Ids(rows) == Ids(init) + {last.messageId};
      assert last.messageId !in Ids(init);
    }
  }

  /** When the limit covers the whole table, the leaderboard holds every row. */
  lemma {:induction false} TopNOfWholeTable(t: Table, top: seq<Row>, n: nat)
    requires IsTopN(t, top, n)
    requires n >= |t|
    ensures Ids(top) == t.Keys
  {
    DistinctIdsCount(top);
    assert Ids(top) <= t.Keys;
    assert |t.Keys| == |t|;
    assert |t.Keys - Ids(top)| == 0;
  }

  /** Two admissible leaderboards differ only in how ties are ordered: position by
      position they show the same counts. */
  lemma {:induction false} TopNCountsDetermined(t: Table, a: seq<Row>, b: seq<Row>, n: nat)
    requires IsTopN(t, a, n) && IsTopN(t, b, n)
    ensures |a| == |b|
    ensures forall i :: 0 <= i < |a| ==> a[i].reactionCount == b[i].reactionCount
  {
    forall i | 0 <= i < |a|
      ensures a[i].reactionCount == b[i].reactionCount
    {
      TopNDominates(t, a, b, n, i);
      TopNDominates(t, b, a, n, i);
    }
  }

  /** The count at position `j` of one admissible leaderboard is no greater than at
      the same position of another: among the `j + 1` rows `a[..j + 1]` one is
      missing from `b[..j]`, and `b` ranks it at or below `b[j]`. */
  lemma {:induction false} TopNDominates(t: Table, a: seq<Row>, b: seq<Row>, n: nat, j: nat)
    requires IsTopN(t, a, n) && IsTopN(t, b, n)
    requires j < |a|
    ensures a[j].reactionCount <= b[j].reactionCount
  {
    var upper, lower := a[..j + 1], b[..j];
    assert forall i :: 0 <= i < |upper| ==> upper[i] == a[i];
    var p := MissingId(upper, lower);
    var x := a[p].messageId;
    assert x in t && t[x] == a[p];
    assert a[j].reactionCount <= a[p].reactionCount;
    if x in Ids(b) {
      forall i | 0 <= i < j
        ensures b[i].messageId != x
      {
        assert lower[i] == b[i];
      }
      var q :| 0 <= q < |b| && b[q].messageId == x;
      assert t[x] == b[q];
      assert b[q].reactionCount <= b[j].reactionCount;
    } else {
      assert t[x].reactionCount <= b[j].reactionCount;
    }
  }

  /** A sequence of rows with distinct ids has an id that a shorter sequence lacks. */
  lemma {:induction false} MissingId(a: seq<Row>, b: seq<Row>) returns (p: nat)
    requires forall i, j :: 0 <= i < j < |a| ==> a[i].messageId != a[j].messageId
    requires |b| < |a|
    ensures p < |a| && a[p].messageId !in Ids(b)
  {
    DistinctIdsCount(a);
    IdsCountBound(b);
    if Ids(a) <= Ids(b) {
      SubsetCount(Ids(a), Ids(b));
      assert false;
    }
    var x :| x in Ids(a) && x !in Ids(b);
    p :| 0 <= p < |a| && a[p].messageId == x;
  }

  lemma {:induction false} IdsCountBound(rows: seq<Row>)
    ensures |Ids(rows)| <= |rows|
  {
    if rows != [] {
      var init := rows[..|rows| - 1];
      assert rows == init + [rows[|rows| - 1]];
      assert Ids(rows) == Ids(init) + {rows[|rows| - 1].messageId};
      IdsCountBound(init);
    }
  }

  lemma {:induction false} SubsetCount(a: set<string>, b: set<string>)
    requires a <= b
    ensures |a| <= |b|
    decreases |b|
  {
    if b != {} {
      var x :| x in b;
      SubsetCount(a - {x}, b - {x});
    }
  }

  /** The state of the selection after `top` has been taken: `pending` holds the ids
      not taken yet, and none of them outranks a taken row. */
  ghost predicate RankedPrefix(t: Table, top: seq<Row>, pending: set<string>)
  {
    && pending == t.Keys - Ids(top)
    && |top| + |pending| == |t|
    && (forall i :: 0 <= i < |top| ==> top[i].messageId in t && t[top[i].messageId] == top[i])
    && (forall i, j :: 0 <= i < j < |top| ==> top[i].messageId != top[j].messageId)
    && (forall i, j :: 0 <= i < j < |top| ==> top[i].reactionCount >= top[j].reactionCount)
    && (forall k, i :: k in pending && 0 <= i < |top| ==> t[k].reactionCount <= top[i].reactionCount)
  }

  /** Taking a pending row of largest count keeps the selection ranked. */
  lemma {:induction false} RankedPrefixStep(t: Table, top: seq<Row>, pending: set<string>, best: string)
    requires Keyed(t)
    requires RankedPrefix(t, top, pending)
    requires best in pending
    requires forall k :: k in pending ==> t[k].reactionCount <= t[best].reactionCount
    ensures RankedPrefix(t, top + [t[best]], pending - {best})
  {
    StepPending(t, top, pending, best);
    StepRows(t, top, pending, best);
  }

  lemma StepPending(t: Table, top: seq<Row>, pending: set<string>, best: string)
    requires Keyed(t)
    requires RankedPrefix(t, top, pending)
    requires best in pending
    ensures pending - {best} == t.Keys - Ids(top + [t[best]])
    ensures |top + [t[best]]| + |pending - {best}| == |t|
  {
    assert Ids(top + [t[best]]) == Ids(top) + {best};
  }

  lemma StepRows(t: Table, top: seq<Row>, pending: set<string>, best: string)
    requires Keyed(t)
    requires RankedPrefix(t, top, pending)
    requires best in pending
    requires forall k :: k in pending ==> t[k].reactionCount <= t[best].reactionCount
    ensures var top' := top + [t[best]];
      && (forall i :: 0 <= i < |top'| ==> top'[i].messageId in t && t[top'[i].messageId] == top'[i])
      && (forall i, j :: 0 <= i < j < |top'| ==> top'[i].messageId != top'[j].messageId)
      && (forall i, j :: 0 <= i < j < |top'| ==> top'[i].reactionCount >= top'[j].reactionCount)
      && (forall k, i :: k in pending - {best} && 0 <= i < |top'| ==>
            t[k].reactionCount <= top'[i].reactionCount)
  {
  }

  /** The in-connection state of the `messages` table. */
  class MessageTable {
    var rows: Table

    ghost predicate Valid()
      reads this
    {
      Keyed(rows)
    }

    /** `CREATE TABLE IF NOT EXISTS messages(...)`: the run starts from an empty
        table, as no earlier run ever committed its writes. */
    constructor Bootstrap()
      ensures Valid() && rows == map[]
    {
      rows := map[];
    }

    /** `cursor.executemany("INSERT OR REPLACE INTO messages VALUES(?,?,?,?,?)", batch)`. */
    method ExecuteMany(batch: seq<Row>)
      requires Valid()
      modifies this
      ensures Valid()
      ensures rows == UpsertAll(old(rows), batch)
    {
      var i := 0;
      while i < |batch|
        invariant 0 <= i <= |batch|
        invariant rows == UpsertAll(old(rows), batch[..i])
        invariant Keyed(rows)
      {
        assert batch[..i + 1][..i] == batch[..i];
        rows := rows[batch[i].messageId := batch[i]];
        i := i + 1;
      }
      assert batch[..i] == batch;
    }

    /** `ORDER BY reaction_count DESC` picks next a row with the largest count among
        those not yet returned. */
    method MostKeks(candidates: set<string>) returns (best: string)
      requires candidates != {} && candidates <= rows.Keys
      ensures best in candidates
      ensures forall k :: k in candidates ==> rows[k].reactionCount <= rows[best].reactionCount
    {
      best :| best in candidates;
      var rest := candidates - {best};
      while rest != {}
        invariant rest <= candidates && best in candidates
        invariant forall k :: k in candidates - rest ==> rows[k].reactionCount <= rows[best].reactionCount
        decreases rest
      {
        var k :| k in rest;
        if rows[k].reactionCount > rows[best].reactionCount {
          best := k;
        }
        rest := rest - {k};
      }
    }

    /** `SELECT * FROM messages ORDER BY reaction_count DESC LIMIT limit`. */
    method SelectTop(limit: nat) returns (top: seq<Row>)
      requires Valid()
      ensures IsTopN(rows, top, limit)
    {
      top := [];
      var pending := rows.Keys;
      assert |rows.Keys| == |rows|;
      while |top| < limit && pending != {}
        invariant |top| <= limit
        invariant RankedPrefix(rows, top, pending)
        decreases pending
      {
        var best := MostKeks(pending);
        RankedPrefixStep(rows, top, pending, best);
        top := top + [rows[best]];
        pending := pending - {best};
      }
    }
  }
}
