/** The score calculator: a message's score is the total count of its reactions
    whose emoji name, lower-cased, starts with "kek". */
module Kek {
  import opened Text

  /** A reaction's emoji. A custom or partial emoji carries a name; a plain Unicode
      emoji is just its character string. */
  datatype Emoji = Named(name: string) | Plain(symbol: string)

  /** One reaction tally on a message: which emoji and how many users used it. */
  datatype Reaction = Reaction(emoji: Emoji, count: nat)

  const KEK_PREFIX: string := "kek"

  /** The text an emoji is matched by: its name when it is a custom emoji, the
      character string itself when it is a plain one. */
  function EmojiName(e: Emoji): (name: string)
    ensures e.Named? ==> name == e.name
    ensures e.Plain? ==> name == e.symbol
  {
    match e
    case Named(n) => n
    case Plain(s) => s
  }

  /** `re.match("^kek", name.lower())`: the lower-cased name starts with "kek". */
  predicate IsKek(e: Emoji)
  {
    KEK_PREFIX <= Lower(EmojiName(e))
  }

  /** The kek test is a case-insensitive prefix test on the name. */
  lemma IsKekCaseInsensitive(e: Emoji)
    ensures var n := EmojiName(e);
      IsKek(e) <==> |n| >= 3 && (n[0] == 'k' || n[0] == 'K')
                             && (n[1] == 'e' || n[1] == 'E')
                             && (n[2] == 'k' || n[2] == 'K')
  {
    var n := EmojiName(e);
    if |n| >= 3 {
      LowerCharLetters(n[0]);
      LowerCharLetters(n[1]);
      LowerCharLetters(n[2]);
    }
  }

  /** The list comprehension inside `sum(...)`: the counts of the kek reactions, in order. */
  function KekCounts(rs: seq<Reaction>): seq<nat>
  {
    if rs == [] then []
    else (if IsKek(rs[0].emoji) then [rs[0].count] else []) + KekCounts(rs[1..])
  }

  function Sum(xs: seq<nat>): nat
  {
    if xs == [] then 0 else xs[0] + Sum(xs[1..])
  }

  /** The score of a message's reactions. */
  function CalcKeks(rs: seq<Reaction>): nat
  {
    Sum(KekCounts(rs))
  }

  lemma {:induction false} SumAppend(a: seq<nat>, b: seq<nat>)
    ensures Sum(a + b) == Sum(a) + Sum(b)
  {
    if a != [] {
      assert (a + b)[1..] == a[1..] + b;
      SumAppend(a[1..], b);
    } else {
      assert a + b == b;
    }
  }

  lemma {:induction false} KekCountsAppend(a: seq<Reaction>, b: seq<Reaction>)
    ensures KekCounts(a + b) == KekCounts(a) + KekCounts(b)
  {
    if a != [] {
      var head := if IsKek(a[0].emoji) then [a[0].count] else [];
      assert (a + b)[0] == a[0];
      assert (a + b)[1..] == a[1..] + b;
      assert KekCounts(a + b) == head + KekCounts(a[1..] + b);
      KekCountsAppend(a[1..], b);
      assert head + (KekCounts(a[1..]) + KekCounts(b)) == (head + KekCounts(a[1..])) + KekCounts(b);
    } else {
      assert a + b == b;
    }
  }

  /** The score of a concatenation is the sum of the scores of its parts. */
  lemma CalcKeksAppend(a: seq<Reaction>, b: seq<Reaction>)
    ensures CalcKeks(a + b) == CalcKeks(a) + CalcKeks(b)
  {
    KekCountsAppend(a, b);
    SumAppend(KekCounts(a), KekCounts(b));
  }

  /** A single reaction contributes its count if it is a kek and nothing otherwise;
      no reactions score 0. With CalcKeksAppend this fixes CalcKeks on every list. */
  lemma CalcKeksUnits(r: Reaction)
    ensures CalcKeks([]) == 0
    ensures CalcKeks([r]) == if IsKek(r.emoji) then r.count else 0
  {
    assert [r][1..] == [];
  }

  /** Appending a reaction that is not a kek leaves the score unchanged. */
  lemma CalcKeksAppendNonKek(rs: seq<Reaction>, r: Reaction)
    requires !IsKek(r.emoji)
    ensures CalcKeks(rs + [r]) == CalcKeks(rs)
  {
    CalcKeksAppend(rs, [r]);
    CalcKeksUnits(r);
  }

  /** The score is positive exactly when some kek reaction has a positive count. */
  lemma {:induction false} CalcKeksPositive(rs: seq<Reaction>)
    ensures CalcKeks(rs) > 0 <==>
      exists i :: 0 <= i < |rs| && IsKek(rs[i].emoji) && rs[i].count > 0
  {
    if rs != [] {
      CalcKeksPositive(rs[1..]);
      assert rs == [rs[0]] + rs[1..];
      CalcKeksAppend([rs[0]], rs[1..]);
      CalcKeksUnits(rs[0]);
      if exists i :: 0 <= i < |rs| && IsKek(rs[i].emoji) && rs[i].count > 0 {
        var i :| 0 <= i < |rs| && IsKek(rs[i].emoji) && rs[i].count > 0;
        if i > 0 {
          assert rs[1..][i - 1] == rs[i];
        }
      }
      if exists i :: 0 <= i < |rs[1..]| && IsKek(rs[1..][i].emoji) && rs[1..][i].count > 0 {
        var i :| 0 <= i < |rs[1..]| && IsKek(rs[1..][i].emoji) && rs[1..][i].count > 0;
        assert rs[i + 1] == rs[1..][i];
      }
    }
  }

  /** Reactions are an unordered collection: reordering them does not change the score. */
  lemma {:induction false} CalcKeksPermutation(a: seq<Reaction>, b: seq<Reaction>)
    requires multiset(a) == multiset(b)
    ensures CalcKeks(a) == CalcKeks(b)
    decreases |a|
  {
    if a == [] {
      assert |b| == |multiset(b)| == 0;
    } else {
      var x := a[0];
      assert x in multiset(b);
      var j :| 0 <= j < |b| && b[j] == x;
      var rest := b[..j] + b[j + 1..];
      assert b == b[..j] + [x] + b[j + 1..];
      assert a == [x] + a[1..];
      assert multiset(b) == multiset(b[..j]) + multiset{x} + multiset(b[j + 1..]);
      assert multiset(rest) == multiset(b[..j]) + multiset(b[j + 1..]);
      assert multiset(a) == multiset{x} + multiset(a[1..]);
      assert multiset(a[1..]) == multiset(a) - multiset{x};
      assert multiset(rest) == multiset(b) - multiset{x};
      CalcKeksPermutation(a[1..], rest);
      CalcKeksAppend([x], a[1..]);
      CalcKeksAppend(b[..j] + [x], b[j + 1..]);
      CalcKeksAppend(b[..j], [x]);
      CalcKeksAppend(b[..j], b[j + 1..]);
    }
  }

  /** The worked example: Kekw x3, sad x5 and keklul x1 score 4. */
  lemma CalcKeksExample()
    ensures CalcKeks([Reaction(Named("Kekw"), 3), Reaction(Plain("sad"), 5),
                      Reaction(Named("keklul"), 1)]) == 4
  {
    var rs := [Reaction(Named("Kekw"), 3), Reaction(Plain("sad"), 5), Reaction(Named("keklul"), 1)];
    IsKekCaseInsensitive(rs[0].emoji);
    IsKekCaseInsensitive(rs[1].emoji);
    IsKekCaseInsensitive(rs[2].emoji);
    assert rs[1..][1..] == [rs[2]];
  }
}
