/** Ranking of a word-count table: `get_top_counts` (sliding-wc.py and
    wc_sliding.py) and `show_counts` (wc_window.py) build the list of
    `(count, word)` pairs, sort it with `reverse=True` and keep its first
    `top` entries. The three functions are the same; the joined output
    string is presentation and is not modelled. */
module Ranking {
  import opened Words

  /** A `(count, word)` tuple as the list comprehension builds it. */
  type Pair = (int, Word)

  /** Python's `<` on `str`: lexicographic by code point, a proper prefix
      coming first. */
  predicate StrLess(a: string, b: string)
  {
    |b| > 0 && (|a| == 0 || a[0] < b[0] || (a[0] == b[0] && StrLess(a[1..], b[1..])))
  }

  lemma {:induction false} StrLessIrreflexive(a: string)
    ensures !StrLess(a, a)
  {
    if |a| > 0 {
      StrLessIrreflexive(a[1..]);
    }
  }

  lemma {:induction false} StrLessTransitive(a: string, b: string, c: string)
    requires StrLess(a, b) && StrLess(b, c)
    ensures StrLess(a, c)
  {
    if |a| > 0 && a[0] == b[0] && b[0] == c[0] {
      StrLessTransitive(a[1..], b[1..], c[1..]);
    }
  }

  /** Any two different strings are ordered one way or the other. */
  lemma {:induction false} StrLessTotal(a: string, b: string)
    ensures a == b || StrLess(a, b) || StrLess(b, a)
  {
    if |a| > 0 && |b| > 0 && a[0] == b[0] {
      StrLessTotal(a[1..], b[1..]);
      if a[1..] == b[1..] {
        assert a == [a[0]] + a[1..] && b == [b[0]] + b[1..];
      }
    }
  }

  /** Python's `<` on `(count, word)` tuples: by count, then by word. */
  predicate PairLess(p: Pair, q: Pair)
  {
    p.0 < q.0 || (p.0 == q.0 && StrLess(p.1, q.1))
  }

  lemma PairLessIsStrictOrder(p: Pair, q: Pair, r: Pair)
    ensures !PairLess(p, p)
    ensures PairLess(p, q) && PairLess(q, r) ==> PairLess(p, r)
    ensures PairLess(p, q) ==> !PairLess(q, p)
    ensures p == q || PairLess(p, q) || PairLess(q, p)
  {
    StrLessIrreflexive(p.1);
    StrLessTotal(p.1, q.1);
    if PairLess(p, q) && PairLess(q, r) && p.0 == q.0 == r.0 {
      StrLessTransitive(p.1, q.1, r.1);
    }
    if PairLess(p, q) && PairLess(q, p) {
      StrLessTransitive(p.1, q.1, p.1);
    }
  }

  /** The entry of `w` in the table, as the comprehension pairs it. */
  function Entry(wc: map<Word, int>, w: Word): Pair
    requires w in wc
  {
    (wc[w], w)
  }

  /** Strictly decreasing in the tuple order, as a reverse sort leaves a
      list of distinct tuples. */
  ghost predicate Descending(s: seq<Pair>)
  {
    forall i, j :: 0 <= i < j < |s| ==> PairLess(s[j], s[i])
  }

  /** `r` lists every entry of `wc`, and nothing else, in descending order:
      what `sorted([(wc[w], w) for w in wc], reverse=True)` returns. */
  ghost predicate IsRanking(wc: map<Word, int>, r: seq<Pair>)
  {
    && Descending(r)
    && (forall i :: 0 <= i < |r| ==> r[i].1 in wc && r[i].0 == wc[r[i].1])
    && (forall w :: w in wc ==> exists i :: 0 <= i < |r| && r[i].1 == w)
  }

  /** `w` holds the greatest entry of `wc`. */
  predicate IsTop(wc: map<Word, int>, w: Word)
  {
    w in wc && forall v :: v in wc && v != w ==> PairLess(Entry(wc, v), Entry(wc, w))
  }

  /** Removing a key leaves the other entries as they were. */
  lemma EntriesOfRest(wc: map<Word, int>, w: Word)
    ensures (wc - {w}).Keys == wc.Keys - {w}
    ensures forall x :: x in wc - {w} ==> Entry(wc - {w}, x) == Entry(wc, x)
  {
  }

  lemma {:induction false} TopExists(wc: map<Word, int>)
    requires wc != map[]
    ensures exists w :: IsTop(wc, w)
    decreases |wc|
  {
    var v :| v in wc;
    var rest := wc - {v};
    EntriesOfRest(wc, v);
    if rest == map[] {
      assert forall x :: x in wc ==> x == v || x in rest;
      assert IsTop(wc, v);
    } else {
      TopExists(rest);
      var u :| IsTop(rest, u);
      PairLessIsStrictOrder(Entry(wc, v), Entry(wc, u), Entry(wc, u));
      if PairLess(Entry(wc, v), Entry(wc, u)) {
        forall x | x in wc && x != u
          ensures PairLess(Entry(wc, x), Entry(wc, u))
        {
          if x != v {
            assert Entry(rest, x) == Entry(wc, x);
          }
        }
        assert IsTop(wc, u);
      } else {
        assert PairLess(Entry(wc, u), Entry(wc, v));
        forall x | x in wc && x != v
          ensures PairLess(Entry(wc, x), Entry(wc, v))
        {
          if x != u {
            assert Entry(rest, x) == Entry(wc, x);
            PairLessIsStrictOrder(Entry(wc, x), Entry(wc, u), Entry(wc, v));
          }
        }
        assert IsTop(wc, v);
      }
    }
  }

  lemma TopUnique(wc: map<Word, int>)
    ensures forall w, w' :: IsTop(wc, w) && IsTop(wc, w') ==> w == w'
  {
    forall w, w' | IsTop(wc, w) && IsTop(wc, w')
      ensures w == w'
    {
      PairLessIsStrictOrder(Entry(wc, w), Entry(wc, w'), Entry(wc, w));
    }
  }

  /** Putting the greatest entry in front of a ranking of the others
      ranks the whole table. */
  lemma RankingCons(wc: map<Word, int>, w: Word, tail: seq<Pair>)
    requires IsTop(wc, w)
    requires IsRanking(wc - {w}, tail)
    ensures IsRanking(wc, [Entry(wc, w)] + tail)
  {
    EntriesOfRest(wc, w);
    var r := [Entry(wc, w)] + tail;
    forall i, j | 0 <= i < j < |r|
      ensures PairLess(r[j], r[i])
    {
      if i == 0 {
        assert r[j] == tail[j - 1];
      }
    }
    forall v | v in wc
      ensures exists i :: 0 <= i < |r| && r[i].1 == v
    {
      if v == w {
        assert r[0].1 == v;
      } else {
        assert v in wc - {w};
        var i :| 0 <= i < |tail| && tail[i].1 == v;
        assert r[i + 1].1 == v;
      }
    }
  }

  /** The whole table ranked, greatest entry first: a selection sort that
      takes the greatest remaining entry each time. */
  function Ranked(wc: map<Word, int>): (r: seq<Pair>)
    ensures |r| == |wc|
    ensures IsRanking(wc, r)
    decreases |wc|
  {
    if wc == map[] then []
    else
      TopExists(wc);
      TopUnique(wc);
      var w :| IsTop(wc, w);
      EntriesOfRest(wc, w);
      var tail := Ranked(wc - {w});
      RankingCons(wc, w, tail);
      [Entry(wc, w)] + tail
  }

  /** End index of Python's slice `items[0:top]` on a list of length n:
      a negative `top` counts from the end. */
  function SliceEnd(n: nat, top: int): nat
  {
    if top >= 0 then (if top < n then top else n)
    else if n + top > 0 then n + top else 0
  }

  /** The pairs `get_top_counts(wc, top)` formats: the ranked list, cut to
      `items[0:top]` when it is longer than `top`. */
  function TopCounts(wc: map<Word, int>, top: int): (r: seq<Pair>)
    ensures |r| == SliceEnd(|wc|, top)
  {
    var items := Ranked(wc);
    if |items| > top then items[0..SliceEnd(|items|, top)] else items
  }

  /** `get_top_counts` returns min(top, |wc|) pairs for a non-negative
      `top`, each the entry `(wc[w], w)` of a key, without repetition and
      in descending (count, word) order, and every entry it leaves out
      ranks below every entry it returns. */
  lemma TopCountsRanks(wc: map<Word, int>, top: int)
    ensures var r := TopCounts(wc, top);
            && (top >= 0 ==> |r| == if top < |wc| then top else |wc|)
            && Descending(r)
            && (forall i :: 0 <= i < |r| ==> r[i].1 in wc && r[i] == Entry(wc, r[i].1))
            && (forall w, i :: w in wc && 0 <= i < |r| && Entry(wc, w) !in r ==> PairLess(Entry(wc, w), r[i]))
  {
    var items := Ranked(wc);
    var out := TopCounts(wc, top);
    assert out == items[..|out|];
    forall w, i | w in wc && 0 <= i < |out| && Entry(wc, w) !in out
      ensures PairLess(Entry(wc, w), out[i])
    {
      var j :| 0 <= j < |items| && items[j].1 == w;
      assert items[j] == Entry(wc, w);
      assert j >= |out|;
    }
  }

  /** A ranking of a non-empty table starts with its greatest entry. */
  lemma RankingHead(wc: map<Word, int>, r: seq<Pair>)
    requires IsRanking(wc, r) && wc != map[]
    ensures |r| > 0 && r[0] == Entry(wc, r[0].1) && IsTop(wc, r[0].1)
  {
    var v :| v in wc;
    var k :| 0 <= k < |r| && r[k].1 == v;
    var w := r[0].1;
    forall u | u in wc && u != w
      ensures PairLess(Entry(wc, u), Entry(wc, w))
    {
      var i :| 0 <= i < |r| && r[i].1 == u;
      assert r[i] == Entry(wc, u);
    }
  }

  /** Behind its head, a ranking ranks the rest of the table. */
  lemma RankingTail(wc: map<Word, int>, r: seq<Pair>)
    requires IsRanking(wc, r) && |r| > 0
    ensures IsRanking(wc - {r[0].1}, r[1..])
  {
    var w := r[0].1;
    var t := r[1..];
    EntriesOfRest(wc, w);
    forall i | 0 <= i < |t|
      ensures t[i].1 in wc - {w} && t[i].0 == (wc - {w})[t[i].1]
    {
      assert PairLess(r[i + 1], r[0]);
      PairLessIsStrictOrder(r[i + 1], r[0], r[0]);
    }
    forall v | v in wc - {w}
      ensures exists i :: 0 <= i < |t| && t[i].1 == v
    {
      var i :| 0 <= i < |r| && r[i].1 == v;
      assert t[i - 1].1 == v;
    }
  }

  lemma SameHeadAndTail(r: seq<Pair>, q: seq<Pair>)
    requires |r| > 0 && |q| > 0 && r[0] == q[0] && r[1..] == q[1..]
    ensures r == q
  {
    assert r == [r[0]] + r[1..];
    assert q == [q[0]] + q[1..];
  }

  /** The ranking is unique: every list that ranks the table is `Ranked`,
      so the result does not depend on how the sort is carried out. */
  lemma {:induction false} RankingIsUnique(wc: map<Word, int>, r: seq<Pair>)
    requires IsRanking(wc, r)
    ensures r == Ranked(wc)
    decreases |wc|
  {
    var q := Ranked(wc);
    if r == [] {
      assert forall w :: w !in wc;
      assert wc == map[];
    } else {
      assert r[0].1 in wc;
      RankingHead(wc, r);
      RankingHead(wc, q);
      TopUnique(wc);
      assert r[0] == q[0];
      RankingTail(wc, r);
      RankingTail(wc, q);
      EntriesOfRest(wc, r[0].1);
      RankingIsUnique(wc - {r[0].1}, r[1..]);
      RankingIsUnique(wc - {r[0].1}, q[1..]);
      SameHeadAndTail(r, q);
    }
  }

  /** Ties on the count are broken by the word, in descending order:
      {"a": 3, "b": 3, "c": 1} with top 2 gives [(3, "b"), (3, "a")]. */
  lemma TieBreakExample()
    ensures TopCounts(map["a" := 3, "b" := 3, "c" := 1], 2) == [(3, "b"), (3, "a")]
  {
    var wc := map["a" := 3, "b" := 3, "c" := 1];
    var r := [(3, "b"), (3, "a"), (1, "c")];
    assert StrLess("a", "b");
    assert IsRanking(wc, r) by {
      assert r[0].1 == "b" && r[1].1 == "a" && r[2].1 == "c";
    }
    RankingIsUnique(wc, r);
  }
}
