/** The basic sliding-window word counter: `wc_on_generator` of
    wc_sliding.py and of wc_window.py. The two loops are the same: each word
    is counted and appended to the deque, and once the deque is longer than
    the window its oldest word is popped and its count lowered. Keys are
    never deleted. wc_sliding.py also yields the step number, which
    `WordCounter.Advance` returns; wc_window.py yields the table alone. */
module BasicCounter {
  import opened Words

  /** Reference definition of the table after `history`: every word seen so
      far, mapped to its number of occurrences in the current window. */
  function WindowCounts(history: seq<Word>, windowSize: int): map<Word, int>
  {
    map w | w in Seen(history) :: Occurrences(Recent(history, windowSize), w)
  }

  /** One pass of the loop body on the table `wc`, the deque being `cache`
      before `word` is appended. The admitted word's count rises by one and
      the evicted word's falls by one (from a default of 1); when they are
      the same word its count is as before. No other entry changes. */
  function Update(wc: map<Word, int>, cache: seq<Word>, word: Word, windowSize: int): (r: map<Word, int>)
    ensures forall w :: w in r <==> w in wc || w == word || Evicted(cache, word, windowSize) == Some(w)
    ensures forall w :: w in wc && w != word && Evicted(cache, word, windowSize) != Some(w) ==> r[w] == wc[w]
    ensures Evicted(cache, word, windowSize) != Some(word) ==> r[word] == Get(wc, word, 0) + 1
    ensures Evicted(cache, word, windowSize) == Some(word) ==> r[word] == Get(wc, word, 0)
    ensures var e := Evicted(cache, word, windowSize); e.Some? && e.value != word ==> r[e.value] == Get(wc, e.value, 1) - 1
  {
    var counted := wc[word := Get(wc, word, 0) + 1];
    match Evicted(cache, word, windowSize)
    case None => counted
    case Some(lru) => counted[lru := Get(counted, lru, 1) - 1]
  }

  /** The word popped from the deque was counted when it was admitted, so
      `wc.get(lru_item, 1)` always finds it and the default 1 is never used;
      its count stays non-negative. */
  lemma EvictedWasCounted(history: seq<Word>, word: Word, windowSize: int)
    ensures var e := Evicted(Recent(history, windowSize), word, windowSize);
            e.Some? ==> e.value in Seen(history + [word]) && Occurrences(Recent(history, windowSize) + [word], e.value) >= 1
  {
    var c := Recent(history, windowSize) + [word];
    if |c| > windowSize {
      assert c[0] in c;
      assert c[0] in history + [word];
    }
  }

  /** The loop body keeps the table equal to the reference definition: the
      key set is every word seen so far and each count is the number of
      occurrences in the window. */
  lemma WindowCountsStep(history: seq<Word>, word: Word, windowSize: int)
    ensures WindowCounts(history + [word], windowSize)
         == Update(WindowCounts(history, windowSize), Recent(history, windowSize), word, windowSize)
  {
    var cache := Recent(history, windowSize);
    var before := WindowCounts(history, windowSize);
    var after := WindowCounts(history + [word], windowSize);
    var upd := Update(before, cache, word, windowSize);
    KeysAfterStep(history, word, windowSize);
    forall w | w in after
      ensures after[w] == upd[w]
    {
      EntryAfterStep(history, word, windowSize, w);
    }
  }

  /** The key set after a step is the key set before it plus the admitted
      word. */
  lemma KeysAfterStep(history: seq<Word>, word: Word, windowSize: int)
    ensures WindowCounts(history + [word], windowSize).Keys
         == Update(WindowCounts(history, windowSize), Recent(history, windowSize), word, windowSize).Keys
  {
    EvictedWasCounted(history, word, windowSize);
    assert Seen(history + [word]) == Seen(history) + {word};
  }

  lemma EntryAfterStep(history: seq<Word>, word: Word, windowSize: int, w: Word)
    requires w in Seen(history + [word])
    ensures var cache := Recent(history, windowSize);
            var upd := Update(WindowCounts(history, windowSize), cache, word, windowSize);
            w in upd && WindowCounts(history + [word], windowSize)[w] == upd[w]
  {
    var cache := Recent(history, windowSize);
    var before := WindowCounts(history, windowSize);
    var upd := Update(before, cache, word, windowSize);
    var e := Evicted(cache, word, windowSize);
    EvictedWasCounted(history, word, windowSize);
    CountAfterStep(history, word, windowSize, w);
    assert w == word || w in Seen(history) by {
      assert w in history + [word];
    }
    if w != word && e != Some(w) {
      assert upd[w] == before[w];
    }
  }

  /** The count of one word after a step: one more if it is the admitted
      word, one fewer if it is the evicted word. */
  lemma CountAfterStep(history: seq<Word>, word: Word, windowSize: int, w: Word)
    ensures var cache := Recent(history, windowSize);
            var e := Evicted(cache, word, windowSize);
            Occurrences(Recent(history + [word], windowSize), w)
              == Occurrences(cache, w) + (if w == word then 1 else 0) - (if e == Some(w) then 1 else 0)
  {
    var cache := Recent(history, windowSize);
    var c := cache + [word];
    RecentStep(history, word, windowSize);
    assert multiset(c) == multiset(cache) + multiset{word};
    if |c| > windowSize {
      assert Evicted(cache, word, windowSize) == Some(c[0]);
      assert c == [c[0]] + c[1..];
      assert multiset(c) == multiset{c[0]} + multiset(c[1..]);
      assert Occurrences(c[1..], w) == Occurrences(c, w) - (if c[0] == w then 1 else 0);
    } else {
      assert Evicted(cache, word, windowSize) == None;
    }
  }

  /** Sum of `f` over a finite set of words. */
  ghost function SumOver(keys: set<Word>, f: Word -> int): int
    decreases keys
  {
    if keys == {} then 0 else var k :| k in keys; f(k) + SumOver(keys - {k}, f)
  }

  /** The sum does not depend on the order in which keys are taken. */
  lemma {:induction false} SumOverRemove(keys: set<Word>, f: Word -> int, k: Word)
    requires k in keys
    ensures SumOver(keys, f) == f(k) + SumOver(keys - {k}, f)
    decreases keys
  {
    var j :| j in keys && SumOver(keys, f) == f(j) + SumOver(keys - {j}, f);
    if j != k {
      SumOverRemove(keys - {j}, f, k);
      SumOverRemove(keys - {k}, f, j);
      assert keys - {j} - {k} == keys - {k} - {j};
    }
  }

  lemma {:induction false} SumOverExtensional(keys: set<Word>, f: Word -> int, g: Word -> int)
    requires forall k :: k in keys ==> f(k) == g(k)
    ensures SumOver(keys, f) == SumOver(keys, g)
    decreases keys
  {
    if keys != {} {
      var k :| k in keys;
      SumOverRemove(keys, f, k);
      SumOverRemove(keys, g, k);
      SumOverExtensional(keys - {k}, f, g);
    }
  }

  /** Summing the occurrence counts of a sequence over a key set that covers
      it gives the sequence's length. */
  lemma {:induction false} OccurrencesSum(keys: set<Word>, s: seq<Word>)
    requires Seen(s) <= keys
    ensures SumOver(keys, w => Occurrences(s, w)) == |s|
    decreases |s|
  {
    if s == [] {
      if keys != {} {
        SumOverExtensional(keys, w => Occurrences(s, w), w => 0);
        ZeroSum(keys);
      }
    } else {
      var s' := s[..|s| - 1];
      var x := s[|s| - 1];
      assert s == s' + [x];
      assert x in Seen(s);
      var f := w => Occurrences(s, w);
      var f' := w => Occurrences(s', w);
      SumOverRemove(keys, f, x);
      SumOverRemove(keys, f', x);
      SumOverExtensional(keys - {x}, f, f');
      assert Seen(s') <= keys by {
        forall w | w in Seen(s')
          ensures w in keys
        {
          assert w in s;
        }
      }
      OccurrencesSum(keys, s');
    }
  }

  lemma {:induction false} ZeroSum(keys: set<Word>)
    ensures SumOver(keys, w => 0) == 0
    decreases keys
  {
    if keys != {} {
      var k :| k in keys;
      SumOverRemove(keys, w => 0, k);
      ZeroSum(keys - {k});
    }
  }

  /** Sum of all counts in a table. */
  ghost function Total(wc: map<Word, int>): int
  {
    SumOver(wc.Keys, w => if w in wc then wc[w] else 0)
  }

  /** Conservation: the counts of the table add up to the number of words in
      the window. */
  lemma CountsSumToWindowLength(history: seq<Word>, windowSize: int)
    ensures Total(WindowCounts(history, windowSize)) == |Recent(history, windowSize)|
  {
    var wc := WindowCounts(history, windowSize);
    var cache := Recent(history, windowSize);
    assert Seen(cache) <= wc.Keys by {
      forall w | w in Seen(cache)
        ensures w in Seen(history)
      {
        assert w in cache;
      }
    }
    SumOverExtensional(wc.Keys, w => if w in wc then wc[w] else 0, w => Occurrences(cache, w));
    OccurrencesSum(wc.Keys, cache);
  }

  /** One pass of the loop body on the table and the deque: count `word`,
      append it, and once the deque is longer than the window pop its
      oldest word and lower that word's count. */
  method Count(wc: map<Word, int>, cache: seq<Word>, word: Word, windowSize: int) returns (wc': map<Word, int>, cache': seq<Word>)
    ensures wc' == Update(wc, cache, word, windowSize)
    ensures var c := cache + [word]; cache' == if |c| > windowSize then c[1..] else c
  {
    wc' := wc[word := Get(wc, word, 0) + 1];
    cache' := cache + [word];
    if |cache'| > windowSize {
      var lru := cache'[0];
      cache' := cache'[1..];
      wc' := wc'[lru := Get(wc', lru, 1) - 1];
    }
  }

  /** The generator's state: the deque, the table and the step counter
      (`itertools.count`). `history` is every word fed so far. */
  class WordCounter {
    const windowSize: int
    var cache: seq<Word>
    var wc: map<Word, int>
    var steps: nat
    ghost var history: seq<Word>

    ghost predicate Valid()
      reads this
    {
      && cache == Recent(history, windowSize)
      && wc == WindowCounts(history, windowSize)
      && steps == |history|
    }

    constructor (windowSize: int)
      ensures Valid() && this.windowSize == windowSize
      ensures history == [] && cache == [] && wc == map[] && steps == 0
    {
      this.windowSize := windowSize;
      cache := [];
      wc := map[];
      steps := 0;
      history := [];
    }

    /** One iteration of the generator's loop: admit `word`, evict the
        oldest word once the deque is longer than the window, and yield the
        step number and the table. */
    method Advance(word: Word) returns (step: nat, counts: map<Word, int>)
      requires Valid()
      modifies this
      ensures Valid() && history == old(history) + [word]
      ensures wc == Update(old(wc), old(cache), word, windowSize)
      ensures step == old(steps) && counts == wc
      ensures forall w :: w in counts ==> counts[w] >= 0
      ensures Total(counts) == |cache| <= Capacity(windowSize)
    {
      ghost var h := history;
      wc, cache := Count(wc, cache, word, windowSize);
      step := steps;
      steps := steps + 1;
      history := history + [word];
      counts := wc;
      RecentStep(h, word, windowSize);
      WindowCountsStep(h, word, windowSize);
      CountsSumToWindowLength(history, windowSize);
      RecentLength(history, windowSize);
      assert |cache| <= Capacity(windowSize);
    }
  }
}
