/** The word counter of sliding-wc.py (`wc_on_generator`): like the basic
    counter, but a word whose lower-cased form is a stop word takes a window
    slot without being counted, every step reports the last evicted word,
    and the evicted word's entry is deleted or overwritten as the code at
    sliding-wc.py:57-59 does it. That code deletes the entry when the
    decremented count is positive and stores it otherwise, the reverse of
    what the code appears to intend (keep positive counts, drop the rest);
    `Step` models it as written and `FixedStep` as intended. */
module StopWordCounter {
  import opened Words

  /** The generator's arguments: the window size, the stop-word set and the
      case folding `str.lower` applied to a word before the lookup. */
  datatype Config = Config(windowSize: int, excludeWords: set<Word>, lower: Word -> Word)

  /** `word.lower() in exclude_words` */
  predicate IsStopWord(cfg: Config, w: Word)
  {
    cfg.lower(w) in cfg.excludeWords
  }

  /** The generator's local state between two yields: the deque, the table,
      the last evicted word (`lru_item`) and the step counter. */
  datatype State = State(cache: seq<Word>, wc: map<Word, int>, lruItem: Option<Word>, steps: nat)

  /** What one yield reports; `wordCounts` is a value snapshot of the table. */
  datatype Snapshot = Snapshot(step: nat, word: Word, isStopWord: bool, wordCounts: map<Word, int>, lruWord: Word)

  /** `"*" if not lru_item else lru_item`: None and the empty string are
      both falsy. */
  function LruWord(item: Option<Word>): Word
  {
    if item.None? || item.value == "" then "*" else item.value
  }

  function Initial(): State
  {
    State([], map[], None, 0)
  }

  /** Counting the admitted word unless it is a stop word. */
  function Admit(cfg: Config, wc: map<Word, int>, word: Word): map<Word, int>
  {
    if IsStopWord(cfg, word) then wc else wc[word := Get(wc, word, 0) + 1]
  }

  /** A stop word leaves the table as it is; any other word gets an entry
      one higher than before (a new entry at 1); no other entry changes. */
  lemma AdmitCounts(cfg: Config, wc: map<Word, int>, word: Word)
    ensures var r := Admit(cfg, wc, word);
            && (IsStopWord(cfg, word) ==> r == wc)
            && (!IsStopWord(cfg, word) ==> r.Keys == wc.Keys + {word} && r[word] == Get(wc, word, 0) + 1)
            && (forall w :: w in wc && w != word ==> r[w] == wc[w])
  {
  }

  /** sliding-wc.py:57-59 as written: store the decremented count, then
      delete the entry if that count is positive. */
  function Evict(wc: map<Word, int>, lru: Word): map<Word, int>
  {
    var c := Get(wc, lru, 1) - 1;
    var stored := wc[lru := c];
    if c > 0 then stored - {lru} else stored
  }

  /** The evicted word ends up absent or at a count of at most 0, and is
      deleted exactly when the decremented count is positive; no other
      entry changes. */
  lemma EvictAsWritten(wc: map<Word, int>, lru: Word)
    ensures var r := Evict(wc, lru);
            && (lru !in r <==> Get(wc, lru, 1) - 1 > 0)
            && (lru in r ==> r[lru] == Get(wc, lru, 1) - 1 <= 0)
            && (forall w :: w != lru ==> (w in r <==> w in wc))
            && (forall w :: w in r && w != lru ==> r[w] == wc[w])
  {
  }

  /** One iteration of the loop: count, append, and evict once the deque is
      longer than the window. */
  function Step(cfg: Config, s: State, word: Word): State
  {
    var wc := Admit(cfg, s.wc, word);
    var cache := s.cache + [word];
    match Evicted(s.cache, word, cfg.windowSize)
    case None => State(cache, wc, s.lruItem, s.steps + 1)
    case Some(lru) => State(cache[1..], Evict(wc, lru), Some(lru), s.steps + 1)
  }

  /** The state after the generator has consumed `history`. */
  function Run(cfg: Config, history: seq<Word>): State
    decreases |history|
  {
    if history == [] then Initial()
    else Step(cfg, Run(cfg, history[..|history| - 1]), history[|history| - 1])
  }

  lemma RunPrefix(cfg: Config, words: seq<Word>, k: nat)
    requires 0 < k <= |words|
    ensures Run(cfg, words[..k]) == Step(cfg, Run(cfg, words[..k - 1]), words[k - 1])
  {
    assert words[..k][..k - 1] == words[..k - 1];
  }

  lemma RunSnoc(cfg: Config, history: seq<Word>, word: Word)
    ensures Run(cfg, history + [word]) == Step(cfg, Run(cfg, history), word)
  {
    assert (history + [word])[..|history|] == history;
  }

  /** What the yield after `s` and `word` reports. */
  function Report(cfg: Config, s: State, word: Word): Snapshot
  {
    var s' := Step(cfg, s, word);
    Snapshot(s.steps, word, IsStopWord(cfg, word), s'.wc, LruWord(s'.lruItem))
  }

  /** The counted occurrences of `w` in a window: none for a stop word. */
  function Counted(cfg: Config, cache: seq<Word>, w: Word): nat
  {
    if IsStopWord(cfg, w) then 0 else Occurrences(cache, w)
  }

  /** A step appends the word to the deque, pops the oldest word once the
      deque is longer than the window, and advances the step counter. */
  lemma StepWindow(cfg: Config, s: State, word: Word)
    ensures var c := s.cache + [word];
            && Step(cfg, s, word).cache == (if |c| > cfg.windowSize then c[1..] else c)
            && Step(cfg, s, word).steps == s.steps + 1
  {
  }

  /** A step that evicts records the evicted word as `lru_item`; otherwise
      `lru_item` keeps its value. */
  lemma StepLastEvicted(cfg: Config, s: State, word: Word)
    ensures var e := Evicted(s.cache, word, cfg.windowSize);
            Step(cfg, s, word).lruItem == if e.Some? then e else s.lruItem
  {
  }

  /** The deque holds the last min(n, max(0, windowSize)) words in arrival
      order, and the step counter has taken one value per word. */
  lemma {:induction false} RunWindow(cfg: Config, history: seq<Word>)
    ensures Run(cfg, history).cache == Recent(history, cfg.windowSize)
    ensures Run(cfg, history).steps == |history|
    decreases |history|
  {
    if history != [] {
      var h := history[..|history| - 1];
      var word := history[|history| - 1];
      assert h + [word] == history;
      RunWindow(cfg, h);
      RecentStep(h, word, cfg.windowSize);
      RunSnoc(cfg, h, word);
      StepWindow(cfg, Run(cfg, h), word);
    }
  }

  /** `lru_item` is None until the first eviction and afterwards the word
      admitted Capacity(windowSize) steps before the latest one: eviction is
      first-in first-out. The reported `lru_word` is "*" before the first
      eviction. */
  lemma {:induction false} RunLastEvicted(cfg: Config, history: seq<Word>)
    ensures var n, k := |history|, Capacity(cfg.windowSize);
            Run(cfg, history).lruItem == if n > k then Some(history[n - 1 - k]) else None
    ensures |history| <= Capacity(cfg.windowSize) ==> LruWord(Run(cfg, history).lruItem) == "*"
    decreases |history|
  {
    if history != [] {
      var h := history[..|history| - 1];
      var word := history[|history| - 1];
      assert h + [word] == history;
      RunSnoc(cfg, h, word);
      StepLastEvicted(cfg, Run(cfg, h), word);
      RunLastEvicted(cfg, h);
      RunWindow(cfg, h);
      EvictionIsFifo(h, word, cfg.windowSize);
    }
  }

  /** Frame: a step changes no entry other than the admitted word's and the
      evicted word's. */
  lemma StepFrame(cfg: Config, s: State, word: Word)
    ensures var s' := Step(cfg, s, word);
            forall w :: w != word && Evicted(s.cache, word, cfg.windowSize) != Some(w) ==>
              (w in s'.wc <==> w in s.wc) && (w in s.wc ==> s'.wc[w] == s.wc[w])
  {
  }

  /** A step that evicts `lru` leaves it absent from the table or at a count
      of at most 0; `is_stop_word` reports exactly the stop-word test, and a
      stop word's entry is never incremented. */
  lemma StepEvictedAndStopWord(cfg: Config, s: State, word: Word)
    ensures var s' := Step(cfg, s, word);
            var e := Evicted(s.cache, word, cfg.windowSize);
            && (e.Some? ==> s'.lruItem == e && (e.value !in s'.wc || s'.wc[e.value] <= 0))
            && Report(cfg, s, word).isStopWord == IsStopWord(cfg, word)
            && (IsStopWord(cfg, word) && e != Some(word) ==>
                  (word in s'.wc <==> word in s.wc) && (word in s.wc ==> s'.wc[word] == s.wc[word]))
  {
  }

  /** The table never over-counts: every entry is at most the number of
      counted occurrences of its word in the window, so a stop word's entry
      is always absent or at most 0. (It may under-count: see
      InvertedDeleteTrace.) */
  lemma {:induction false} RunNeverOverCounts(cfg: Config, history: seq<Word>)
    ensures var s := Run(cfg, history);
            forall w :: w in s.wc ==> s.wc[w] <= Counted(cfg, s.cache, w)
    ensures var s := Run(cfg, history);
            forall w :: w in s.wc && IsStopWord(cfg, w) ==> s.wc[w] <= 0
    decreases |history|
  {
    if history != [] {
      var h := history[..|history| - 1];
      RunNeverOverCounts(cfg, h);
      StepNeverOverCounts(cfg, Run(cfg, h), history[|history| - 1]);
    }
  }

  lemma StepNeverOverCounts(cfg: Config, s: State, word: Word)
    requires forall w :: w in s.wc ==> s.wc[w] <= Counted(cfg, s.cache, w)
    ensures var s' := Step(cfg, s, word);
            forall w :: w in s'.wc ==> s'.wc[w] <= Counted(cfg, s'.cache, w)
  {
    var wc := Admit(cfg, s.wc, word);
    var cache := s.cache + [word];
    assert multiset(cache) == multiset(s.cache) + multiset{word};
    assert forall w :: w in wc ==> wc[w] <= Counted(cfg, cache, w);
    if |cache| > cfg.windowSize {
      var lru := cache[0];
      assert cache == [lru] + cache[1..];
      assert multiset(cache) == multiset{lru} + multiset(cache[1..]);
      var r := Evict(wc, lru);
      forall w | w in r
        ensures r[w] <= Counted(cfg, cache[1..], w)
      {
        if w != lru {
          assert Counted(cfg, cache[1..], w) == Counted(cfg, cache, w);
        }
      }
    }
  }

  /** The first three steps of the trace below: the window fills up. */
  lemma InvertedDeleteFill(cfg: Config)
    requires cfg.windowSize == 3 && cfg.excludeWords == {}
    ensures Step(cfg, Initial(), "x") == State(["x"], map["x" := 1], None, 1)
    ensures Step(cfg, State(["x"], map["x" := 1], None, 1), "y")
         == State(["x", "y"], map["x" := 1, "y" := 1], None, 2)
    ensures Step(cfg, State(["x", "y"], map["x" := 1, "y" := 1], None, 2), "x")
         == State(["x", "y", "x"], map["x" := 2, "y" := 1], None, 3)
  {
  }

  /** The fourth step of the trace below: x is evicted with one x left. */
  lemma InvertedDeleteFourth(cfg: Config)
    requires cfg.windowSize == 3 && cfg.excludeWords == {}
    ensures Step(cfg, State(["x", "y", "x"], map["x" := 2, "y" := 1], None, 3), "z")
         == State(["y", "x", "z"], map["y" := 1, "z" := 1], Some("x"), 4)
  {
    assert ["x", "y", "x", "z"][1..] == ["y", "x", "z"];
  }

  /** The fifth step of the trace below: y is evicted and stored at 0. */
  lemma InvertedDeleteFifth(cfg: Config)
    requires cfg.windowSize == 3 && cfg.excludeWords == {}
    ensures Step(cfg, State(["y", "x", "z"], map["y" := 1, "z" := 1], Some("x"), 4), "x")
         == State(["x", "z", "x"], map["x" := 1, "y" := 0, "z" := 1], Some("y"), 5)
  {
    assert ["y", "x", "z", "x"][1..] == ["x", "z", "x"];
  }

  /** Window 3, words x, y, x, z, x. After the fourth word the entry of x is
      deleted although one x is still in the window; after the fifth, y,
      no longer in the window, is stored with a count of 0. */
  lemma InvertedDeleteTrace(lower: Word -> Word, words: seq<Word>)
    requires words == ["x", "y", "x", "z", "x"]
    ensures var s4 := Run(Config(3, {}, lower), words[..4]);
            && s4.cache == ["y", "x", "z"]
            && Occurrences(s4.cache, "x") == 1
            && "x" !in s4.wc
            && s4.wc == map["y" := 1, "z" := 1]
            && s4.lruItem == Some("x")
    ensures var s5 := Run(Config(3, {}, lower), words);
            && s5.cache == ["x", "z", "x"]
            && s5.wc == map["x" := 1, "y" := 0, "z" := 1]
            && s5.lruItem == Some("y")
  {
    var cfg := Config(3, {}, lower);
    InvertedDeleteFill(cfg);
    InvertedDeleteFourth(cfg);
    InvertedDeleteFifth(cfg);
    assert words[..0] == [];
    RunPrefix(cfg, words, 1);
    RunPrefix(cfg, words, 2);
    RunPrefix(cfg, words, 3);
    RunPrefix(cfg, words, 4);
    RunPrefix(cfg, words, 5);
    assert words[..5] == words;
    assert multiset(["y", "x", "z"])["x"] == 1;
  }

  /** The three steps of the trace below. */
  lemma StopWordSteps(cfg: Config)
    requires cfg.windowSize == 2 && cfg.excludeWords == {"the"}
    requires cfg.lower("the") == "the" && cfg.lower("cat") == "cat"
    ensures Step(cfg, Initial(), "the") == State(["the"], map[], None, 1)
    ensures Step(cfg, State(["the"], map[], None, 1), "the") == State(["the", "the"], map[], None, 2)
    ensures Step(cfg, State(["the", "the"], map[], None, 2), "cat")
         == State(["the", "cat"], map["cat" := 1, "the" := 0], Some("the"), 3)
  {
    assert ["the", "the", "cat"][1..] == ["the", "cat"];
  }

  /** Window 2, stop words {"the"}, words the, the, cat: nothing is counted
      for "the", and its eviction by "cat" stores it with a count of 0. */
  lemma StopWordTrace(lower: Word -> Word, words: seq<Word>)
    requires lower("the") == "the" && lower("cat") == "cat"
    requires words == ["the", "the", "cat"]
    ensures var cfg := Config(2, {"the"}, lower);
            && Run(cfg, words[..1]).wc == map[]
            && Run(cfg, words[..2]).wc == map[]
            && Run(cfg, words).wc == map["cat" := 1, "the" := 0]
            && Run(cfg, words).lruItem == Some("the")
  {
    var cfg := Config(2, {"the"}, lower);
    StopWordSteps(cfg);
    assert words[..0] == [];
    RunPrefix(cfg, words, 1);
    RunPrefix(cfg, words, 2);
    RunPrefix(cfg, words, 3);
    assert words[..3] == words;
  }

  /** Window 1, stop words {"the"}, words the, the, the: the first
      eviction stores "the" at 0 and the second lowers it to -1. */
  lemma StopWordBelowZero(lower: Word -> Word, words: seq<Word>)
    requires lower("the") == "the"
    requires words == ["the", "the", "the"]
    ensures var cfg := Config(1, {"the"}, lower);
            && Run(cfg, words[..2]).wc == map["the" := 0]
            && Run(cfg, words).wc == map["the" := -1]
  {
    var cfg := Config(1, {"the"}, lower);
    assert words[..0] == [];
    RunPrefix(cfg, words, 1);
    RunPrefix(cfg, words, 2);
    RunPrefix(cfg, words, 3);
    assert words[..3] == words;
    assert Run(cfg, words[..1]) == State(["the"], map[], None, 1);
    assert ["the", "the"][1..] == ["the"];
    assert Run(cfg, words[..2]) == State(["the"], map["the" := 0], Some("the"), 2);
  }

  /** The evidently intended eviction: keep a positive decremented count,
      delete the entry otherwise. */
  function FixedEvict(wc: map<Word, int>, lru: Word): (r: map<Word, int>)
    ensures lru in r <==> Get(wc, lru, 1) - 1 > 0
    ensures forall w :: w != lru ==> (w in r <==> w in wc)
    ensures forall w :: w in r && w != lru ==> r[w] == wc[w]
  {
    var c := Get(wc, lru, 1) - 1;
    if c > 0 then wc[lru := c] else wc - {lru}
  }

  function FixedStep(cfg: Config, s: State, word: Word): State
  {
    var wc := Admit(cfg, s.wc, word);
    var cache := s.cache + [word];
    match Evicted(s.cache, word, cfg.windowSize)
    case None => State(cache, wc, s.lruItem, s.steps + 1)
    case Some(lru) => State(cache[1..], FixedEvict(wc, lru), Some(lru), s.steps + 1)
  }

  function FixedRun(cfg: Config, history: seq<Word>): State
    decreases |history|
  {
    if history == [] then Initial()
    else FixedStep(cfg, FixedRun(cfg, history[..|history| - 1]), history[|history| - 1])
  }

  /** The intended table of a window: each word that is not a stop word and
      occurs in it, mapped to its number of occurrences. */
  function CountedTable(cfg: Config, cache: seq<Word>): map<Word, int>
  {
    map w | w in Seen(cache) && !IsStopWord(cfg, w) :: Occurrences(cache, w)
  }

  /** With the corrected eviction the table is exactly the counted
      occurrences in the window, with no entry at 0 or below. */
  lemma {:induction false} FixedRunCountsWindow(cfg: Config, history: seq<Word>)
    ensures FixedRun(cfg, history).cache == Recent(history, cfg.windowSize)
    ensures FixedRun(cfg, history).wc == CountedTable(cfg, Recent(history, cfg.windowSize))
    decreases |history|
  {
    if history != [] {
      var h := history[..|history| - 1];
      var word := history[|history| - 1];
      assert h + [word] == history;
      assert FixedRun(cfg, history) == FixedStep(cfg, FixedRun(cfg, h), word);
      FixedRunCountsWindow(cfg, h);
      RecentStep(h, word, cfg.windowSize);
      FixedStepKeepsTable(cfg, FixedRun(cfg, h), word);
    }
  }

  lemma FixedStepKeepsTable(cfg: Config, s: State, word: Word)
    requires s.wc == CountedTable(cfg, s.cache)
    ensures var s' := FixedStep(cfg, s, word);
            var c := s.cache + [word];
            s'.wc == CountedTable(cfg, if |c| > cfg.windowSize then c[1..] else c)
  {
    var cache := s.cache + [word];
    AdmitKeepsTable(cfg, s.cache, word);
    if |cache| > cfg.windowSize {
      FixedEvictKeepsTable(cfg, cache);
    }
  }

  /** Counting the admitted word keeps the table equal to the counted
      occurrences of the grown window. */
  lemma AdmitKeepsTable(cfg: Config, cache: seq<Word>, word: Word)
    ensures Admit(cfg, CountedTable(cfg, cache), word) == CountedTable(cfg, cache + [word])
  {
    var c := cache + [word];
    var a := Admit(cfg, CountedTable(cfg, cache), word);
    var t := CountedTable(cfg, c);
    assert multiset(c) == multiset(cache) + multiset{word};
    assert Seen(c) == Seen(cache) + {word};
    assert a.Keys == t.Keys;
    forall w | w in t
      ensures a[w] == t[w]
    {
    }
  }

  /** The corrected eviction of the oldest word keeps the table equal to
      the counted occurrences of the shrunk window. */
  lemma FixedEvictKeepsTable(cfg: Config, cache: seq<Word>)
    requires |cache| > 0
    ensures FixedEvict(CountedTable(cfg, cache), cache[0]) == CountedTable(cfg, cache[1..])
  {
    var lru := cache[0];
    var rest := cache[1..];
    var wc := CountedTable(cfg, cache);
    var r := FixedEvict(wc, lru);
    var t := CountedTable(cfg, rest);
    assert cache == [lru] + rest;
    assert multiset(cache) == multiset{lru} + multiset(rest);
    forall w | w in t
      ensures w in r
    {
      assert w in cache;
    }
    forall w | w in r
      ensures w in t && r[w] == t[w]
    {
      assert w in Seen(cache);
      if w != lru {
        assert w in rest;
      } else {
        assert w in multiset(rest);
      }
    }
  }

  /** With the corrected eviction, window 3 and words x, y, x, z, x leave
      {"x": 2, "z": 1}. */
  lemma FixedTrace(lower: Word -> Word, words: seq<Word>)
    requires words == ["x", "y", "x", "z", "x"]
    ensures FixedRun(Config(3, {}, lower), words).wc == map["x" := 2, "z" := 1]
  {
    var cfg := Config(3, {}, lower);
    FixedRunCountsWindow(cfg, words);
    assert Recent(words, 3) == words[2..] == ["x", "z", "x"];
    FixedTraceTable(cfg, ["x", "z", "x"]);
  }

  lemma FixedTraceTable(cfg: Config, cache: seq<Word>)
    requires cfg.excludeWords == {} && cache == ["x", "z", "x"]
    ensures CountedTable(cfg, cache) == map["x" := 2, "z" := 1]
  {
    var t := CountedTable(cfg, cache);
    assert multiset(cache) == multiset{"x", "x", "z"};
    assert forall w :: w in cache <==> w == "x" || w == "z";
    assert t.Keys == {"x", "z"};
  }

  /** One pass of the loop body on the generator's locals. */
  method Consume(cfg: Config, s: State, word: Word) returns (r: State)
    ensures r == Step(cfg, s, word)
  {
    var counts := s.wc;
    if cfg.lower(word) !in cfg.excludeWords {
      counts := counts[word := Get(counts, word, 0) + 1];
    }
    var window := s.cache + [word];
    var lru := s.lruItem;
    if |window| > cfg.windowSize {
      var oldest := window[0];
      window := window[1..];
      var lruCount := Get(counts, oldest, 1) - 1;
      counts := counts[oldest := lruCount];
      if lruCount > 0 {
        counts := counts - {oldest};
      }
      lru := Some(oldest);
    }
    r := State(window, counts, lru, s.steps + 1);
  }

  /** The generator of sliding-wc.py as an object: its configuration, the
      deque, the table, the last evicted word and the step counter.
      `history` is every word consumed so far. */
  class SlidingCounter {
    const cfg: Config
    var cache: seq<Word>
    var wc: map<Word, int>
    var lruItem: Option<Word>
    var steps: nat
    ghost var history: seq<Word>

    ghost function Current(): State
      reads this
    {
      State(cache, wc, lruItem, steps)
    }

    ghost predicate Valid()
      reads this
    {
      Current() == Run(cfg, history)
    }

    constructor (windowSize: int, excludeWords: set<Word>, lower: Word -> Word)
      ensures Valid() && history == []
      ensures cfg == Config(windowSize, excludeWords, lower)
      ensures Current() == Initial()
    {
      cfg := Config(windowSize, excludeWords, lower);
      cache := [];
      wc := map[];
      lruItem := None;
      steps := 0;
      history := [];
    }

    /** One iteration of the generator's loop, returning what it yields. */
    method Advance(word: Word) returns (snap: Snapshot)
      requires Valid()
      modifies this
      ensures Valid() && history == old(history) + [word]
      ensures Current() == Step(cfg, old(Current()), word)
      ensures snap == Report(cfg, old(Current()), word)
      ensures snap.step == |old(history)| && snap.wordCounts == wc
    {
      ghost var h1 := history + [word];
      RunSnoc(cfg, history, word);
      RunWindow(cfg, history);
      var next := Consume(cfg, State(cache, wc, lruItem, steps), word);
      snap := Snapshot(steps, word, cfg.lower(word) in cfg.excludeWords, next.wc, LruWord(next.lruItem));
      cache, wc, lruItem, steps := next.cache, next.wc, next.lruItem, next.steps;
      history := h1;
    }
  }
}
