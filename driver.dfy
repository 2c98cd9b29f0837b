/** The arithmetic of sliding-wc.py's `main` around the counter: the window
    sizes are raised to at least 1, a step is reported only while the line
    budget lasts and on the view-window cadence, and each reported line
    starts its range at the oldest word of the window. */
module Driver {
  import opened Words
  import opened Ranking
  import opened StopWordCounter

  /** `max(1, n)` on a size given on the command line. */
  function AtLeastOne(n: int): (r: int)
    ensures r >= 1 && r >= n && (r == n || r == 1)
  {
    if n >= 1 then n else 1
  }

  /** With the clamped window size the deque is never empty once a word has
      arrived, never longer than the window, and holds the last
      min(n, window_size) words in arrival order. */
  lemma ClampedWindow(windowSize: int, excludeWords: set<Word>, lower: Word -> Word, history: seq<Word>)
    ensures var ws := AtLeastOne(windowSize);
            var cache := Run(Config(ws, excludeWords, lower), history).cache;
            && ws >= 1 && (windowSize >= 1 ==> ws == windowSize)
            && |cache| == (if |history| < ws then |history| else ws)
            && cache == history[|history| - |cache|..]
            && (|history| > 0 ==> |cache| >= 1)
  {
    RunWindow(Config(AtLeastOne(windowSize), excludeWords, lower), history);
  }

  /** `max(current_count - window_size + 1, 0)` */
  function ViewStart(current: nat, windowSize: int): (r: nat)
    ensures r >= current - windowSize + 1 && (r == 0 || r == current - windowSize + 1)
    ensures windowSize >= 1 ==> r <= current
  {
    if current - windowSize + 1 > 0 then current - windowSize + 1 else 0
  }

  /** `current_count < numlines` (the loop breaks otherwise) and
      `(current_count + 1) % view_window_size == 0` (it continues
      otherwise), with the clamped view-window size. */
  predicate Reported(current: nat, numlines: int, viewWindowSize: int)
  {
    current < numlines && (current + 1) % AtLeastOne(viewWindowSize) == 0
  }

  /** The fields of one output line: `[view_start-seq = word*]: counts;
      lru_word (dropped)`, with the ranked pairs before they are joined. */
  datatype Line = Line(viewStart: nat, step: nat, word: Word, isStopWord: bool, counts: seq<Pair>, lruWord: Word)

  /** What the generator yields for each of `words`, in order: the report
      of each step on the state left by the words before it. */
  function Yields(cfg: Config, words: seq<Word>): (r: seq<Snapshot>)
    ensures |r| == |words|
    decreases |words|
  {
    if words == [] then []
    else
      var h := words[..|words| - 1];
      Yields(cfg, h) + [Report(cfg, Run(cfg, h), words[|words| - 1])]
  }

  lemma YieldsSnoc(cfg: Config, history: seq<Word>, word: Word)
    ensures Yields(cfg, history + [word]) == Yields(cfg, history) + [Report(cfg, Run(cfg, history), word)]
  {
    assert (history + [word])[..|history|] == history;
  }

  /** The i-th yield reports step i on the state left by the first i
      words. */
  lemma {:induction false} YieldAt(cfg: Config, words: seq<Word>, i: nat)
    requires i < |words|
    ensures Yields(cfg, words)[i] == Report(cfg, Run(cfg, words[..i]), words[i])
    decreases |words|
  {
    var h := words[..|words| - 1];
    if i < |h| {
      YieldAt(cfg, h, i);
      assert h[..i] == words[..i];
    }
  }

  /** The yields of a prefix of the input are a prefix of the yields. */
  lemma {:induction false} YieldsPrefix(cfg: Config, words: seq<Word>, k: nat)
    requires k <= |words|
    ensures Yields(cfg, words)[..k] == Yields(cfg, words[..k])
    decreases |words|
  {
    if k == |words| {
      assert words[..k] == words;
    } else {
      var h := words[..|words| - 1];
      var ys := Yields(cfg, words);
      assert ys[..|h|] == Yields(cfg, h);
      assert ys[..k] == Yields(cfg, h)[..k];
      YieldsPrefix(cfg, h, k);
      assert h[..k] == words[..k];
    }
  }

  /** The yield of step c reports c as `seq` (the generator's counter and
      the line counter of `main` agree), the word of that step, the
      stop-word test, the table after the step and the last evicted word.
      With a window of at least 1, [view_start, c] is exactly the positions
      of the words in the deque. */
  lemma YieldShows(cfg: Config, words: seq<Word>, c: nat)
    requires c < |words| && cfg.windowSize >= 1
    ensures var y := Yields(cfg, words)[c];
            var s := Run(cfg, words[..c + 1]);
            && y.step == c && y.word == words[c]
            && y.isStopWord == IsStopWord(cfg, words[c])
            && y.wordCounts == s.wc
            && y.lruWord == LruWord(s.lruItem)
            && ViewStart(c, cfg.windowSize) <= c
            && c + 1 - ViewStart(c, cfg.windowSize) == (if c + 1 < cfg.windowSize then c + 1 else cfg.windowSize)
            && s.cache == words[ViewStart(c, cfg.windowSize)..c + 1]
  {
    YieldAt(cfg, words, c);
    RunWindow(cfg, words[..c]);
    RunWindow(cfg, words[..c + 1]);
    RunPrefix(cfg, words, c + 1);
    assert words[..c + 1][..c] == words[..c];
  }

  /** The line printed at line count `c` for the yield `snap`. */
  function LineOf(c: nat, windowSize: int, snap: Snapshot, top: int): Line
  {
    Line(ViewStart(c, windowSize), snap.step, snap.word, snap.isStopWord, TopCounts(snap.wordCounts, top), snap.lruWord)
  }

  /** The lines `main` prints for the yields `ys`, the i-th yield being
      read at line count i. */
  function Printed(ys: seq<Snapshot>, windowSize: int, numlines: int, viewWindowSize: int, top: int): seq<Line>
    decreases |ys|
  {
    if ys == [] then []
    else
      var c := |ys| - 1;
      Printed(ys[..c], windowSize, numlines, viewWindowSize, top)
        + if Reported(c, numlines, viewWindowSize) then [LineOf(c, windowSize, ys[c], top)] else []
  }

  lemma PrintedSnoc(ys: seq<Snapshot>, snap: Snapshot, windowSize: int, numlines: int, viewWindowSize: int, top: int)
    ensures Printed(ys + [snap], windowSize, numlines, viewWindowSize, top)
         == Printed(ys, windowSize, numlines, viewWindowSize, top)
            + if Reported(|ys|, numlines, viewWindowSize) then [LineOf(|ys|, windowSize, snap, top)] else []
  {
    assert (ys + [snap])[..|ys|] == ys;
  }

  /** The steps among the first `n` that print a line, in order. */
  function ReportedSteps(n: nat, numlines: int, viewWindowSize: int): (r: seq<nat>)
    ensures forall i :: 0 <= i < |r| ==> r[i] < n
  {
    if n == 0 then []
    else ReportedSteps(n - 1, numlines, viewWindowSize) + if Reported(n - 1, numlines, viewWindowSize) then [n - 1] else []
  }

  /** One line is printed per reported step, in step order: the i-th line
      is the line of the i-th reported step. */
  lemma {:induction false} PrintedReportedSteps(ys: seq<Snapshot>, windowSize: int, numlines: int, viewWindowSize: int, top: int)
    ensures var r := Printed(ys, windowSize, numlines, viewWindowSize, top);
            var steps := ReportedSteps(|ys|, numlines, viewWindowSize);
            && |r| == |steps|
            && forall i :: 0 <= i < |r| ==> r[i] == LineOf(steps[i], windowSize, ys[steps[i]], top)
    decreases |ys|
  {
    if ys != [] {
      var c := |ys| - 1;
      var h := ys[..c];
      PrintedReportedSteps(h, windowSize, numlines, viewWindowSize, top);
      var r := Printed(ys, windowSize, numlines, viewWindowSize, top);
      var steps := ReportedSteps(|ys|, numlines, viewWindowSize);
      var prev := ReportedSteps(c, numlines, viewWindowSize);
      forall i | 0 <= i < |prev|
        ensures ys[prev[i]] == h[prev[i]]
      {
      }
    }
  }

  /** Once the line count reaches `numlines` nothing more is printed. */
  lemma {:induction false} PrintedAfterLimit(ys: seq<Snapshot>, k: nat, windowSize: int, numlines: int, viewWindowSize: int, top: int)
    requires numlines <= k <= |ys|
    ensures Printed(ys, windowSize, numlines, viewWindowSize, top) == Printed(ys[..k], windowSize, numlines, viewWindowSize, top)
    decreases |ys|
  {
    if |ys| > k {
      var h := ys[..|ys| - 1];
      PrintedAfterLimit(h, k, windowSize, numlines, viewWindowSize, top);
      assert h[..k] == ys[..k];
    } else {
      assert ys[..k] == ys;
    }
  }

  /** Lines are printed in step order, only for reported steps, and for
      every reported step among the first `n`. */
  lemma {:induction false} ReportedStepsCadence(n: nat, numlines: int, viewWindowSize: int)
    ensures var r := ReportedSteps(n, numlines, viewWindowSize);
            && (forall i :: 0 <= i < |r| ==> r[i] < n && Reported(r[i], numlines, viewWindowSize))
            && (forall i, j :: 0 <= i < j < |r| ==> r[i] < r[j])
            && (forall c: nat :: c < n && Reported(c, numlines, viewWindowSize) ==> c in r)
  {
    if n > 0 {
      ReportedStepsCadence(n - 1, numlines, viewWindowSize);
    }
  }

  lemma {:induction false} MulAtLeast(a: int, v: int)
    requires a >= 1 && v >= 1
    ensures a * v >= v
  {
    if a > 1 {
      MulAtLeast(a - 1, v);
      assert a * v == (a - 1) * v + v;
    }
  }

  lemma DivUnique(k: nat, v: nat, q: int, r: int)
    requires v >= 1 && k == q * v + r && 0 <= r < v
    ensures k / v == q && k % v == r
  {
    var q', r' := k / v, k % v;
    assert k == q' * v + r';
    assert (q - q') * v == r' - r;
    if q > q' {
      MulAtLeast(q - q', v);
    } else if q < q' {
      MulAtLeast(q' - q, v);
    }
  }

  /** Taking one more number into account raises `k / v` exactly when the
      number is a multiple of `v`. */
  lemma DivStep(k: nat, v: nat)
    requires k >= 1 && v >= 1
    ensures k / v == (k - 1) / v + (if k % v == 0 then 1 else 0)
  {
    var q, r := (k - 1) / v, (k - 1) % v;
    assert k - 1 == q * v + r && 0 <= r < v;
    if r == v - 1 {
      assert k == (q + 1) * v + 0;
      DivUnique(k, v, q + 1, 0);
    } else {
      assert k == q * v + (r + 1);
      DivUnique(k, v, q, r + 1);
    }
  }

  /** With n words and a budget of `numlines` lines, a line is printed for
      every `view_window_size`-th step of the first min(n, numlines):
      min(n, numlines) / view_window_size lines. */
  lemma {:induction false} ReportedStepsCount(n: nat, numlines: int, viewWindowSize: int)
    ensures var m := if numlines < 0 then 0 else if n < numlines then n else numlines;
            |ReportedSteps(n, numlines, viewWindowSize)| == m / AtLeastOne(viewWindowSize)
  {
    var v := AtLeastOne(viewWindowSize);
    if n > 0 {
      ReportedStepsCount(n - 1, numlines, viewWindowSize);
      if n - 1 < numlines {
        DivStep(n, v);
      }
    }
  }

  lemma PrefixGrows(words: seq<Word>, c: nat)
    requires c < |words|
    ensures words[..c] + [words[c]] == words[..c + 1]
  {
  }

  /** One iteration of the loop of `main`: the generator consumes
      `words[c]` and yields; the loop stops once the line count reaches
      `numlines`, and otherwise prints the line of a reported step. */
  method PrintStep(counter: SlidingCounter, words: seq<Word>, c: nat, numlines: int, viewWindowSize: int, top: int,
                   lines: seq<Line>) returns (lines': seq<Line>, stop: bool)
    requires c < |words| && counter.Valid() && counter.history == words[..c]
    requires lines == Printed(Yields(counter.cfg, words[..c]), counter.cfg.windowSize, numlines, viewWindowSize, top)
    modifies counter
    ensures counter.Valid() && counter.history == words[..c + 1]
    ensures stop <==> c >= numlines
    ensures lines' == Printed(Yields(counter.cfg, words[..c + 1]), counter.cfg.windowSize, numlines, viewWindowSize, top)
  {
    var result := counter.Advance(words[c]);
    PrefixGrows(words, c);
    YieldsSnoc(counter.cfg, words[..c], words[c]);
    PrintedSnoc(Yields(counter.cfg, words[..c]), result, counter.cfg.windowSize, numlines, viewWindowSize, top);
    lines' := lines;
    stop := c >= numlines;
    if stop || (c + 1) % AtLeastOne(viewWindowSize) != 0 {
      return;
    }
    var viewStart := ViewStart(c, counter.cfg.windowSize);
    lines' := lines + [Line(viewStart, result.step, result.word, result.isStopWord, TopCounts(result.wordCounts, top), result.lruWord)];
  }

  /** The loop of `main`: run the counter over `words` with the clamped
      window size and collect the lines it prints. */
  method PrintedLines(words: seq<Word>, windowSize: int, viewWindowSize: int, numlines: int, top: int,
                      excludeWords: set<Word>, lower: Word -> Word) returns (lines: seq<Line>)
    ensures var cfg := Config(AtLeastOne(windowSize), excludeWords, lower);
            lines == Printed(Yields(cfg, words), cfg.windowSize, numlines, viewWindowSize, top)
  {
    var counter := new SlidingCounter(AtLeastOne(windowSize), excludeWords, lower);
    lines := [];
    var c := 0;
    while c < |words|
      invariant c <= |words|
      invariant counter.Valid() && counter.history == words[..c]
      invariant counter.cfg == Config(AtLeastOne(windowSize), excludeWords, lower)
      invariant lines == Printed(Yields(counter.cfg, words[..c]), counter.cfg.windowSize, numlines, viewWindowSize, top)
      decreases |words| - c
    {
      var stop;
      lines, stop := PrintStep(counter, words, c, numlines, viewWindowSize, top, lines);
      if stop {
        YieldsPrefix(counter.cfg, words, c + 1);
        PrintedAfterLimit(Yields(counter.cfg, words), c + 1, counter.cfg.windowSize, numlines, viewWindowSize, top);
        return;
      }
      c := c + 1;
    }
    assert words[..c] == words;
  }
}
