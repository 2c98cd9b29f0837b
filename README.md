# Sliding-window word count in Dafny

This project models the core of the `wordcount-sliding-python` programs. The
core is a generator that keeps a word-frequency table over the most recent
`window_size` words of a stream, together with the query that ranks that
table and keeps its top `K` entries. The repository contains three versions
of the counter:

- `wc_on_generator` in `wc_window.py` and in `wc_sliding.py`: the basic
  counter. Both loops have the same logic and are modelled once, in module
  `BasicCounter`.
- `wc_on_generator` in `sliding-wc.py`: the stop-word counter, in module
  `StopWordCounter`. A stop word takes a window slot but is not counted. Each
  step also reports the last evicted word.
- `get_top_counts` (`sliding-wc.py`, `wc_sliding.py`) and `show_counts`
  (`wc_window.py`): the ranking, in module `Ranking`. The three functions
  have the same logic.

Module `Driver` models the arithmetic of the `main` loop of `sliding-wc.py`:

- both window sizes are clamped to at least 1;
- the loop stops after `numlines` steps;
- a line is printed every `view_window_size`-th step;
- each line's range starts at `view_start`.

Module `Words` holds what the counters share: the window as a function of
the words seen, FIFO eviction, and Python's `dict.get`.

Each generator is modelled twice:

- as a pure state-transition function with a reference definition of its
  state (`WindowCounts`, `Run`), about which the lemmas are proved;
- as a class whose `Advance` method updates the fields in place, the way
  the loop updates its locals. `Advance` is proved to agree with the
  transition function.

The stop-word counter is modelled as written, including the inverted
deletion of the evicted word's entry (see "Findings"). The evidently
intended version is modelled beside it (`FixedEvict`, `FixedStep`,
`FixedRun`) and proved to keep the table exact.

Behaviour of the code worth knowing:

- In `sliding-wc.py` the evicted entry is deleted when its decremented count
  is positive and stored otherwise (see "Findings"). `SlidingCounter` keeps
  this behaviour.
- The basic counters never delete a key. A word that leaves the window stays
  in the table with count 0.
- A stop word is never counted. When it is evicted, `wc.get(lru_item, 1) - 1`
  stores it at 0 on its first eviction and one lower on each later one, never
  above 0 (`StopWordTrace`, `StopWordBelowZero`, `RunNeverOverCounts`).
- The generators accept any window size. A size of 0 or below keeps an empty
  window and evicts every word at once. Only `main` of `sliding-wc.py`
  clamps the size to 1.
- The empty string is an ordinary word. The only special case is that the
  reported `lru_word` shows `*` for it, because the empty string is falsy.

## Model

| member | source | states |
|---|---|---|
| Words.Recent | wc_sliding.py:47-50 | definition of the deque after n words: the last min(n, max(0, window_size)) of them, oldest first; its properties are RecentLength and RecentStep |
| Words.Evicted | wc_sliding.py:48-49 | `popleft` runs exactly when the deque already held at least `window_size` words (always, for a size of 0 or below), and removes its oldest word (the new word itself when the deque was empty) |
| Words.Get | wc_sliding.py:46-50 | Python's `dict.get(key, default)`: the stored count when the key is present, the default otherwise; used for `wc.get(word, 0)` and `wc.get(lru_item, 1)` here and at sliding-wc.py:53 and 57 |
| Words.RecentLength | wc_sliding.py:47-50 | the deque trimmed by `len > window_size` holds exactly min(n, max(0, window_size)) words |
| Words.RecentStep | wc_sliding.py:47-49 | appending a word and popping the oldest once the deque is too long turns the window of the history into the window of the history plus that word |
| Words.EvictionIsFifo | sliding-wc.py:54-56 | a word evicts exactly when at least `max(0, window_size)` words came before it, and the evicted word is the one that arrived `max(0, window_size)` steps earlier (the new word itself for a size of 0 or below) |
| BasicCounter.WindowCounts | wc_sliding.py:45-51 | reference definition of the table after n words: every word seen so far mapped to its occurrences in the window; WindowCountsStep proves the loop keeps it |
| BasicCounter.Update | wc_sliding.py:46-50 | keys gain the admitted word; the admitted word's count rises by one unless the same word is evicted; the evicted word's count falls by one (from a default of 1); every entry other than these two is unchanged |
| BasicCounter.EvictedWasCounted | wc_window.py:30-31 | the popped word was counted when admitted, so `wc.get(lru_item, 1)` never falls back to its default |
| BasicCounter.WindowCountsStep | wc_sliding.py:45-51 | one loop pass keeps the table equal to the reference table: each word seen so far mapped to its occurrences in the window |
| BasicCounter.KeysAfterStep | wc_sliding.py:46-50 | after a pass the key set is every word seen so far |
| BasicCounter.EntryAfterStep | wc_sliding.py:46-50 | after a pass every entry equals the word's occurrences in the new window |
| BasicCounter.CountAfterStep | wc_window.py:27-31 | a word's occurrences in the window rise by one when it is admitted and fall by one when it is evicted |
| BasicCounter.CountsSumToWindowLength | wc_window.py:26-32 | conservation: the counts of the table add up to the number of words in the window |
| BasicCounter.Count | wc_window.py:27-31 | the imperative loop body computes `Update` on the table and the push/pop on the deque |
| BasicCounter.WordCounter.constructor | wc_sliding.py:42-44 | the generator starts with an empty deque, an empty table and step 0 |
| BasicCounter.WordCounter.Advance | wc_sliding.py:45-51 | yields the step number and the table; the table stays the reference table, with counts non-negative and summing to the window length, which is at most `max(0, window_size)` |
| Ranking.StrLess | sliding-wc.py:72 | Python's `<` on `str`: code point by code point, a proper prefix first; StrLessIrreflexive, StrLessTransitive and StrLessTotal prove it a strict total order |
| Ranking.PairLess | sliding-wc.py:72 | Python's `<` on `(count, word)` tuples: by count, then by word; its order properties are PairLessIsStrictOrder |
| Ranking.PairLessIsStrictOrder | sliding-wc.py:71-72 | Python's tuple order on `(count, word)` is a strict total order, so the reverse sort has one outcome |
| Ranking.Ranked | sliding-wc.py:71-72 | the sorted list holds every entry `(wc[w], w)` of the table exactly once, in descending order |
| Ranking.RankingIsUnique | wc_sliding.py:55-56 | every descending list of the table's entries is `Ranked`: the sorted list does not depend on dictionary order |
| Ranking.SliceEnd | sliding-wc.py:74-75 | the end index of `items[0:top]` on a list of length n: `top` capped at n, or for a negative `top`, n + top floored at 0; TopCounts states the resulting length |
| Ranking.TopCounts | wc_window.py:39-40 | the result has `len(items[0:top])` entries, negative `top` included |
| Ranking.TopCountsRanks | sliding-wc.py:70-77 | for `top >= 0`, min(top, len(wc)) entries, descending, each a real table entry, and every entry left out ranks below every entry kept |
| Ranking.TieBreakExample | sliding-wc.py:72 | equal counts are ordered by descending word: {a: 3, b: 3, c: 1} with top 2 gives (3, b), (3, a) |
| StopWordCounter.IsStopWord | sliding-wc.py:52 | `word.lower() in exclude_words`, with `lower` a parameter; the same test gives `is_stop_word` at sliding-wc.py:65 (StepEvictedAndStopWord) |
| StopWordCounter.Admit | sliding-wc.py:52-53 | definition of counting the admitted word unless its lower-cased form is a stop word; its contract is AdmitCounts |
| StopWordCounter.AdmitCounts | sliding-wc.py:52-53 | a stop word leaves the table unchanged; any other word's count rises by one; no other entry changes |
| StopWordCounter.Evict | sliding-wc.py:57-59 | definition of the eviction as written: store the decremented count, then delete it if positive; its contract is EvictAsWritten |
| StopWordCounter.EvictAsWritten | sliding-wc.py:57-59 | the evicted entry is deleted exactly when its decremented count is positive, and otherwise stored at that count (at most 0) |
| StopWordCounter.Step | sliding-wc.py:51-59 | one loop iteration: Admit, append, and Evict the `popleft` word once the deque is too long; its properties are StepFrame, StepEvictedAndStopWord and StepNeverOverCounts |
| StopWordCounter.Run | sliding-wc.py:46-59 | the generator's state after consuming a history: Step folded over it from the empty state; its properties are RunWindow, RunLastEvicted and RunNeverOverCounts |
| StopWordCounter.LruWord | sliding-wc.py:67 | `"*" if not lru_item else lru_item`: None and the empty string both show as `*` |
| StopWordCounter.Report | sliding-wc.py:63-67 | the yielded dictionary: the step number before the step, the word, the stop-word test, the table and `lru_word` after the step; YieldShows states its fields |
| StopWordCounter.RunWindow | sliding-wc.py:50-56 | after n words the deque holds the last min(n, max(0, window_size)) words in order, and the counter is at n |
| StopWordCounter.RunLastEvicted | sliding-wc.py:48-67 | `lru_item` is None until the first eviction and then the word that arrived `max(0, window_size)` steps before the latest; `lru_word` reports `*` until then |
| StopWordCounter.StepFrame | sliding-wc.py:50-59 | a step changes no entry except those of the admitted and the evicted word |
| StopWordCounter.StepEvictedAndStopWord | sliding-wc.py:52-65 | the evicted word ends absent or at most 0; `is_stop_word` is the lower-cased lookup; a stop word's entry is never incremented |
| StopWordCounter.RunNeverOverCounts | sliding-wc.py:45-60 | every entry is at most the counted occurrences of its word in the window, so a stop word's entry is absent or at most 0 |
| StopWordCounter.StepNeverOverCounts | sliding-wc.py:50-59 | one loop pass preserves the no-over-count invariant |
| StopWordCounter.InvertedDeleteTrace | sliding-wc.py:57-59 | window 3 over x y x z x: x is deleted while one x is still in the window, then y is stored at 0 after leaving it |
| StopWordCounter.StopWordTrace | sliding-wc.py:51-59 | window 2 over the the cat with stop word "the": nothing is counted for "the" and its eviction stores it at 0 |
| StopWordCounter.StopWordBelowZero | sliding-wc.py:52-59 | window 1 over the the the with stop word "the": the first eviction stores "the" at 0 and the second at -1 |
| StopWordCounter.FixedEvict | sliding-wc.py:57-59 | the corrected eviction keeps the entry exactly when the decremented count is positive; no other entry changes |
| StopWordCounter.FixedRunCountsWindow | sliding-wc.py:50-59 | with the corrected eviction the table is exactly the counted occurrences of the non-stop words in the window, with no entry at 0 or below |
| StopWordCounter.FixedTrace | sliding-wc.py:57-59 | with the corrected eviction, window 3 over x y x z x leaves {x: 2, z: 1} |
| StopWordCounter.SlidingCounter.constructor | sliding-wc.py:46-49 | the generator starts with an empty deque, an empty table, no evicted word and step 0 |
| StopWordCounter.Consume | sliding-wc.py:51-59 | the imperative loop body computes the transition `Step` |
| StopWordCounter.SlidingCounter.Advance | sliding-wc.py:50-67 | one iteration makes the transition `Step` and yields `seq`, `word`, `is_stop_word`, the table and `lru_word` of the new state |
| Driver.AtLeastOne | sliding-wc.py:135-136 | `max(1, n)`: at least 1 and at least n, and equal to one of them |
| Driver.ViewStart | sliding-wc.py:150 | `max(current_count - window_size + 1, 0)`: at least both, equal to one of them, and at most the line count once the window is at least 1 |
| Driver.Reported | sliding-wc.py:146-149 | definition of a printed step: below `numlines` (the loop breaks otherwise) and `count + 1` a multiple of the clamped `view_window_size` (it continues otherwise); ReportedStepsCadence and ReportedStepsCount state its consequences |
| Driver.LineOf | sliding-wc.py:150-156 | the fields of the line printed for a yield: `view_start`, `seq`, word, stop-word flag, the top counts and `lru_word` |
| Driver.Printed | sliding-wc.py:144-156 | definition of the lines `main` prints for a sequence of yields; PrintedReportedSteps and PrintedAfterLimit state what it holds |
| Driver.ClampedWindow | sliding-wc.py:135 | with `max(1, window_size)` the deque is nonempty once a word has arrived and holds the last min(n, window) words |
| Driver.Yields | sliding-wc.py:138-144 | the generator yields once per word |
| Driver.YieldAt | sliding-wc.py:144-145 | the i-th yield reports step i on the state left by the first i words |
| Driver.YieldsPrefix | sliding-wc.py:144-147 | the yields of a prefix of the input are a prefix of the yields |
| Driver.YieldShows | sliding-wc.py:145-154 | the yield read at line count c reports `seq` c and the word of step c, and `view_start`..c is exactly the positions in the deque |
| Driver.PrintedReportedSteps | sliding-wc.py:144-156 | one line is printed per reported step, in step order, with that step's ranked counts |
| Driver.PrintedAfterLimit | sliding-wc.py:146-147 | nothing is printed once the line count reaches `numlines` |
| Driver.ReportedStepsCadence | sliding-wc.py:146-149 | a step prints exactly when its count is below `numlines` and `count + 1` is a multiple of `max(1, view_window_size)` |
| Driver.ReportedStepsCount | sliding-wc.py:136-149 | with n words, `max(0, min(n, numlines))` / `max(1, view_window_size)` lines are printed (none for a negative `numlines`) |
| Driver.PrintStep | sliding-wc.py:144-156 | one loop pass advances the counter, stops at the line limit, and appends the line of a reported step |
| Driver.PrintedLines | sliding-wc.py:135-157 | the loop of `main` prints exactly the lines `Printed` specifies for the yields of the clamped counter |

## Left out

- Reading text and splitting it into words is outside the model: `get_words` with the `\w+` pattern, the URL, the file and the standard input. Every operation takes the words as a finite sequence.
- Command-line parsing and its defaults are outside the model. The sizes, the line budget and `top` are parameters.
- Loading the stop-word file and lower-casing its words (sliding-wc.py:116-122) is outside the model. The stop-word set is a parameter and may hold any words.
- `str.lower` is a parameter function `lower` of the configuration. Unicode case mapping is not modelled.
- Output formatting is outside the model: the `"%(word)s (%(count)d)"` strings and their `", "` join, the line template, and the `noise_flag`. A printed line is a `Line` value holding its fields, with the ranked pairs and a boolean stop-word flag.
- `time.sleep`, `flush` and the `BrokenPipeError` handler are I/O and are left out.
- The `main` functions of `wc_window.py` and `wc_sliding.py` only print and are left out. So are their argument parsers.
- The Python generator is lazy and yields the same dictionary object every time, so a later step changes what an earlier yield points to. The model yields a value copy of the table. `main` uses each yield before asking for the next, so the lines it prints are the same.
- The source can read words from an unbounded stream. The model covers every finite prefix of it.

## Findings

| source | as written | input that shows it | evidently intended | confidence | as-written member | corrected member |
|---|---|---|---|---|---|---|
| sliding-wc.py:58-59 | the evicted word's entry is deleted when its decremented count is positive, and kept at the count otherwise | window 3, words x y x z x: after z, x is absent although one x is still in the window; after the fifth word, y is stored with count 0 | keep a positive decremented count and delete the entry at 0 or below, so the table is exactly the counted occurrences in the window | not executed | StopWordCounter.InvertedDeleteTrace | StopWordCounter.FixedRunCountsWindow |
