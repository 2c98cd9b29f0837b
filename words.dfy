/** Words, the sliding window of recent words, and the dictionary helpers
    shared by the three word counters. */
module Words {

  /** A token as the tokenizer produces it: an exact, case-sensitive string. */
  type Word = string

  datatype Option<T> = None | Some(value: T)

  /** Python's `d.get(key, default)` on a dictionary from words to counts. */
  function Get(m: map<Word, int>, key: Word, default: int): int
  {
    if key in m then m[key] else default
  }

  /** Number of times `w` occurs in `s`. */
  function Occurrences(s: seq<Word>, w: Word): nat
  {
    multiset(s)[w]
  }

  /** The set of distinct words of `s`. */
  function Seen(s: seq<Word>): set<Word>
  {
    set w | w in s
  }

  /** How many words a deque trimmed by `len(deque) > window_size` holds
      once it is full: a window size of zero or less keeps nothing. */
  function Capacity(windowSize: int): nat
  {
    if windowSize > 0 then windowSize else 0
  }

  /** The reference definition of the window: the last
      `Capacity(windowSize)` words of `history`, oldest first. */
  function Recent(history: seq<Word>, windowSize: int): seq<Word>
  {
    var n := if |history| < Capacity(windowSize) then |history| else Capacity(windowSize);
    history[|history| - n..]
  }

  /** The word that `popleft` removes when `word` is appended to the deque
      `cache`, or None when the deque is not longer than the window. */
  function Evicted(cache: seq<Word>, word: Word, windowSize: int): (r: Option<Word>)
    ensures r.Some? <==> |cache| >= windowSize
    ensures r.Some? ==> r.value == if cache == [] then word else cache[0]
  {
    var c := cache + [word];
    if |c| > windowSize then Some(c[0]) else None
  }

  /** The window holds exactly min(n, max(0, windowSize)) words. */
  lemma RecentLength(history: seq<Word>, windowSize: int)
    ensures |Recent(history, windowSize)| == if |history| < Capacity(windowSize) then |history| else Capacity(windowSize)
  {
  }

  /** Appending a word to the deque and popping the oldest one when the
      deque grows past the window turns the window of `history` into the
      window of `history + [word]`. */
  lemma RecentStep(history: seq<Word>, word: Word, windowSize: int)
    ensures var c := Recent(history, windowSize) + [word];
            Recent(history + [word], windowSize) == if |c| > windowSize then c[1..] else c
  {
    var h' := history + [word];
    var c := Recent(history, windowSize) + [word];
    if |c| > windowSize {
      assert c[1..] == h'[|h'| - |c[1..]|..];
    } else {
      assert c == h'[|h'| - |c|..];
    }
  }

  /** Eviction is first-in first-out: the word `word` (admitted at step
      n = |history|, counting from 0) evicts a word exactly when
      n >= Capacity(windowSize), and the evicted word is the one admitted at
      step n - Capacity(windowSize). */
  lemma EvictionIsFifo(history: seq<Word>, word: Word, windowSize: int)
    ensures var e := Evicted(Recent(history, windowSize), word, windowSize);
            && (e.Some? <==> |history| >= Capacity(windowSize))
            && (e.Some? ==> e.value == (history + [word])[|history| - Capacity(windowSize)])
  {
  }
}
