/** The word collection: one record per practised word, in insertion order.
    Duplicated word texts are allowed and scheduled independently. */
module Words {
  import opened Text

  /** Interval, in milliseconds, for a new or a failed word (one minute). */
  const DEFAULT_INTERVAL: int := 60000

  /** One practised word: its text as typed, the interval in milliseconds and
      the next review as an absolute timestamp in milliseconds. */
  datatype WordRecord = WordRecord(word: string, interval: int, nextReview: int)

  /** A record is due once its review time has been reached. */
  predicate IsDue(r: WordRecord, now: int)
  {
    r.nextReview <= now
  }

  /** Every record the scheduler itself creates or updates has a non-empty
      word and an interval of at least the default. */
  predicate WellFormed(words: seq<WordRecord>)
  {
    forall k :: 0 <= k < |words| ==> words[k].word != [] && words[k].interval >= DEFAULT_INTERVAL
  }

  /** The add button: trim the typed text, ignore it when nothing is left,
      otherwise append a record that is due at once. */
  function AddWord(words: seq<WordRecord>, input: string, now: int): (r: seq<WordRecord>)
    ensures AllSpace(input) ==> r == words
    ensures !AllSpace(input) ==>
              && |r| == |words| + 1
              && r[..|words|] == words
              && r[|words|] == WordRecord(Trim(input), DEFAULT_INTERVAL, now)
    ensures !AllSpace(input) ==>
              && r[|words|].word != []
              && !IsSpace(r[|words|].word[0])
              && !IsSpace(r[|words|].word[|r[|words|].word| - 1])
  {
    var text := Trim(input);
    if text == [] then words else words + [WordRecord(text, DEFAULT_INTERVAL, now)]
  }

  /** A freshly added word is due from the moment it was added onwards. */
  lemma AddedWordStaysDue(words: seq<WordRecord>, input: string, now: int, later: int)
    requires !AllSpace(input)
    requires now <= later
    ensures IsDue(AddWord(words, input, now)[|words|], later)
  {
  }

  /** Adding a word keeps a well-formed collection well-formed. */
  lemma AddPreservesWellFormed(words: seq<WordRecord>, input: string, now: int)
    requires WellFormed(words)
    ensures WellFormed(AddWord(words, input, now))
  {
  }
}
