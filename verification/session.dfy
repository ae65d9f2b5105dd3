/** The page-level handlers around the scheduler and the two progress
    counters `wordsCompleted` and `totalWordsForSession`. Each handler is a
    pure function of the state before it and of the time it runs at. */
module Session {
  import opened Text
  import opened Words
  import opened Selection
  import opened Grading

  datatype Option<T> = None | Some(value: T)

  /** The collection together with `wordsCompleted` and `totalWordsForSession`. */
  datatype Session = Session(words: seq<WordRecord>, completed: nat, total: nat)

  /** The state after a selection, and what the selection presents. */
  datatype Step = Step(session: Session, shown: Selection)

  /** The state after a check, and its verdict. */
  datatype Checked = Checked(session: Session, verdict: Verdict)

  /** The state right after the reset handler, and at page load before the stored words are read. */
  const Empty := Session([], 0, 0)

  /** The indices a list holds, as a set. */
  function Members(s: seq<nat>): set<nat>
  {
    set x | x in s
  }

  /** Indices drawn from an increasing list are all distinct, so there are as many as its length. */
  lemma {:induction false} IncreasingCard(s: seq<nat>)
    requires Increasing(s)
    ensures |Members(s)| == |s|
  {
    if |s| > 0 {
      var rest := s[1..];
      forall k | 0 <= k < |rest| ensures rest[k] > s[0] {
        assert rest[k] == s[k + 1];
      }
      assert Increasing(rest) by {
        forall j, k | 0 <= j < k < |rest| ensures rest[j] < rest[k] {
          assert rest[j] == s[j + 1] && rest[k] == s[k + 1];
        }
      }
      IncreasingCard(rest);
      assert s == [s[0]] + rest;
      assert Members(s) == Members(rest) + {s[0]};
      assert s[0] !in Members(rest);
    } else {
      assert Members(s) == {};
    }
  }

  /** `dueWords.length`: how many records are due at `now`. */
  function DueCount(words: seq<WordRecord>, now: int): (n: nat)
    ensures n == |set i | 0 <= i < |words| && IsDue(words[i], now)|
  {
    var due := DueIndices(words, now);
    IncreasingCard(due);
    assert (set i | 0 <= i < |words| && IsDue(words[i], now)) == Members(due);
    |due|
  }

  /** `loadNextWord()` at time `now`: recompute the session total as the due
      records plus the completed ones, and present the least-due record. */
  function LoadNext(s: Session, now: int): (r: Step)
    ensures r.session.words == s.words
    ensures r.session.completed == s.completed
    ensures r.session.total == |set i | 0 <= i < |s.words| && IsDue(s.words[i], now)| + s.completed
    ensures r.shown.NoWord? <==> forall i :: 0 <= i < |s.words| ==> !IsDue(s.words[i], now)
    ensures r.shown.Next? ==> IsLeastDue(s.words, now, r.shown.index)
  {
    Step(s.(total := DueCount(s.words, now) + s.completed), SelectNext(s.words, now))
  }

  /** The add button at time `now`: blank input is ignored without a new
      selection; otherwise the word is appended and a selection follows. */
  function AddStep(s: Session, input: string, now: int): (r: Option<Step>)
    ensures r.None? <==> AllSpace(input)
    ensures r.Some? ==>
              && r.value.session.words == AddWord(s.words, input, now)
              && |r.value.session.words| == |s.words| + 1
              && r.value.session.completed == s.completed
              && r.value.session.total == DueCount(r.value.session.words, now) + s.completed
              && r.value.shown.Next?
              && IsLeastDue(r.value.session.words, now, r.value.shown.index)
  {
    if AllSpace(input) then
      None
    else
      var words := AddWord(s.words, input, now);
      assert IsDue(words[|s.words|], now);
      Some(LoadNext(s.(words := words), now))
  }

  /** A freshly added word is presented at once exactly when no other record
      is due: any other due record was due no later, and wins a tie by coming
      first in the collection. */
  lemma AddShowsNewWordIffIdle(s: Session, input: string, now: int)
    requires !AllSpace(input)
    ensures AddStep(s, input, now).Some?
    ensures AddStep(s, input, now).value.shown == Next(|s.words|) <==>
              forall i :: 0 <= i < |s.words| ==> !IsDue(s.words[i], now)
  {
    var words := AddWord(s.words, input, now);
    forall j | 0 <= j < |s.words| ensures words[j] == s.words[j] {
      assert words[j] == words[..|s.words|][j];
    }
    if forall i :: 0 <= i < |s.words| ==> !IsDue(s.words[i], now) {
      assert IsLeastDue(words, now, |s.words|);
    } else {
      var j :| 0 <= j < |s.words| && IsDue(s.words[j], now);
      assert IsDue(words[j], now) && words[j].nextReview <= words[|s.words|].nextReview;
      assert !IsLeastDue(words, now, |s.words|);
    }
    SelectNextIsLeastDue(words, now, |s.words|);
  }

  /** `checkSpelling` on record `i` at time `now`: a correct answer counts one
      more completed word; the total is left as the last selection set it. */
  function CheckStep(s: Session, i: nat, inputs: seq<string>, now: int): (r: Checked)
    requires i < |s.words|
    requires |inputs| == |s.words[i].word|
    ensures r.verdict.Correct? <==> SameIgnoringCase(Join(inputs), s.words[i].word)
    ensures r.verdict.Correct? ==> r.session.completed == s.completed + 1
    ensures r.verdict.Incorrect? ==> r.session.completed == s.completed
    ensures r.session.total == s.total
    ensures |r.session.words| == |s.words|
    ensures forall j :: 0 <= j < |s.words| && j != i ==> r.session.words[j] == s.words[j]
    ensures r.session.words[i].word == s.words[i].word
    ensures r.session.words[i].nextReview == now + r.session.words[i].interval
    ensures r.verdict.Correct? && s.words[i].interval != 0 ==> r.session.words[i].interval == 2 * s.words[i].interval
    ensures r.verdict.Correct? && s.words[i].interval == 0 ==> r.session.words[i].interval == DEFAULT_INTERVAL
    ensures r.verdict.Incorrect? ==> r.session.words[i].interval == DEFAULT_INTERVAL
    ensures r.session.words == Grade(s.words, i, inputs, now).words
    ensures r.verdict == Grade(s.words, i, inputs, now).verdict
  {
    var g := Grade(s.words, i, inputs, now);
    var completed := if g.verdict.Correct? then s.completed + 1 else s.completed;
    Checked(Session(g.words, completed, s.total), g.verdict)
  }

  /** The reset button: only when confirmed, the collection and both counters
      are cleared and the following selection finds no word. */
  function ResetStep(s: Session, confirmed: bool, now: int): (r: Option<Step>)
    ensures r.None? <==> !confirmed
    ensures r.Some? ==> r.value.session.words == [] && r.value.session.completed == 0 && r.value.session.total == 0
    ensures r.Some? ==> r.value.shown == NoWord
  {
    if confirmed then Some(LoadNext(Empty, now)) else None
  }

  /** After a reset, no selection at any later time presents a word until one is added. */
  lemma ResetThenNoWord(s: Session, now: int, later: int)
    ensures LoadNext(ResetStep(s, true, now).value.session, later) == Step(Empty, NoWord)
  {
  }

  /** The scheduler's own steps keep the collection well-formed. */
  lemma StepsPreserveWellFormed(s: Session, input: string, i: nat, inputs: seq<string>, now: int)
    requires WellFormed(s.words)
    ensures AddStep(s, input, now).Some? ==> WellFormed(AddStep(s, input, now).value.session.words)
    ensures i < |s.words| && |inputs| == |s.words[i].word| ==> WellFormed(CheckStep(s, i, inputs, now).session.words)
    ensures WellFormed(LoadNext(s, now).session.words)
    ensures WellFormed(ResetStep(s, true, now).value.session.words)
  {
    AddPreservesWellFormed(s.words, input, now);
    if i < |s.words| && |inputs| == |s.words[i].word| {
      GradePreservesWellFormed(s.words, i, inputs, now);
    }
  }

  /** A checked word, right or wrong, is not presented again by any selection
      within the default interval, in particular not by the one that follows a
      correct answer after its display delay. */
  lemma CheckedWordNotShownSoon(s: Session, i: nat, inputs: seq<string>, now: int, later: int)
    requires WellFormed(s.words)
    requires i < |s.words| && |inputs| == |s.words[i].word|
    requires later < now + DEFAULT_INTERVAL
    ensures LoadNext(CheckStep(s, i, inputs, now).session, later).shown != Next(i)
  {
    GradePreservesWellFormed(s.words, i, inputs, now);
  }

  /** `wordsCompleted <= totalWordsForSession` is not kept: checking the same
      word twice before the delayed selection runs counts it twice. */
  lemma DoubleCheckOvercounts()
    ensures var s0 := Session([WordRecord("cat", DEFAULT_INTERVAL, 0)], 0, 0);
            var s1 := LoadNext(s0, 0).session;
            var s2 := CheckStep(s1, 0, ["c", "a", "t"], 0).session;
            var s3 := CheckStep(s2, 0, ["C", "A", "T"], 1).session;
            s1.total == 1 && s3.completed == 2 && s3.completed > s3.total
  {
    var s0 := Session([WordRecord("cat", DEFAULT_INTERVAL, 0)], 0, 0);
    assert (set i | 0 <= i < |s0.words| && IsDue(s0.words[i], 0)) == {0};
    var s1 := LoadNext(s0, 0).session;
    assert s1 == Session(s0.words, 0, 1);
    var lower, upper := ["c", "a", "t"], ["C", "A", "T"];
    JoinSingletons(lower);
    JoinSingletons(upper);
    assert Join(lower) == "cat";
    assert Join(upper) == "CAT";
    assert SameIgnoringCase(Join(lower), "cat");
    var s2 := CheckStep(s1, 0, lower, 0).session;
    assert s2.completed == 1 && s2.total == 1 && s2.words[0].word == "cat";
    assert LowerStr("CAT") == "cat";
    assert SameIgnoringCase(Join(upper), "cat");
    var s3 := CheckStep(s2, 0, upper, 1).session;
    assert s3.completed == 2 && s3.total == 1;
  }
}
