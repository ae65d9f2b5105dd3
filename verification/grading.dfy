/** Answer grading (`checkSpelling`): compare the joined letter boxes with the
    word ignoring case, then double the interval of a correct word or send a
    wrong one back to the default interval. */
module Grading {
  import opened Text
  import opened Words

  /** Whether the attempt passed; a failed attempt carries, per letter box,
      whether that box is highlighted as wrong. */
  datatype Verdict = Correct | Incorrect(marks: seq<bool>)

  datatype Graded = Graded(words: seq<WordRecord>, verdict: Verdict)

  /** Whether box `k` is highlighted as wrong: its text, folded, is not the
      folded letter of the word at the same position. */
  predicate Marked(word: string, inputs: seq<string>, k: nat)
    requires k < |inputs| <= |word|
  {
    !SameIgnoringCase(inputs[k], [word[k]])
  }

  /** The highlighting vector of the mismatch branch. */
  function LetterMarks(word: string, inputs: seq<string>): seq<bool>
    requires |inputs| <= |word|
  {
    seq(|inputs|, k requires 0 <= k < |inputs| => Marked(word, inputs, k))
  }

  /** The interval after a correct answer: doubled, or the default when it was zero. */
  function Reinforce(r: WordRecord, now: int): WordRecord
  {
    var interval := if r.interval != 0 then r.interval * 2 else DEFAULT_INTERVAL;
    r.(interval := interval, nextReview := now + interval)
  }

  /** The record after a wrong answer: back to the default interval. */
  function Relearn(r: WordRecord, now: int): WordRecord
  {
    r.(interval := DEFAULT_INTERVAL, nextReview := now + DEFAULT_INTERVAL)
  }

  /** When no box is highlighted, every box holds exactly the word's letter up
      to case, so the whole-word comparison succeeds. An empty box is always
      highlighted. */
  lemma NoMarkMeansMatch(word: string, inputs: seq<string>)
    requires |inputs| == |word|
    requires forall k :: 0 <= k < |inputs| ==> !Marked(word, inputs, k)
    ensures SameIgnoringCase(Join(inputs), word)
  {
    forall k | 0 <= k < |inputs| ensures |inputs[k]| == 1 && Lower(inputs[k][0]) == Lower(word[k]) {
      assert !Marked(word, inputs, k);
      assert LowerStr(inputs[k]) == LowerStr([word[k]]);
      assert LowerStr(inputs[k])[0] == Lower(word[k]);
    }
    JoinSingletons(inputs);
  }

  /** When every box holds one character, the whole-word comparison succeeds
      exactly when no box is highlighted. */
  lemma MatchIffNoMark(word: string, inputs: seq<string>)
    requires |inputs| == |word|
    requires AllSingletons(inputs)
    ensures SameIgnoringCase(Join(inputs), word) <==> forall k :: 0 <= k < |inputs| ==> !Marked(word, inputs, k)
  {
    JoinSingletons(inputs);
    var joined := Join(inputs);
    if SameIgnoringCase(joined, word) {
      forall k | 0 <= k < |inputs| ensures !Marked(word, inputs, k) {
        assert Lower(joined[k]) == Lower(word[k]);
        assert inputs[k] == [joined[k]];
      }
    } else if forall k :: 0 <= k < |inputs| ==> !Marked(word, inputs, k) {
      NoMarkMeansMatch(word, inputs);
    }
  }

  /** `checkSpelling(wordObj, letterInputs)` on record `i`, at time `now`.
      Only record `i` changes, and only its interval and next review. */
  function Grade(words: seq<WordRecord>, i: nat, inputs: seq<string>, now: int): (g: Graded)
    requires i < |words|
    requires |inputs| == |words[i].word|
    ensures |g.words| == |words|
    ensures forall j :: 0 <= j < |words| && j != i ==> g.words[j] == words[j]
    ensures g.words[i].word == words[i].word
    ensures g.words[i].nextReview == now + g.words[i].interval
    ensures g.verdict.Correct? <==> SameIgnoringCase(Join(inputs), words[i].word)
    ensures g.verdict.Correct? && words[i].interval != 0 ==> g.words[i].interval == 2 * words[i].interval
    ensures g.verdict.Correct? && words[i].interval == 0 ==> g.words[i].interval == DEFAULT_INTERVAL
    ensures g.verdict.Incorrect? ==> g.words[i].interval == DEFAULT_INTERVAL
    ensures g.verdict.Incorrect? ==>
              && |g.verdict.marks| == |inputs|
              && (forall k :: 0 <= k < |inputs| ==> (g.verdict.marks[k] <==> !SameIgnoringCase(inputs[k], [words[i].word[k]])))
              && (exists k :: 0 <= k < |inputs| && g.verdict.marks[k])
  {
    var r := words[i];
    if SameIgnoringCase(Join(inputs), r.word) then
      Graded(words[i := Reinforce(r, now)], Correct)
    else
      var marks := LetterMarks(r.word, inputs);
      assert exists k :: 0 <= k < |inputs| && marks[k] by {
        assert exists k :: 0 <= k < |inputs| && Marked(r.word, inputs, k) by {
          if forall k :: 0 <= k < |inputs| ==> !Marked(r.word, inputs, k) {
            NoMarkMeansMatch(r.word, inputs);
          }
        }
        var k :| 0 <= k < |inputs| && Marked(r.word, inputs, k);
        assert marks[k];
      }
      Graded(words[i := Relearn(r, now)], Incorrect(marks))
  }

  function Pow2(n: nat): (p: nat)
    ensures p >= 1
  {
    if n == 0 then 1 else 2 * Pow2(n - 1)
  }

  /** The record after a run of correct answers, given at the times `nows`. */
  function CorrectRun(r: WordRecord, nows: seq<int>): WordRecord
  {
    if |nows| == 0 then r else Reinforce(CorrectRun(r, nows[..|nows| - 1]), nows[|nows| - 1])
  }

  /** Doubling law: n correct answers multiply a nonzero interval by 2^n, keep
      the word, and schedule the review one interval after the last answer. */
  lemma {:induction false} CorrectRunDoubles(r: WordRecord, nows: seq<int>)
    requires r.interval != 0
    ensures CorrectRun(r, nows).interval == r.interval * Pow2(|nows|)
    ensures CorrectRun(r, nows).word == r.word
    ensures |nows| > 0 ==> CorrectRun(r, nows).nextReview == nows[|nows| - 1] + CorrectRun(r, nows).interval
  {
    if |nows| > 0 {
      var prefix := nows[..|nows| - 1];
      CorrectRunDoubles(r, prefix);
      var before := CorrectRun(r, prefix);
      ScaledStep(r.interval, Pow2(|prefix|));
      assert Pow2(|nows|) == 2 * Pow2(|prefix|);
      assert CorrectRun(r, nows) == Reinforce(before, nows[|nows| - 1]);
    }
  }

  /** A nonzero interval scaled by a positive factor stays nonzero, and
      doubling it is scaling by twice the factor. */
  lemma ScaledStep(x: int, p: int)
    requires x != 0 && p >= 1
    ensures x * p != 0
    ensures (x * p) * 2 == x * (2 * p)
  {
    if x > 0 {
      assert x * p >= p;
    } else {
      assert x * p <= -p;
    }
  }

  /** A word added with the default interval reaches DEFAULT_INTERVAL * 2^n
      after n correct answers. */
  lemma DoublingFromDefault(r: WordRecord, nows: seq<int>)
    requires r.interval == DEFAULT_INTERVAL
    ensures CorrectRun(r, nows).interval == DEFAULT_INTERVAL * Pow2(|nows|)
  {
    CorrectRunDoubles(r, nows);
  }

  /** Grading keeps a well-formed collection well-formed, and the graded word
      is not due again for at least the default interval. */
  lemma GradePreservesWellFormed(words: seq<WordRecord>, i: nat, inputs: seq<string>, now: int)
    requires WellFormed(words)
    requires i < |words| && |inputs| == |words[i].word|
    ensures WellFormed(Grade(words, i, inputs, now).words)
    ensures forall later :: later < now + DEFAULT_INTERVAL ==> !IsDue(Grade(words, i, inputs, now).words[i], later)
  {
    var g := Grade(words, i, inputs, now);
    assert g.words[i].interval >= DEFAULT_INTERVAL;
  }
}
