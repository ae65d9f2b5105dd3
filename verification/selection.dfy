/** Due-word selection (`loadNextWord`): keep the due records, sort them by
    review time with a stable sort, and present the first one. Records are
    referred to by their index in the collection, since grading updates the
    very record that was selected and equal records may occur twice. */
module Selection {
  import opened Words

  datatype Selection = NoWord | Next(index: nat)

  predicate ValidIndices(words: seq<WordRecord>, s: seq<nat>)
  {
    forall k :: 0 <= k < |s| ==> s[k] < |words|
  }

  predicate Increasing(s: seq<nat>)
  {
    forall j, k :: 0 <= j < k < |s| ==> s[j] < s[k]
  }

  predicate SortedByDue(words: seq<WordRecord>, s: seq<nat>)
    requires ValidIndices(words, s)
  {
    forall j, k :: 0 <= j < k < |s| ==> words[s[j]].nextReview <= words[s[k]].nextReview
  }

  /** Indices below `n` of the due records, in collection order (scripts.js:136-138). */
  function DueBelow(words: seq<WordRecord>, now: int, n: nat): (r: seq<nat>)
    requires n <= |words|
    ensures ValidIndices(words, r)
    ensures Increasing(r)
    ensures forall k :: 0 <= k < |r| ==> r[k] < n && IsDue(words[r[k]], now)
    ensures forall i :: 0 <= i < n && IsDue(words[i], now) ==> i in r
  {
    if n == 0 then []
    else
      var rest := DueBelow(words, now, n - 1);
      if IsDue(words[n - 1], now) then rest + [n - 1] else rest
  }

  /** Indices of all due records, in collection order. */
  function DueIndices(words: seq<WordRecord>, now: int): (r: seq<nat>)
    ensures ValidIndices(words, r)
    ensures Increasing(r)
    ensures forall i: nat :: i in r <==> i < |words| && IsDue(words[i], now)
  {
    DueBelow(words, now, |words|)
  }

  /** Inserts `i` in front of the first entry whose review time is not earlier,
      so that `i` stays ahead of entries it ties with. */
  function InsertByDue(words: seq<WordRecord>, i: nat, s: seq<nat>): (r: seq<nat>)
    requires i < |words|
    requires ValidIndices(words, s)
    ensures ValidIndices(words, r)
    ensures multiset(r) == multiset(s) + multiset{i}
    ensures r[0] == i || (|s| > 0 && r[0] == s[0])
  {
    if |s| == 0 || words[i].nextReview <= words[s[0]].nextReview then
      [i] + s
    else
      assert s == [s[0]] + s[1..];
      [s[0]] + InsertByDue(words, i, s[1..])
  }

  /** Putting an entry due no later than every entry of a sorted list in front
      keeps it sorted, and only such an entry does. */
  lemma SortedCons(words: seq<WordRecord>, x: nat, t: seq<nat>)
    requires x < |words| && ValidIndices(words, t)
    ensures ValidIndices(words, [x] + t)
    ensures SortedByDue(words, [x] + t) <==>
              SortedByDue(words, t) && forall k :: 0 <= k < |t| ==> words[x].nextReview <= words[t[k]].nextReview
  {
    var r := [x] + t;
    if SortedByDue(words, t) && forall k :: 0 <= k < |t| ==> words[x].nextReview <= words[t[k]].nextReview {
      forall j, k | 0 <= j < k < |r| ensures words[r[j]].nextReview <= words[r[k]].nextReview {
        if j > 0 {
          assert r[j] == t[j - 1] && r[k] == t[k - 1];
        }
      }
    }
    if SortedByDue(words, r) {
      forall k | 0 <= k < |t| ensures words[x].nextReview <= words[t[k]].nextReview {
        assert r[0] == x && r[k + 1] == t[k];
        assert words[r[0]].nextReview <= words[r[k + 1]].nextReview;
      }
      forall j, k | 0 <= j < k < |t| ensures words[t[j]].nextReview <= words[t[k]].nextReview {
        assert r[j + 1] == t[j] && r[k + 1] == t[k];
      }
    }
  }

  /** Inserting into a sorted list keeps it sorted. */
  lemma {:induction false} InsertKeepsSorted(words: seq<WordRecord>, i: nat, s: seq<nat>)
    requires i < |words| && ValidIndices(words, s)
    requires SortedByDue(words, s)
    ensures SortedByDue(words, InsertByDue(words, i, s))
  {
    if |s| == 0 {
      SortedCons(words, i, s);
    } else {
      var tail := s[1..];
      assert s == [s[0]] + tail;
      SortedCons(words, s[0], tail);
      if words[i].nextReview <= words[s[0]].nextReview {
        SortedCons(words, i, s);
      } else {
        InsertKeepsSorted(words, i, tail);
        var t := InsertByDue(words, i, tail);
        forall k | 0 <= k < |t| ensures words[s[0]].nextReview <= words[t[k]].nextReview {
          assert t[k] in multiset(t);
          if t[k] != i {
            assert t[k] in multiset(tail);
            var m :| 0 <= m < |tail| && tail[m] == t[k];
          }
        }
        SortedCons(words, s[0], t);
      }
    }
  }

  /** The due list ordered by review time with a stable sort (scripts.js:153):
      an insertion sort that puts each entry ahead of the later ones it ties with. */
  function SortByDue(words: seq<WordRecord>, s: seq<nat>): (r: seq<nat>)
    requires ValidIndices(words, s)
    ensures ValidIndices(words, r)
    ensures multiset(r) == multiset(s)
    ensures SortedByDue(words, r)
  {
    if |s| == 0 then []
    else
      assert s == [s[0]] + s[1..];
      var t := SortByDue(words, s[1..]);
      InsertKeepsSorted(words, s[0], t);
      InsertByDue(words, s[0], t)
  }

  /** `h` is an entry of `s` with the least review time, and no entry with
      that review time is a smaller index. */
  predicate FirstLeast(words: seq<WordRecord>, s: seq<nat>, h: nat)
    requires ValidIndices(words, s)
  {
    && h in s
    && h < |words|
    && forall x :: x in s ==>
         && words[h].nextReview <= words[x].nextReview
         && (words[x].nextReview == words[h].nextReview ==> h <= x)
  }

  /** The first entry of the stable sort of an increasing index list is the
      earliest index among those with the least review time. */
  lemma {:induction false} SortByDueHead(words: seq<WordRecord>, s: seq<nat>)
    requires ValidIndices(words, s)
    requires Increasing(s)
    requires |s| > 0
    ensures FirstLeast(words, s, SortByDue(words, s)[0])
  {
    var rest := s[1..];
    assert s == [s[0]] + rest;
    var r := SortByDue(words, s);
    var t := SortByDue(words, rest);
    assert r == InsertByDue(words, s[0], t);
    if |rest| == 0 {
      assert r == [s[0]];
    } else {
      forall k | 0 <= k < |rest| ensures s[0] < rest[k] {
        assert rest[k] == s[k + 1];
      }
      assert Increasing(rest) by {
        forall j, k | 0 <= j < k < |rest| ensures rest[j] < rest[k] {
          assert rest[j] == s[j + 1] && rest[k] == s[k + 1];
        }
      }
      SortByDueHead(words, rest);
      assert t[0] in multiset(t);
      if words[s[0]].nextReview <= words[t[0]].nextReview {
        assert r[0] == s[0];
      } else {
        assert r[0] == t[0];
      }
    }
  }

  /** `loadNextWord`'s choice: nothing when no record is due, otherwise the
      first entry of the due records sorted by review time. */
  function SelectNext(words: seq<WordRecord>, now: int): (r: Selection)
    ensures r.NoWord? <==> forall i :: 0 <= i < |words| ==> !IsDue(words[i], now)
    ensures r.Next? ==> IsLeastDue(words, now, r.index)
  {
    var due := DueIndices(words, now);
    if |due| == 0 then
      NoWord
    else
      SortByDueHead(words, due);
      Next(SortByDue(words, due)[0])
  }

  /** Reference definition of the record to present: it is due, no due record
      has an earlier review time, and no earlier record ties with it. */
  predicate IsLeastDue(words: seq<WordRecord>, now: int, i: nat)
  {
    && i < |words|
    && IsDue(words[i], now)
    && (forall j :: 0 <= j < |words| && IsDue(words[j], now) ==> words[i].nextReview <= words[j].nextReview)
    && (forall j :: 0 <= j < i && IsDue(words[j], now) ==> words[j].nextReview != words[i].nextReview)
  }

  /** Selection presents exactly the record the reference definition names. */
  lemma SelectNextIsLeastDue(words: seq<WordRecord>, now: int, i: nat)
    ensures SelectNext(words, now) == Next(i) <==> IsLeastDue(words, now, i)
  {
    if IsLeastDue(words, now, i) {
      var sel := SelectNext(words, now);
      assert IsDue(words[i], now);
      assert sel.Next?;
      var j := sel.index;
      assert IsLeastDue(words, now, j);
      assert words[i].nextReview == words[j].nextReview;
      assert i == j;
    }
  }
}
