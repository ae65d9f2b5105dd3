/** Character and string helpers the scheduler relies on: an ASCII model of
    JavaScript's `toLowerCase` and `trim`, and the joining of the per-letter
    input boxes into one attempted spelling. */
module Text {

  /** ASCII lower-case fold of one character; every other character is kept
      (scripts.js:311, 330). */
  function Lower(c: char): (d: char)
    ensures !('A' <= d <= 'Z')
    ensures d != c ==> 'A' <= c <= 'Z' && 'a' <= d <= 'z'
  {
    if 'A' <= c <= 'Z' then (c as int + 32) as char else c
  }

  /** Folding twice is folding once, and two letters of different ASCII
      case fold together only when they are the upper and lower form. */
  lemma LowerFolds(c: char, e: char)
    ensures Lower(Lower(c)) == Lower(c)
    ensures 'A' <= c <= 'Z' && 'a' <= e <= 'z' ==> (Lower(c) == Lower(e) <==> e as int == c as int + 32)
  {
  }

  /** Character-wise lower-case fold: one character maps to one character. */
  function LowerStr(s: string): (r: string)
    ensures |r| == |s|
    ensures forall k :: 0 <= k < |s| ==> r[k] == Lower(s[k])
  {
    seq(|s|, k requires 0 <= k < |s| => Lower(s[k]))
  }

  /** Case-insensitive string equality, as in the whole-word check (scripts.js:311). */
  predicate SameIgnoringCase(a: string, b: string)
  {
    LowerStr(a) == LowerStr(b)
  }

  /** ASCII white space: space, tab, line feed, vertical tab, form feed, carriage return. */
  predicate IsSpace(c: char)
  {
    c == ' ' || '\t' <= c <= '\r'
  }

  predicate AllSpace(s: string)
  {
    forall j :: 0 <= j < |s| ==> IsSpace(s[j])
  }

  /** Number of white-space characters at the front of `s`. */
  function LeadingSpaces(s: string): (k: nat)
    ensures k <= |s|
    ensures forall j :: 0 <= j < k ==> IsSpace(s[j])
    ensures k < |s| ==> !IsSpace(s[k])
  {
    if |s| > 0 && IsSpace(s[0]) then 1 + LeadingSpaces(s[1..]) else 0
  }

  /** Position where the white-space run at the back of `s` begins. */
  function TrailingStart(s: string): (k: nat)
    ensures k <= |s|
    ensures forall j :: k <= j < |s| ==> IsSpace(s[j])
    ensures 0 < k ==> !IsSpace(s[k - 1])
  {
    if |s| > 0 && IsSpace(s[|s| - 1]) then TrailingStart(s[..|s| - 1]) else |s|
  }

  /** The text between the leading and the trailing white space (scripts.js:101). */
  function Trim(s: string): (r: string)
    ensures r == [] <==> AllSpace(s)
    ensures r != [] ==> !IsSpace(r[0]) && !IsSpace(r[|r| - 1])
    ensures exists lo :: 0 <= lo && lo + |r| <= |s| && r == s[lo..lo + |r|]
                         && AllSpace(s[..lo]) && AllSpace(s[lo + |r|..])
  {
    var lo := LeadingSpaces(s);
    if lo == |s| then
      assert s[0..0] == [] && s[..0] == [] && s[0..] == s;
      []
    else
      var hi := TrailingStart(s);
      assert lo < hi;
      assert AllSpace(s[..lo]) && AllSpace(s[hi..]);
      s[lo..hi]
  }

  /** Trimming twice is trimming once. */
  lemma TrimIdempotent(s: string)
    ensures Trim(Trim(s)) == Trim(s)
  {
    var t := Trim(s);
    if t != [] {
      assert LeadingSpaces(t) == 0;
      assert TrailingStart(t) == |t|;
    }
  }

  /** The letter boxes' texts laid end to end (scripts.js:309). */
  function Join(parts: seq<string>): string
  {
    if |parts| == 0 then [] else Join(parts[..|parts| - 1]) + parts[|parts| - 1]
  }

  predicate AllSingletons(parts: seq<string>)
  {
    forall k :: 0 <= k < |parts| ==> |parts[k]| == 1
  }

  /** Joining one-character strings lays their characters out one per position. */
  lemma {:induction false} JoinSingletons(parts: seq<string>)
    requires AllSingletons(parts)
    ensures |Join(parts)| == |parts|
    ensures forall k :: 0 <= k < |parts| ==> Join(parts)[k] == parts[k][0]
  {
    if |parts| > 0 {
      JoinSingletons(parts[..|parts| - 1]);
    }
  }
}
