/**
 * The two string operations the library searches rely on: `toLowerCase`,
 * restricted to ASCII letters, and `includes`.
 */
module Text {

  /** ASCII case folding of one character; every other character is kept. */
  function LowerChar(c: char): (r: char)
    ensures !('A' <= r <= 'Z')
    ensures 'A' <= c <= 'Z' ==> r as int == c as int + 32
    ensures !('A' <= c <= 'Z') ==> r == c
  {
    if 'A' <= c <= 'Z' then (c as int + 32) as char else c
  }

  /** `s.toLowerCase()` for ASCII text. */
  function ToLower(s: string): (r: string)
    ensures |r| == |s|
    ensures forall i :: 0 <= i < |s| ==> r[i] == LowerChar(s[i])
  {
    if |s| == 0 then [] else [LowerChar(s[0])] + ToLower(s[1..])
  }

  /** `t` sits in `s` starting at index `i`. */
  predicate OccursAt(s: string, t: string, i: int)
  {
    0 <= i && i + |t| <= |s| && s[i..i + |t|] == t
  }

  /** Occurring at index 0 is being a prefix. */
  lemma OccursAtStart(s: string, t: string)
    ensures OccursAt(s, t, 0) <==> t <= s
  {
    if |t| <= |s| {
      assert s[0..|t|] == s[..|t|];
    }
  }

  /** `t` occurs somewhere in `s`. */
  ghost predicate Contains(s: string, t: string)
  {
    exists i :: OccursAt(s, t, i)
  }

  /** Dropping the first character of `s` shifts every occurrence one place to the left. */
  lemma OccursShift(s: string, t: string, i: nat)
    requires |s| > 0
    ensures OccursAt(s[1..], t, i) <==> OccursAt(s, t, i + 1)
  {
    if i + 1 + |t| <= |s| {
      assert s[i + 1..i + 1 + |t|] == s[1..][i..i + |t|];
    }
  }

  /** `s.includes(t)`: `t` occurs in `s` as a contiguous block; the empty string occurs everywhere. */
  function Includes(s: string, t: string): (r: bool)
    ensures r <==> Contains(s, t)
  {
    OccursAtStart(s, t);
    if t <= s then
      true
    else if |s| == 0 then
      false
    else
      var r := Includes(s[1..], t);
      assert r <==> exists i :: OccursAt(s, t, i) by {
        if r {
          var j :| OccursAt(s[1..], t, j);
          OccursShift(s, t, j);
        }
        if exists i :: OccursAt(s, t, i) {
          var i :| OccursAt(s, t, i);
          assert i != 0;
          OccursShift(s, t, i - 1);
        }
      }
      r
  }

  /** The case-insensitive substring test of the library searches. */
  function Matches(text: string, query: string): (r: bool)
    ensures r <==> Contains(ToLower(text), ToLower(query))
  {
    Includes(ToLower(text), ToLower(query))
  }

  /** A query that agrees, up to ASCII case, with the start of the text matches it. */
  lemma MatchesAtStart(text: string, query: string)
    requires |query| <= |text|
    requires forall i :: 0 <= i < |query| ==> LowerChar(text[i]) == LowerChar(query[i])
    ensures Matches(text, query)
  {
    assert ToLower(text)[..|query|] == ToLower(query);
    OccursAtStart(ToLower(text), ToLower(query));
  }

  /** A query longer than the text never matches it. */
  lemma NoMatchLonger(text: string, query: string)
    requires |query| > |text|
    ensures !Matches(text, query)
  {
  }
}
