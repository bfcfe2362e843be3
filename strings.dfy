/** String helpers used by the data layer and the list view: SQLite's
    `GROUP_CONCAT(...)` with its default "," separator, Python's `str.split(",")`,
    an ASCII-only `str.lower()` and Python's substring test `needle in haystack`. */
module Strings {

  /** True when `c` does not occur in `s`. */
  predicate Lacks(s: string, c: char) {
    forall i :: 0 <= i < |s| ==> s[i] != c
  }

  /** `GROUP_CONCAT` with the default separator: the names joined by ",". */
  function JoinComma(names: seq<string>): (r: string)
    requires |names| > 0
    decreases |names|
  {
    if |names| == 1 then names[0] else names[0] + "," + JoinComma(names[1..])
  }

  /** Python's `s.split(",")`: always at least one piece; "" gives [""]. */
  function SplitComma(s: string): (r: seq<string>)
    ensures |r| > 0
    decreases |s|
  {
    if |s| == 0 then [""]
    else if s[0] == ',' then [""] + SplitComma(s[1..])
    else
      var rest := SplitComma(s[1..]);
      [[s[0]] + rest[0]] + rest[1..]
  }

  /** A piece without commas is split into itself. */
  lemma {:induction false} SplitNoComma(s: string)
    requires Lacks(s, ',')
    ensures SplitComma(s) == [s]
    decreases |s|
  {
    if |s| > 0 {
      SplitNoComma(s[1..]);
      assert [s[0]] + s[1..] == s;
    }
  }

  /** Splitting `a + "," + b` for a comma-free `a` yields `a` followed by the pieces of `b`. */
  lemma {:induction false} SplitAfterPiece(a: string, b: string)
    requires Lacks(a, ',')
    ensures SplitComma(a + "," + b) == [a] + SplitComma(b)
    decreases |a|
  {
    if |a| == 0 {
      assert a + "," + b == [','] + b;
      assert (a + "," + b)[1..] == b;
    } else {
      var s := a + "," + b;
      assert s[0] == a[0];
      assert s[1..] == a[1..] + "," + b;
      SplitAfterPiece(a[1..], b);
      assert [a[0]] + a[1..] == a;
    }
  }

  /** Joining by "," and splitting on "," is the identity when no name holds a comma. */
  lemma {:induction false} SplitJoinRoundTrip(names: seq<string>)
    requires |names| > 0
    requires forall i :: 0 <= i < |names| ==> Lacks(names[i], ',')
    ensures SplitComma(JoinComma(names)) == names
    decreases |names|
  {
    if |names| == 1 {
      SplitNoComma(names[0]);
    } else {
      SplitJoinRoundTrip(names[1..]);
      SplitAfterPiece(names[0], JoinComma(names[1..]));
      assert [names[0]] + names[1..] == names;
    }
  }

  /** The joined text is empty only for the single empty name: two or more names
      leave at least one ",". */
  lemma JoinCommaEmpty(names: seq<string>)
    requires |names| > 0
    ensures JoinComma(names) == "" <==> names == [""]
  {
    if |names| > 1 {
      assert (names[0] + "," + JoinComma(names[1..]))[|names[0]|] == ',';
    }
  }

  /** A name holding a comma does not survive the round trip: ["a,b"] comes back as two tags. */
  lemma CommaBreaksRoundTrip()
    ensures SplitComma(JoinComma(["a,b"])) == ["a", "b"]
  {
    assert JoinComma(["a,b"]) == "a,b";
    assert "a,b" == "a" + "," + "b";
    SplitAfterPiece("a", "b");
    SplitNoComma("b");
  }

  /** ASCII lowering of one character (Unicode case mapping is not modelled). */
  function LowerChar(c: char): (r: char)
    ensures 'A' <= c <= 'Z' ==> 'a' <= r <= 'z'
    ensures !('A' <= c <= 'Z') ==> r == c
  {
    if 'A' <= c <= 'Z' then (c as int - 'A' as int + 'a' as int) as char else c
  }

  /** `s.lower()` restricted to ASCII letters. */
  function Lower(s: string): (r: string)
    ensures |r| == |s|
    ensures forall i :: 0 <= i < |s| ==> r[i] == LowerChar(s[i])
  {
    seq(|s|, i requires 0 <= i < |s| => LowerChar(s[i]))
  }

  /** True when `p` is a prefix of `s`. */
  predicate IsPrefix(p: string, s: string) {
    |p| <= |s| && s[..|p|] == p
  }

  /** `needle` occurs in `haystack` starting at position `k`. */
  predicate OccursAt(haystack: string, needle: string, k: nat) {
    k + |needle| <= |haystack| && haystack[k..k + |needle|] == needle
  }

  /** Python's `needle in haystack` for strings. */
  function Contains(haystack: string, needle: string): (r: bool)
    ensures r <==> exists k: nat :: OccursAt(haystack, needle, k)
    decreases |haystack|
  {
    if IsPrefix(needle, haystack) then
      assert OccursAt(haystack, needle, 0);
      true
    else if |haystack| == 0 then false
    else
      var r := Contains(haystack[1..], needle);
      assert forall k: nat :: OccursAt(haystack[1..], needle, k) <==> OccursAt(haystack, needle, k + 1) by {
        forall k: nat ensures OccursAt(haystack[1..], needle, k) <==> OccursAt(haystack, needle, k + 1) {
          if k + 1 + |needle| <= |haystack| {
            assert haystack[1..][k..k + |needle|] == haystack[k + 1..k + 1 + |needle|];
          }
        }
      }
      assert forall k: nat :: OccursAt(haystack, needle, k) ==> k > 0;
      assert forall k: nat :: OccursAt(haystack, needle, k) ==> OccursAt(haystack[1..], needle, k - 1);
      r
  }
}
