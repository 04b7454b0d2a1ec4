/** The string operations the controllers rely on: `toLowerCase`, `trim` and `split('.')`. */
module Text {

  /** Lower-casing of one character (ASCII letters only). */
  function LowerChar(c: char): char {
    if 'A' <= c <= 'Z' then (c as int + 32) as char else c
  }

  predicate IsLowerChar(c: char) {
    !('A' <= c <= 'Z')
  }

  /** `s.toLowerCase()`: same length, every character lower-cased, no upper-case letter left. */
  function Lower(s: string): (r: string)
    ensures |r| == |s|
    ensures forall i :: 0 <= i < |s| ==> r[i] == LowerChar(s[i]) && IsLowerChar(r[i])
  {
    if s == [] then [] else [LowerChar(s[0])] + Lower(s[1..])
  }

  /** A string without upper-case letters is its own lower-case form. */
  lemma {:induction false} LowerOfLowerCase(s: string)
    requires forall i :: 0 <= i < |s| ==> IsLowerChar(s[i])
    ensures Lower(s) == s
  {
    if s != [] {
      LowerOfLowerCase(s[1..]);
    }
  }

  /** Lower-casing twice is lower-casing once. */
  lemma LowerIdempotent(s: string)
    ensures Lower(Lower(s)) == Lower(s)
  {
    LowerOfLowerCase(Lower(s));
  }

  /** The code points JavaScript's `trim` removes: WhiteSpace and LineTerminator. */
  predicate IsSpace(c: char) {
    var n := c as int;
    n == 0x09 || n == 0x0A || n == 0x0B || n == 0x0C || n == 0x0D || n == 0x20 ||
    n == 0xA0 || n == 0x1680 || (0x2000 <= n <= 0x200A) || n == 0x2028 || n == 0x2029 ||
    n == 0x202F || n == 0x205F || n == 0x3000 || n == 0xFEFF
  }

  predicate AllSpace(s: string) {
    forall i :: 0 <= i < |s| ==> IsSpace(s[i])
  }

  /** Strips leading white space: the result is a suffix of `s`, what was cut is all
      white space, and the result does not start with white space. */
  function TrimStart(s: string): (r: string)
    ensures |r| <= |s| && r == s[|s| - |r|..]
    ensures AllSpace(s[..|s| - |r|])
    ensures r == [] || !IsSpace(r[0])
  {
    if s != [] && IsSpace(s[0]) then
      var r := TrimStart(s[1..]);
      assert s[1..][|s| - 1 - |r|..] == s[|s| - |r|..];
      assert forall i :: 1 <= i < |s| - |r| ==> s[i] == s[1..][..|s| - 1 - |r|][i - 1];
      r
    else
      s
  }

  /** Strips trailing white space: the result is a prefix of `s`, what was cut is all
      white space, and the result does not end with white space. */
  function TrimEnd(s: string): (r: string)
    ensures |r| <= |s| && r == s[..|r|]
    ensures AllSpace(s[|r|..])
    ensures r == [] || !IsSpace(r[|r| - 1])
  {
    if s != [] && IsSpace(s[|s| - 1]) then TrimEnd(s[..|s| - 1]) else s
  }

  /** `s.trim()`: white space stripped from both ends; the result is no longer than `s`
      and neither starts nor ends with white space. */
  function Trim(s: string): (r: string)
    ensures |r| <= |s|
    ensures r == [] || (!IsSpace(r[0]) && !IsSpace(r[|r| - 1]))
  {
    TrimStart(TrimEnd(s))
  }

  /** White space around a text that neither starts nor ends with white space is exactly
      what `trim` removes. */
  lemma TrimPadded(before: string, t: string, after: string)
    requires AllSpace(before) && AllSpace(after)
    requires t != [] && !IsSpace(t[0]) && !IsSpace(t[|t| - 1])
    ensures Trim(before + t + after) == t
  {
    var s := before + t + after;
    var e := TrimEnd(s);
    var m := |before| + |t|;
    assert s[m - 1] == t[|t| - 1];
    assert e == before + t;
    var r := TrimStart(e);
    assert e[|before|] == t[0];
    assert r == t;
  }

  /** An all-white-space text loses everything to `trimEnd`. */
  lemma {:induction false} TrimEndAllSpace(s: string)
    requires AllSpace(s)
    ensures TrimEnd(s) == []
  {
    if s != [] {
      assert IsSpace(s[|s| - 1]);
      var init := s[..|s| - 1];
      assert AllSpace(init) by {
        forall k | 0 <= k < |init|
          ensures IsSpace(init[k])
        {
          assert init[k] == s[k];
        }
      }
      TrimEndAllSpace(init);
    }
  }

  /** `trim` leaves nothing exactly when the text is all white space. */
  lemma TrimAllSpace(s: string)
    ensures Trim(s) == [] <==> AllSpace(s)
  {
    var e := TrimEnd(s);
    if AllSpace(s) {
      TrimEndAllSpace(s);
    }
    if Trim(s) == [] {
      assert e[..|e|] == e;
      assert s[|e|..] == s;
    }
  }

  /** The pieces of `parts` glued back together with '.' between them. */
  function Join(parts: seq<string>): string
    requires |parts| >= 1
  {
    if |parts| == 1 then parts[0] else parts[0] + "." + Join(parts[1..])
  }

  /** `h` is what JavaScript's `s.split('.')[0]` yields: the text before the first dot. */
  predicate IsFirstSegment(h: string, s: string) {
    |h| <= |s| && h == s[..|h|] && '.' !in h && (|h| == |s| || s[|h|] == '.')
  }

  /** `t` is what `s.split('.')` yields last: the text after the last dot. */
  predicate IsLastSegment(t: string, s: string) {
    |t| <= |s| && t == s[|s| - |t|..] && '.' !in t && (|t| == |s| || s[|s| - |t| - 1] == '.')
  }

  /** `s.split('.')`: at least one piece, no piece holds a dot, and joining the pieces
      with '.' gives back `s`. */
  function Split(s: string): (parts: seq<string>)
    ensures |parts| >= 1
    ensures forall i :: 0 <= i < |parts| ==> '.' !in parts[i]
    ensures Join(parts) == s
  {
    if s == [] then [[]]
    else
      var rest := Split(s[1..]);
      if s[0] == '.' then
        var parts := [[]] + rest;
        assert parts[1..] == rest;
        parts
      else
        var parts := [[s[0]] + rest[0]] + rest[1..];
        assert parts[1..] == rest[1..];
        assert |rest| > 1 ==> Join(rest) == rest[0] + "." + Join(rest[1..]);
        parts
  }

  /** The first of dot-free pieces is the text before the first dot of their join. */
  lemma JoinFirst(parts: seq<string>)
    requires |parts| >= 1
    requires forall i :: 0 <= i < |parts| ==> '.' !in parts[i]
    ensures IsFirstSegment(parts[0], Join(parts))
  {
    if |parts| > 1 {
      var s := Join(parts);
      assert s == parts[0] + ("." + Join(parts[1..]));
      assert s[..|parts[0]|] == parts[0];
    }
  }

  /** The last of dot-free pieces is the text after the last dot of their join. */
  lemma {:induction false} JoinLast(parts: seq<string>)
    requires |parts| >= 1
    requires forall i :: 0 <= i < |parts| ==> '.' !in parts[i]
    ensures IsLastSegment(parts[|parts| - 1], Join(parts))
  {
    if |parts| > 1 {
      var rest := parts[1..];
      JoinLast(rest);
      var t, j := rest[|rest| - 1], Join(rest);
      var s := Join(parts);
      assert s == (parts[0] + ".") + j;
      assert s[|s| - |j|..] == j;
      assert t == s[|s| - |t|..];
      if |t| == |j| {
        assert s[|s| - |t| - 1] == '.';
      } else {
        assert s[|s| - |t| - 1] == j[|j| - |t| - 1];
      }
    }
  }

  /** `s.split('.')[0]` is the text before the first dot of `s`, the last piece the
      text after its last dot. */
  lemma SplitSegments(s: string)
    ensures IsFirstSegment(Split(s)[0], s)
    ensures IsLastSegment(Split(s)[|Split(s)| - 1], s)
  {
    JoinFirst(Split(s));
    JoinLast(Split(s));
  }

  /** The first segment of a string is unique. */
  lemma FirstSegmentUnique(h1: string, h2: string, s: string)
    requires IsFirstSegment(h1, s) && IsFirstSegment(h2, s)
    ensures h1 == h2
  {
  }

  /** The last segment of a string is unique. */
  lemma LastSegmentUnique(t1: string, t2: string, s: string)
    requires IsLastSegment(t1, s) && IsLastSegment(t2, s)
    ensures t1 == t2
  {
  }
}
