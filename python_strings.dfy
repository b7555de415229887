/**
 * The few Python string operations the scraper relies on: `str.isspace`,
 * `str.strip`, `str.split` on one character, `str.join`, the `\d` class,
 * substring occurrence and the part of a string that `.` can reach.
 */
module PyStrings {

  /** Python's `str.isspace` on one character. */
  predicate IsSpace(c: char) {
    || '\t' <= c <= '\r'
    || '\U{1c}' <= c <= '\U{1f}'
    || c == ' '
    || c == '\U{85}'
    || c == '\U{a0}'
    || c == '\U{1680}'
    || '\U{2000}' <= c <= '\U{200a}'
    || c == '\U{2028}'
    || c == '\U{2029}'
    || c == '\U{202f}'
    || c == '\U{205f}'
    || c == '\U{3000}'
  }

  /** A string with no whitespace at either end. */
  predicate IsStripped(s: string) {
    s == [] || (!IsSpace(s[0]) && !IsSpace(s[|s| - 1]))
  }

  predicate AllSpace(s: string) {
    forall k :: 0 <= k < |s| ==> IsSpace(s[k])
  }

  /** Drops leading whitespace; what is left is a suffix of `s`. */
  function TrimStart(s: string): (r: string)
    ensures |r| <= |s| && r == s[|s| - |r|..]
    ensures r == [] || !IsSpace(r[0])
    ensures forall k :: 0 <= k < |s| - |r| ==> IsSpace(s[k])
  {
    if s != [] && IsSpace(s[0]) then
      var r := TrimStart(s[1..]);
      assert s[1..][|s| - 1 - |r|..] == s[|s| - |r|..];
      r
    else s
  }

  /** Drops trailing whitespace; what is left is a prefix of `s`. */
  function TrimEnd(s: string): (r: string)
    ensures |r| <= |s| && r == s[..|r|]
    ensures r == [] || !IsSpace(r[|r| - 1])
    ensures forall k :: |r| <= k < |s| ==> IsSpace(s[k])
  {
    if s != [] && IsSpace(s[|s| - 1]) then
      var r := TrimEnd(s[..|s| - 1]);
      assert s[..|s| - 1][..|r|] == s[..|r|];
      r
    else s
  }

  /** `r` is `s` with only whitespace cut off before index `i` and after `i + |r|`. */
  predicate TrimmedAt(s: string, r: string, i: int) {
    0 <= i <= |s| - |r| && r == s[i..i + |r|] && AllSpace(s[..i]) && AllSpace(s[i + |r|..])
  }

  /** Python's `str.strip()` with no argument: the middle of `s`, with only whitespace cut off either side. */
  function Strip(s: string): (r: string)
    ensures IsStripped(r)
    ensures |r| <= |s|
    ensures r == [] <==> AllSpace(s)
    ensures exists i :: TrimmedAt(s, r, i)
  {
    var t := TrimStart(s);
    var r := TrimEnd(t);
    StripEnds(s, t, r);
    StripMiddle(s, t, r);
    r
  }

  /** Trimming both ends leaves no whitespace at either end, and nothing only when `s` is all whitespace. */
  lemma StripEnds(s: string, t: string, r: string)
    requires |t| <= |s| && t == s[|s| - |t|..] && (t == [] || !IsSpace(t[0])) && forall k :: 0 <= k < |s| - |t| ==> IsSpace(s[k])
    requires |r| <= |t| && r == t[..|r|] && (r == [] || !IsSpace(r[|r| - 1])) && forall k :: |r| <= k < |t| ==> IsSpace(t[k])
    ensures IsStripped(r) && (r == [] <==> AllSpace(s))
  {
    if r != [] {
      assert r[0] == t[0] == s[|s| - |t|];
    }
  }

  /** What trimming both ends keeps sits at `|s| - |t|`, with whitespace on either side of it. */
  lemma StripMiddle(s: string, t: string, r: string)
    requires |t| <= |s| && t == s[|s| - |t|..] && forall k :: 0 <= k < |s| - |t| ==> IsSpace(s[k])
    requires |r| <= |t| && r == t[..|r|] && forall k :: |r| <= k < |t| ==> IsSpace(t[k])
    ensures TrimmedAt(s, r, |s| - |t|)
  {
    var i := |s| - |t|;
    var before, after := s[..i], s[i + |r|..];
    forall k | 0 <= k < |after|
      ensures IsSpace(after[k])
    {
      assert after[k] == t[|r| + k];
    }
    assert forall k :: 0 <= k < |before| ==> before[k] == s[k];
  }

  /** `Strip(s)` is the only stripped string that whitespace alone surrounds in `s`. */
  lemma StripUnique(s: string, x: string, i: int)
    requires TrimmedAt(s, x, i) && IsStripped(x)
    ensures x == Strip(s)
  {
    var r := Strip(s);
    var j :| TrimmedAt(s, r, j);
    TrimmedAtSpaces(s, x, i);
    if x != [] {
      assert x[0] == s[i];
      StripUniqueBounds(s, x, i, r, j);
    }
  }

  /** Stripping a stripped string padded with whitespace gives the string back. */
  lemma StripPadded(before: string, x: string, after: string)
    requires AllSpace(before) && IsStripped(x) && AllSpace(after)
    ensures Strip(before + x + after) == x
  {
    var s := before + x + after;
    assert s[..|before|] == before && s[|before|..|before| + |x|] == x && s[|before| + |x|..] == after;
    StripUnique(s, x, |before|);
  }

  /** Everything before index `i` and after the kept middle is whitespace. */
  lemma TrimmedAtSpaces(s: string, x: string, i: int)
    requires TrimmedAt(s, x, i)
    ensures forall k :: 0 <= k < i ==> IsSpace(s[k])
    ensures forall k :: i + |x| <= k < |s| ==> IsSpace(s[k])
  {
    var before, after := s[..i], s[i + |x|..];
    assert forall k :: 0 <= k < i ==> s[k] == before[k];
    assert forall k :: i + |x| <= k < |s| ==> s[k] == after[k - i - |x|];
  }

  /** Two non-empty stripped middles of `s` start and end at the same places. */
  lemma StripUniqueBounds(s: string, x: string, i: int, r: string, j: int)
    requires TrimmedAt(s, x, i) && IsStripped(x) && x != []
    requires TrimmedAt(s, r, j) && IsStripped(r) && r != []
    ensures x == r
  {
    TrimmedAtSpaces(s, x, i);
    TrimmedAtSpaces(s, r, j);
    assert x[0] == s[i] && x[|x| - 1] == s[i + |x| - 1];
    assert r[0] == s[j] && r[|r| - 1] == s[j + |r| - 1];
  }

  lemma StripStripped(s: string)
    requires IsStripped(s)
    ensures Strip(s) == s
  {
  }

  lemma StripIdempotent(s: string)
    ensures Strip(Strip(s)) == Strip(s)
  {
    StripStripped(Strip(s));
  }

  /**
   * What BeautifulSoup's `stripped_strings` produces from a tag's text
   * strings: each one stripped, the ones left empty skipped.
   */
  function StrippedStrings(texts: seq<string>): seq<string> {
    if texts == [] then []
    else
      var head := Strip(texts[0]);
      (if head == [] then [] else [head]) + StrippedStrings(texts[1..])
  }

  /** `stripped_strings` yields at most one string per text, each non-empty and stripped. */
  lemma {:induction false} StrippedStringsClean(texts: seq<string>)
    ensures |StrippedStrings(texts)| <= |texts|
    ensures forall k :: 0 <= k < |StrippedStrings(texts)| ==>
              StrippedStrings(texts)[k] != [] && IsStripped(StrippedStrings(texts)[k])
  {
    if texts != [] {
      var head, rest := Strip(texts[0]), StrippedStrings(texts[1..]);
      StrippedStringsClean(texts[1..]);
      if head != [] {
        var r := [head] + rest;
        assert StrippedStrings(texts) == r;
        forall k | 0 <= k < |r|
          ensures r[k] != [] && IsStripped(r[k])
        {
          if k > 0 {
            assert r[k] == rest[k - 1];
          }
        }
      }
    }
  }

  /** `stripped_strings` of consecutive texts is the strings of each, in order. */
  lemma {:induction false} StrippedStringsAppend(a: seq<string>, b: seq<string>)
    ensures StrippedStrings(a + b) == StrippedStrings(a) + StrippedStrings(b)
  {
    if a == [] {
      assert a + b == b;
    } else {
      var ab := a + b;
      assert ab != [] && ab[0] == a[0] && ab[1..] == a[1..] + b;
      StrippedStringsAppend(a[1..], b);
      var head := Strip(a[0]);
      var first := if head == [] then [] else [head];
      var x, y := StrippedStrings(a[1..]), StrippedStrings(b);
      assert StrippedStrings(ab) == first + (x + y);
      assert StrippedStrings(a) == first + x;
      ConcatAssoc(first, x, y);
    }
  }

  /** Concatenation can be regrouped. */
  lemma ConcatAssoc<T>(a: seq<T>, b: seq<T>, c: seq<T>)
    ensures a + (b + c) == (a + b) + c
  {
  }

  /** Python's `sep.join(parts)`. */
  function Join(parts: seq<string>, sep: string): string {
    if parts == [] then []
    else if |parts| == 1 then parts[0]
    else parts[0] + sep + Join(parts[1..], sep)
  }

  /** Joining two lists is joining each, with one separator between them when both are non-empty. */
  lemma {:induction false} JoinAppend(p: seq<string>, q: seq<string>, sep: string)
    ensures Join(p + q, sep) ==
      if p == [] then Join(q, sep)
      else if q == [] then Join(p, sep)
      else Join(p, sep) + sep + Join(q, sep)
  {
    if p == [] {
      assert p + q == q;
    } else if q == [] {
      assert p + q == p;
    } else {
      assert (p + q)[0] == p[0] && (p + q)[1..] == p[1..] + q;
      if |p| > 1 {
        JoinAppend(p[1..], q, sep);
        assert Join(p + q, sep) == p[0] + sep + (Join(p[1..], sep) + sep + Join(q, sep));
      }
    }
  }

  /**
   * Python's `s.split(sep)` for a one-character separator: the pieces
   * between separators, empty pieces included, always at least one.
   */
  function Split(s: string, sep: char): (r: seq<string>)
    ensures |r| >= 1
  {
    if s == [] then [[]]
    else
      var rest := Split(s[1..], sep);
      if s[0] == sep then [[]] + rest
      else [[s[0]] + rest[0]] + rest[1..]
  }

  /** Every occurrence of `old_` replaced by `new_`, character by character. */
  function Replace(s: string, old_: char, new_: char): (r: string)
    ensures |r| == |s|
  {
    seq(|s|, i requires 0 <= i < |s| => if s[i] == old_ then new_ else s[i])
  }

  /** Joining the pieces of a split with a one-character separator replaces that character. */
  lemma {:induction false} JoinSplitReplaces(s: string, c: char, d: char)
    ensures Join(Split(s, c), [d]) == Replace(s, c, d)
  {
    if s != [] {
      var rest := Split(s[1..], c);
      JoinSplitReplaces(s[1..], c, d);
      assert Replace(s, c, d) == [if s[0] == c then d else s[0]] + Replace(s[1..], c, d);
      if s[0] == c {
        assert Join(Split(s, c), [d]) == [] + [d] + Join(rest, [d]);
      } else if |rest| == 1 {
        assert Join(Split(s, c), [d]) == [s[0]] + rest[0];
      } else {
        assert Join(Split(s, c), [d]) == ([s[0]] + rest[0]) + [d] + Join(rest[1..], [d]);
        assert Join(rest, [d]) == rest[0] + [d] + Join(rest[1..], [d]);
      }
    }
  }

  /** A string joined from non-empty stripped parts with a space between them is itself stripped. */
  lemma {:induction false} JoinStripped(parts: seq<string>)
    requires forall k :: 0 <= k < |parts| ==> parts[k] != [] && IsStripped(parts[k])
    ensures IsStripped(Join(parts, " "))
    ensures parts != [] ==> Join(parts, " ") != []
  {
    if |parts| > 1 {
      JoinStripped(parts[1..]);
      var tail := Join(parts[1..], " ");
      var r := parts[0] + " " + tail;
      assert r[0] == parts[0][0];
      assert r[|r| - 1] == tail[|tail| - 1];
    }
  }

  /** `\d`, restricted to the ASCII digits. */
  predicate IsDigit(c: char) {
    '0' <= c <= '9'
  }

  predicate AllDigits(s: string) {
    forall k :: 0 <= k < |s| ==> IsDigit(s[k])
  }

  /** The end of the longest run of digits that starts at `i` (`i` itself when there is none). */
  function DigitsEnd(s: string, i: nat): (e: nat)
    requires i <= |s|
    ensures i <= e <= |s|
    decreases |s| - i
  {
    if i < |s| && IsDigit(s[i]) then DigitsEnd(s, i + 1) else i
  }

  /** The digits from `i` run exactly to `DigitsEnd(s, i)`: all digits before it, none at it. */
  lemma {:induction false} DigitsEndShape(s: string, i: nat)
    requires i <= |s|
    ensures AllDigits(s[i..DigitsEnd(s, i)])
    ensures DigitsEnd(s, i) == |s| || !IsDigit(s[DigitsEnd(s, i)])
    decreases |s| - i
  {
    if i < |s| && IsDigit(s[i]) {
      DigitsEndShape(s, i + 1);
      var e := DigitsEnd(s, i);
      forall k | 0 <= k < e - i
        ensures IsDigit(s[i..e][k])
      {
        if k > 0 {
          assert s[i..e][k] == s[i + 1..e][k - 1];
        }
      }
    }
  }

  /** A run of digits from `i` that stops at `e` is exactly the run `DigitsEnd` finds. */
  lemma {:induction false} DigitsEndAt(s: string, i: nat, e: nat)
    requires i <= e <= |s| && AllDigits(s[i..e]) && (e == |s| || !IsDigit(s[e]))
    ensures DigitsEnd(s, i) == e
    decreases e - i
  {
    if i < e {
      var run, tail := s[i..e], s[i + 1..e];
      assert IsDigit(run[0]);
      forall k | 0 <= k < |tail|
        ensures IsDigit(tail[k])
      {
        assert tail[k] == run[k + 1];
      }
      DigitsEndAt(s, i + 1, e);
    }
  }

  /** `pat` occurs in `s` starting at index `i`. */
  predicate OccursAt(s: string, pat: string, i: int) {
    0 <= i && i + |pat| <= |s| && s[i..i + |pat|] == pat
  }

  /** Each character of an occurrence is the pattern's character at the same offset. */
  lemma OccursAtChar(s: string, pat: string, i: int, k: nat)
    requires k < |pat|
    ensures OccursAt(s, pat, i) ==> s[i + k] == pat[k]
  {
    if OccursAt(s, pat, i) {
      assert s[i..i + |pat|][k] == pat[k];
    }
  }

  predicate Contains(s: string, pat: string) {
    exists i | 0 <= i <= |s| :: OccursAt(s, pat, i)
  }

  /** The text before the first line break: the only part a regex `.` can reach from the start. */
  function FirstLine(s: string): (r: string)
    ensures |r| <= |s| && r == s[..|r|]
    ensures '\n' !in r
    ensures |r| < |s| ==> s[|r|] == '\n'
  {
    if s == [] || s[0] == '\n' then [] else [s[0]] + FirstLine(s[1..])
  }

  /** A string with no line break is its own first line. */
  lemma FirstLineWhole(s: string)
    requires '\n' !in s
    ensures FirstLine(s) == s
  {
  }
}
