/**
 * The Kotlin standard-library string operations that `parseCookieMap` and
 * `trySolveWithSavedCookies` are built from: `Char.isWhitespace`,
 * `CharSequence.isBlank`, `String.trim`, `String.split` on a one-character
 * delimiter and `CharSequence.contains`.
 *
 * The functions carry only the facts their own bodies need; what they
 * compute is stated by the lemmas beside them, so that evaluating them on
 * concrete strings stays cheap.
 */
module Text {

  /**
   * Kotlin's `Char.isWhitespace()` on the JVM: `Character.isWhitespace` or
   * `Character.isSpaceChar`, i.e. the controls U+0009..U+000D and
   * U+001C..U+001F and every character of the Unicode categories Zs, Zl and Zp.
   */
  predicate IsWhitespace(c: char) {
    var n := c as int;
    || (0x09 <= n <= 0x0D)
    || (0x1C <= n <= 0x20)
    || n == 0xA0
    || n == 0x1680
    || (0x2000 <= n <= 0x200A)
    || n == 0x2028
    || n == 0x2029
    || n == 0x202F
    || n == 0x205F
    || n == 0x3000
  }

  /** `CharSequence.isBlank()`: empty or whitespace only. */
  predicate IsBlank(s: string) {
    forall i :: 0 <= i < |s| ==> IsWhitespace(s[i])
  }

  /** The index of the first non-whitespace character of `s` (`|s|` when there is none). */
  function StartOfContent(s: string): (k: nat)
    ensures k <= |s|
  {
    if |s| > 0 && IsWhitespace(s[0]) then 1 + StartOfContent(s[1..]) else 0
  }

  /** Everything before `StartOfContent(s)` is whitespace and the character at it is not. */
  lemma {:induction false} StartOfContentSpec(s: string)
    ensures IsBlank(s[..StartOfContent(s)])
    ensures StartOfContent(s) == |s| || !IsWhitespace(s[StartOfContent(s)])
  {
    if |s| > 0 && IsWhitespace(s[0]) {
      StartOfContentSpec(s[1..]);
      var k := StartOfContent(s[1..]);
      assert s[..k + 1] == [s[0]] + s[1..][..k];
    }
  }

  /** The index just past the last non-whitespace character of `s` (0 when there is none). */
  function EndOfContent(s: string): (k: nat)
    ensures k <= |s|
  {
    if |s| > 0 && IsWhitespace(s[|s| - 1]) then EndOfContent(s[..|s| - 1]) else |s|
  }

  /** Everything from `EndOfContent(s)` on is whitespace and the character before it is not. */
  lemma {:induction false} EndOfContentSpec(s: string)
    ensures IsBlank(s[EndOfContent(s)..])
    ensures EndOfContent(s) == 0 || !IsWhitespace(s[EndOfContent(s) - 1])
  {
    if |s| > 0 && IsWhitespace(s[|s| - 1]) {
      var t := s[..|s| - 1];
      EndOfContentSpec(t);
      var k := EndOfContent(t);
      assert s[k..] == t[k..] + [s[|s| - 1]];
    }
  }

  /** `String.trim()`: drops the leading and the trailing whitespace. */
  function Trim(s: string): (r: string) {
    var t := s[StartOfContent(s)..];
    t[..EndOfContent(t)]
  }

  /** `r` sits at offset `i` of `s` with only whitespace before and after it. */
  predicate FramedBy(s: string, r: string, i: int) {
    0 <= i <= |s| - |r| && s[i..i + |r|] == r && IsBlank(s[..i]) && IsBlank(s[i + |r|..])
  }

  /**
   * What `Trim` computes: `s` is the trimmed string with a blank prefix and a
   * blank suffix around it; the trimmed string is empty exactly when `s` is
   * blank, and otherwise neither starts nor ends with whitespace.
   */
  lemma TrimSpec(s: string)
    ensures exists i :: FramedBy(s, Trim(s), i)
    ensures Trim(s) == [] || (!IsWhitespace(Trim(s)[0]) && !IsWhitespace(Trim(s)[|Trim(s)| - 1]))
    ensures Trim(s) == [] <==> IsBlank(s)
  {
    var i := StartOfContent(s);
    var t := s[i..];
    var r := Trim(s);
    StartOfContentSpec(s);
    EndOfContentSpec(t);
    assert s[i..i + |r|] == r;
    assert s[i + |r|..] == t[|r|..];
    assert FramedBy(s, r, i);
  }

  /** Every character of `Trim(s)` is a character of `s`. */
  lemma TrimSubset(s: string)
    ensures forall c :: c in Trim(s) ==> c in s
  {
    var r := Trim(s);
    TrimSpec(s);
    var i :| FramedBy(s, r, i);
    forall c | c in r ensures c in s {
      var k :| 0 <= k < |r| && r[k] == c;
      assert s[i..i + |r|][k] == c;
    }
  }

  /** A trimmed string is left alone by a second trim. */
  lemma TrimIdempotent(s: string)
    ensures Trim(Trim(s)) == Trim(s)
  {
    var r := Trim(s);
    TrimSpec(s);
    TrimmedAlready(r);
  }

  /** A string that neither starts nor ends with whitespace is its own trim. */
  lemma TrimmedAlready(w: string)
    requires w == [] || (!IsWhitespace(w[0]) && !IsWhitespace(w[|w| - 1]))
    ensures Trim(w) == w
  {
    assert StartOfContent(w) == 0;
    assert w[0..] == w;
    assert EndOfContent(w) == |w|;
  }

  /** After trimming, blank and empty coincide: `isNotBlank` on a trimmed string tests that it is non-empty. */
  lemma TrimmedBlankIsEmpty(s: string)
    ensures IsBlank(Trim(s)) <==> Trim(s) == []
  {
    TrimSpec(s);
    var r := Trim(s);
    if r != [] {
      assert !IsWhitespace(r[0]);
    }
  }

  /** `parts` glued back together with `sep` between consecutive parts. */
  function Join(parts: seq<string>, sep: char): (s: string)
    requires |parts| >= 1
  {
    if |parts| == 1 then parts[0] else parts[0] + [sep] + Join(parts[1..], sep)
  }

  /**
   * Kotlin's `String.split(delimiter)` with no limit: every occurrence of
   * `sep` cuts, and empty pieces (leading, trailing, between two adjacent
   * delimiters) are kept, so the result is never empty.
   */
  function Split(s: string, sep: char): (parts: seq<string>)
    ensures |parts| >= 1
  {
    if |s| == 0 then [""]
    else
      var rest := Split(s[1..], sep);
      if s[0] == sep then [""] + rest
      else [[s[0]] + rest[0]] + rest[1..]
  }

  /** No piece contains the separator, and every character of a piece comes from `s`. */
  lemma {:induction false} SplitPieces(s: string, sep: char)
    ensures forall i :: 0 <= i < |Split(s, sep)| ==> sep !in Split(s, sep)[i]
    ensures forall i, c :: 0 <= i < |Split(s, sep)| && c in Split(s, sep)[i] ==> c in s
  {
    if |s| > 0 {
      SplitPieces(s[1..], sep);
      assert forall c :: c in s[1..] ==> c in s;
      var rest := Split(s[1..], sep);
      if s[0] != sep {
        assert Split(s, sep)[1..] == rest[1..];
      }
    }
  }

  /** Splitting and joining again gives back the original string. */
  lemma {:induction false} JoinSplit(s: string, sep: char)
    ensures Join(Split(s, sep), sep) == s
  {
    if |s| > 0 {
      var rest := Split(s[1..], sep);
      JoinSplit(s[1..], sep);
      if s[0] != sep {
        var parts := Split(s, sep);
        assert parts[0] == [s[0]] + rest[0];
        if |rest| > 1 {
          assert parts[1..] == rest[1..];
          assert Join(rest, sep) == rest[0] + [sep] + Join(rest[1..], sep);
        }
        assert s == [s[0]] + s[1..];
      }
    }
  }

  /** A string without the separator splits into itself alone. */
  lemma {:induction false} SplitNoSeparator(s: string, sep: char)
    requires sep !in s
    ensures Split(s, sep) == [s]
  {
    if |s| > 0 {
      SplitNoSeparator(s[1..], sep);
      assert [s[0]] + s[1..] == s;
    }
  }

  /** Splitting `p + [sep] + t`, where `p` holds no separator, yields `p` followed by the pieces of `t`. */
  lemma {:induction false} SplitPrefix(p: string, sep: char, t: string)
    requires sep !in p
    ensures Split(p + [sep] + t, sep) == [p] + Split(t, sep)
  {
    if |p| == 0 {
      assert p + [sep] + t == [sep] + t;
      assert ([sep] + t)[1..] == t;
    } else {
      SplitPrefix(p[1..], sep, t);
      assert (p + [sep] + t)[1..] == p[1..] + [sep] + t;
      assert [p[0]] + p[1..] == p;
    }
  }

  /** Joining parts that contain no separator and splitting again gives back the parts. */
  lemma {:induction false} SplitJoin(parts: seq<string>, sep: char)
    requires |parts| >= 1
    requires forall i :: 0 <= i < |parts| ==> sep !in parts[i]
    ensures Split(Join(parts, sep), sep) == parts
  {
    if |parts| == 1 {
      SplitNoSeparator(parts[0], sep);
    } else {
      SplitJoin(parts[1..], sep);
      SplitPrefix(parts[0], sep, Join(parts[1..], sep));
      assert parts == [parts[0]] + parts[1..];
    }
  }

  /** `t` occurs in `s` starting at index `i`. */
  predicate OccursAt(s: string, t: string, i: int) {
    0 <= i <= |s| - |t| && s[i..i + |t|] == t
  }

  /** Kotlin's `CharSequence.contains(other)`: scans `s` for an occurrence of `t`. */
  function Contains(s: string, t: string): (found: bool) {
    if |t| <= |s| && s[..|t|] == t then true
    else if |s| <= |t| then false
    else Contains(s[1..], t)
  }

  /** `Contains` holds exactly when `t` occurs somewhere in `s` (the empty string occurs in every string). */
  lemma {:induction false} ContainsSpec(s: string, t: string)
    ensures Contains(s, t) <==> exists i :: OccursAt(s, t, i)
  {
    if |t| <= |s| && s[..|t|] == t {
      assert OccursAt(s, t, 0);
    } else if |s| > |t| {
      ContainsSpec(s[1..], t);
      assert forall i :: OccursAt(s, t, i) ==> i >= 1 && OccursAt(s[1..], t, i - 1);
      assert forall i :: OccursAt(s[1..], t, i) ==> OccursAt(s, t, i + 1);
    }
  }
}
