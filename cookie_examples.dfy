/**
 * Worked parses of `parseCookieMap`: each shape of cookie string is parsed
 * for arbitrary well-formed names and values, and then for concrete strings.
 */
module CookieExamples {
  import opened Text
  import opened CookieParser

  /** Trimming `" " + w` drops the single leading space. */
  lemma TrimAfterSpace(w: string)
    requires WellFormed(w)
    ensures Trim(" " + w) == w
  {
    WellFormedTrimmed(w);
    assert (" " + w)[1..] == w;
    assert StartOfContent(" " + w) == 1;
    assert EndOfContent(w) == |w|;
  }

  /** The segment `name=value` of two well-formed words pairs to exactly those words. */
  lemma EntryOfWords(name: string, value: string)
    requires WellFormed(name) && WellFormed(value)
    ensures Entry(name + "=" + value) == (name, value)
  {
    EntryOfPair(name, value);
    WellFormedTrimmed(name);
    WellFormedTrimmed(value);
  }

  /** The segment ` name=value`, as it follows `; `, pairs to the two words. */
  lemma EntryAfterSpace(name: string, value: string)
    requires WellFormed(name) && (value == "" || WellFormed(value))
    ensures Entry(" " + name + "=" + value) == (name, value)
  {
    assert '=' !in " " + name;
    EntryOfPair(" " + name, value);
    TrimAfterSpace(name);
    if value != "" {
      TrimmedAlready(value);
    }
  }

  /** A segment built from well-formed words, `=` and spaces holds no `;`. */
  lemma NoSemicolon(name: string, value: string)
    requires ';' !in name && ';' !in value
    ensures ';' !in name + "=" + value && ';' !in " " + name + "=" + value
  {
  }

  /**
   * Once the `;`-free segments a cookie string is joined from and their pairs
   * are known, its parse is the filtered association of those pairs.
   */
  lemma ParseJoined(segments: seq<string>, pairs: seq<(string, string)>)
    requires |segments| >= 1 && forall i :: 0 <= i < |segments| ==> ';' !in segments[i]
    requires |pairs| == |segments| && forall i :: 0 <= i < |segments| ==> Entry(segments[i]) == pairs[i]
    ensures ParseCookieMap(Join(segments, ';')) == KeepNonBlank(Associate(pairs))
  {
    SplitJoin(segments, ';');
    assert Entries(segments) == pairs;
  }

  /** A map whose names and values are all well-formed survives the blank filter unchanged. */
  lemma KeepWellFormed(m: CookieMap)
    requires forall k :: k in m ==> WellFormed(k) && WellFormed(m[k])
    ensures KeepNonBlank(m) == m
  {
    forall k | k in m
      ensures !IsBlank(k) && !IsBlank(m[k])
    {
      WellFormedTrimmed(k);
      WellFormedTrimmed(m[k]);
    }
  }

  /** Two segments joined by `;`. */
  lemma JoinTwo(a: string, b: string)
    ensures Join([a, b], ';') == a + ";" + b
  {
    assert [a, b][1..] == [b];
  }

  /** A single `name=value` parses to that one entry. */
  lemma ParseSinglePair(name: string, value: string)
    requires WellFormed(name) && WellFormed(value)
    ensures ParseCookieMap(name + "=" + value) == map[name := value]
  {
    var segment := name + "=" + value;
    NoSemicolon(name, value);
    EntryOfWords(name, value);
    ParseJoined([segment], [(name, value)]);
    assert Associate([(name, value)]) == map[name := value];
    KeepWellFormed(map[name := value]);
  }

  /** The layout `n1=v1; n2=v2` as two segments. */
  lemma TwoPairsLayout(n1: string, v1: string, n2: string, v2: string)
    ensures n1 + "=" + v1 + "; " + n2 + "=" + v2 == Join([n1 + "=" + v1, " " + n2 + "=" + v2], ';')
  {
    JoinTwo(n1 + "=" + v1, " " + n2 + "=" + v2);
  }

  /** Association of two pairs: the second overrides the first when the names agree. */
  lemma AssociateTwo(p: (string, string), q: (string, string))
    ensures Associate([p, q]) == map[p.0 := p.1][q.0 := q.1]
  {
    assert [p, q][..1] == [p];
    assert Associate([p]) == map[p.0 := p.1];
  }

  /** A lone `name=` with no value parses to the empty map. */
  lemma ParseBlankValue(name: string)
    requires WellFormed(name)
    ensures ParseCookieMap(name + "=") == map[]
  {
    var segment := name + "=";
    NoSemicolon(name, "");
    assert name + "=" + "" == segment;
    EntryOfPair(name, "");
    WellFormedTrimmed(name);
    assert Entry(segment) == (name, "");
    ParseJoined([segment], [(name, "")]);
    assert Associate([(name, "")]) == map[name := ""];
    assert IsBlank("");
  }

  /** `n1=v1; n2=v2` with distinct names parses to both entries. */
  lemma ParseTwoPairs(n1: string, v1: string, n2: string, v2: string)
    requires WellFormed(n1) && WellFormed(v1) && WellFormed(n2) && WellFormed(v2) && n1 != n2
    ensures ParseCookieMap(n1 + "=" + v1 + "; " + n2 + "=" + v2) == map[n1 := v1, n2 := v2]
  {
    TwoPairsLayout(n1, v1, n2, v2);
    NoSemicolon(n1, v1);
    NoSemicolon(n2, v2);
    EntryOfWords(n1, v1);
    EntryAfterSpace(n2, v2);
    ParseJoined([n1 + "=" + v1, " " + n2 + "=" + v2], [(n1, v1), (n2, v2)]);
    AssociateTwo((n1, v1), (n2, v2));
    KeepWellFormed(map[n1 := v1, n2 := v2]);
  }

  /**
   * `n=v; n=` parses to the empty map: the later, blank value of `n` replaces
   * the earlier one during association, and only then is it filtered out.
   */
  lemma ParseLastDuplicateBlank(name: string, value: string)
    requires WellFormed(name) && WellFormed(value)
    ensures ParseCookieMap(name + "=" + value + "; " + name + "=") == map[]
  {
    TwoPairsLayout(name, value, name, "");
    assert name + "=" + value + "; " + name + "=" + "" == name + "=" + value + "; " + name + "=";
    NoSemicolon(name, value);
    NoSemicolon(name, "");
    EntryOfWords(name, value);
    EntryAfterSpace(name, "");
    ParseJoined([name + "=" + value, " " + name + "=" + ""], [(name, value), (name, "")]);
    AssociateTwo((name, value), (name, ""));
    assert IsBlank("");
  }

  /** `n=v=rest` parses to {n: v}: the text from the second `=` on is discarded. */
  lemma ParseSecondEquals(name: string, value: string, rest: string)
    requires WellFormed(name) && WellFormed(value) && ';' !in rest
    ensures ParseCookieMap(name + "=" + value + "=" + rest) == map[name := value]
  {
    var segment := name + "=" + value + "=" + rest;
    NoSemicolon(name, value + "=" + rest);
    assert segment == name + "=" + (value + "=" + rest);
    EntryDropsAfterSecondEquals(name, value, rest);
    TrimmedAlready(name);
    TrimmedAlready(value);
    ParseJoined([segment], [(name, value)]);
    assert Associate([(name, value)]) == map[name := value];
    KeepWellFormed(map[name := value]);
  }

  /** A segment joined in front of at least one more. */
  lemma JoinCons(a: string, rest: seq<string>)
    requires |rest| >= 1
    ensures Join([a] + rest, ';') == a + ";" + Join(rest, ';')
  {
    assert ([a] + rest)[1..] == rest;
  }

  /** The layout `n=v;; =w; m=` as four segments. */
  lemma DropsBlanksLayout(n: string, v: string, w: string, m: string)
    ensures n + "=" + v + ";; =" + w + "; " + m + "=" ==
      Join([n + "=" + v, "", " =" + w, " " + m + "="], ';')
  {
    var first, third, fourth := n + "=" + v, " =" + w, " " + m + "=";
    JoinTwo(third, fourth);
    JoinCons("", [third, fourth]);
    assert [""] + [third, fourth] == ["", third, fourth];
    JoinCons(first, ["", third, fourth]);
    assert [first] + ["", third, fourth] == [first, "", third, fourth];
    assert n + "=" + v + ";; =" + w + "; " + m + "=" == first + ";" + ("" + ";" + (third + ";" + fourth));
  }

  /** The pairs of the empty segment and of a segment ` =w`: both have an empty name. */
  lemma EntriesWithoutName(w: string)
    requires WellFormed(w)
    ensures Entry("") == ("", "") && Entry(" =" + w) == ("", w)
  {
    assert Split("", '=') == [""];
    assert " =" + w == " " + "=" + w;
    EntryOfPair(" ", w);
    assert IsWhitespace(" "[0]);
    TrimmedAlready(w);
  }

  /** Association of the four pairs of `n=v;; =w; m=`. */
  lemma AssociateFour(n: string, v: string, w: string, m: string)
    ensures Associate([(n, v), ("", ""), ("", w), (m, "")]) == map[n := v]["" := ""]["" := w][m := ""]
  {
    var pairs := [(n, v), ("", ""), ("", w), (m, "")];
    assert pairs[..3] == [(n, v), ("", ""), ("", w)];
    assert pairs[..3][..2] == [(n, v), ("", "")];
    AssociateTwo((n, v), ("", ""));
  }

  /** The four segments of `n=v;; =w; m=` hold no `;` and pair to (n, v), ("", ""), ("", w) and (m, ""). */
  lemma DropsBlanksSegments(n: string, v: string, w: string, m: string)
    requires WellFormed(n) && WellFormed(v) && WellFormed(w) && WellFormed(m)
    ensures var segments := [n + "=" + v, "", " =" + w, " " + m + "="];
      forall i :: 0 <= i < 4 ==> ';' !in segments[i]
    ensures Entry(n + "=" + v) == (n, v) && Entry("") == ("", "")
    ensures Entry(" =" + w) == ("", w) && Entry(" " + m + "=") == (m, "")
  {
    NoSemicolon(n, v);
    NoSemicolon(m, "");
    NoSemicolon("", w);
    assert " " + m + "=" + "" == " " + m + "=";
    assert " " + "" + "=" + w == " =" + w;
    EntryOfWords(n, v);
    EntriesWithoutName(w);
    EntryAfterSpace(m, "");
  }

  /** The blank filter applied to the association of `n=v;; =w; m=`. */
  lemma DropsBlanksFilter(n: string, v: string, w: string, m: string)
    requires WellFormed(n) && WellFormed(v) && n != m
    ensures KeepNonBlank(map[n := v]["" := ""]["" := w][m := ""]) == map[n := v]
  {
    WellFormedTrimmed(n);
    WellFormedTrimmed(v);
    assert IsBlank("");
  }

  /**
   * `n=v;; =w; m=` parses to {n: v}: the empty segment, the segment with a
   * blank name and the segment with a blank value are all dropped.
   */
  lemma ParseDropsBlanks(n: string, v: string, w: string, m: string)
    requires WellFormed(n) && WellFormed(v) && WellFormed(w) && WellFormed(m) && n != m
    ensures ParseCookieMap(n + "=" + v + ";; =" + w + "; " + m + "=") == map[n := v]
  {
    var segments := [n + "=" + v, "", " =" + w, " " + m + "="];
    var pairs := [(n, v), ("", ""), ("", w), (m, "")];
    DropsBlanksLayout(n, v, w, m);
    DropsBlanksSegments(n, v, w, m);
    ParseJoined(segments, pairs);
    AssociateFour(n, v, w, m);
    DropsBlanksFilter(n, v, w, m);
  }

  /** `cf_clearance=abc; other=1` parses to {cf_clearance: abc, other: 1}. */
  lemma ParseClearance()
    ensures ParseCookieMap("cf_clearance" + "=" + "abc" + "; " + "other" + "=" + "1") ==
      map["cf_clearance" := "abc", "other" := "1"]
  {
    ParseTwoPairs("cf_clearance", "abc", "other", "1");
  }

  /** `a=1; a=` parses to the empty map. */
  lemma ParseDuplicateExample()
    ensures ParseCookieMap("a" + "=" + "1" + "; " + "a" + "=") == map[]
  {
    ParseLastDuplicateBlank("a", "1");
  }

  /** `a=1; b=2` parses to {a: 1, b: 2}. */
  lemma ParseTwoPairsExample()
    ensures ParseCookieMap("a" + "=" + "1" + "; " + "b" + "=" + "2") == map["a" := "1", "b" := "2"]
  {
    ParseTwoPairs("a", "1", "b", "2");
  }

  /** `a=1;; =2; c=` parses to {a: 1}. */
  lemma ParseDropsBlanksExample()
    ensures ParseCookieMap("a" + "=" + "1" + ";; =" + "2" + "; " + "c" + "=") == map["a" := "1"]
  {
    ParseDropsBlanks("a", "1", "2", "c");
  }

  /** `a=b=c` parses to {a: b}. */
  lemma ParseSecondEqualsExample()
    ensures ParseCookieMap("a" + "=" + "b" + "=" + "c") == map["a" := "b"]
  {
    ParseSecondEquals("a", "b", "c");
  }
}
