/**
 * `CloudflareKiller.parseCookieMap`: a raw `name=value; name2=value2` cookie
 * string, as the platform cookie store returns it, turned into a name -> value map.
 */
module CookieParser {
  import opened Text

  type CookieMap = map<string, string>

  /**
   * The name/value pair of one `;`-separated segment: the segment is split on
   * `=`, the first piece (trimmed) is the name and the second piece (trimmed)
   * the value, or "" when there is no `=`; anything after a second `=` is lost.
   */
  function Entry(segment: string): (entry: (string, string)) {
    var split := Split(segment, '=');
    (Trim(split[0]), if |split| > 1 then Trim(split[1]) else "")
  }

  /** The pair of every segment, in order. */
  function Entries(segments: seq<string>): (pairs: seq<(string, string)>) {
    seq(|segments|, i requires 0 <= i < |segments| => Entry(segments[i]))
  }

  /** Index `i` holds the last pair of `pairs` whose name is `k`. */
  predicate LastFor(pairs: seq<(string, string)>, k: string, i: int) {
    0 <= i < |pairs| && pairs[i].0 == k && forall j :: i < j < |pairs| ==> pairs[j].0 != k
  }

  /** Kotlin's `associate`, which inserts the pairs in order into a fresh map. */
  function Associate(pairs: seq<(string, string)>): (m: CookieMap) {
    if pairs == [] then map[]
    else
      var last := pairs[|pairs| - 1];
      Associate(pairs[..|pairs| - 1])[last.0 := last.1]
  }

  /** The filter of line 23: keeps the entries whose name and value are both not blank. */
  function KeepNonBlank(m: CookieMap): (kept: CookieMap) {
    map k | k in m && !IsBlank(k) && !IsBlank(m[k]) :: m[k]
  }

  /** `parseCookieMap(cookie)`: split on `;`, pair each segment, associate, then drop blank entries. */
  function ParseCookieMap(cookie: string): (parsed: CookieMap) {
    KeepNonBlank(Associate(Entries(Split(cookie, ';'))))
  }

  /**
   * What a stored cookie name or value looks like: non-empty, neither starting
   * nor ending with whitespace (so `Trim` leaves it alone), and free of `;` and `=`.
   */
  predicate WellFormed(x: string) {
    x != "" && !IsWhitespace(x[0]) && !IsWhitespace(x[|x| - 1]) && ';' !in x && '=' !in x
  }

  /**
   * What `Associate` computes: one key per name that occurs, bound to the value
   * of the LAST pair with that name (later pairs overwrite earlier ones).
   */
  lemma {:induction false} AssociateSpec(pairs: seq<(string, string)>)
    ensures forall k :: k in Associate(pairs) <==> exists i :: 0 <= i < |pairs| && pairs[i].0 == k
    ensures forall k, i :: LastFor(pairs, k, i) ==> k in Associate(pairs) && Associate(pairs)[k] == pairs[i].1
  {
    if pairs != [] {
      var init := pairs[..|pairs| - 1];
      AssociateSpec(init);
      assert forall i :: 0 <= i < |init| ==> init[i] == pairs[i];
      assert forall k, i :: LastFor(pairs, k, i) && i < |pairs| - 1 ==> LastFor(init, k, i);
    }
  }

  /** Every name of `Associate(pairs)` is bound to the value of its last pair. */
  lemma AssociateLast(pairs: seq<(string, string)>, k: string)
    requires k in Associate(pairs)
    ensures exists j :: LastFor(pairs, k, j) && pairs[j].1 == Associate(pairs)[k]
  {
    AssociateSpec(pairs);
    var i :| 0 <= i < |pairs| && pairs[i].0 == k;
    LastOccurrence(pairs, k, i);
  }

  /** When a name occurs among the pairs, some occurrence of it is the last one. */
  lemma {:induction false} LastOccurrence(pairs: seq<(string, string)>, k: string, i: int)
    requires 0 <= i < |pairs| && pairs[i].0 == k
    ensures exists j :: LastFor(pairs, k, j)
    decreases |pairs| - i
  {
    if !LastFor(pairs, k, i) {
      var j :| i < j < |pairs| && pairs[j].0 == k;
      LastOccurrence(pairs, k, j);
    }
  }

  /** The name and value of a pair are blank only when empty, since both are trimmed. */
  lemma EntryBlankIsEmpty(segment: string)
    ensures IsBlank(Entry(segment).0) <==> Entry(segment).0 == ""
    ensures IsBlank(Entry(segment).1) <==> Entry(segment).1 == ""
  {
    var split := Split(segment, '=');
    TrimmedBlankIsEmpty(split[0]);
    if |split| > 1 {
      TrimmedBlankIsEmpty(split[1]);
    }
  }

  /** The pair of a segment is trimmed, holds no `=`, and takes its characters from the segment. */
  lemma EntryFromSegment(segment: string)
    ensures Trim(Entry(segment).0) == Entry(segment).0 && Trim(Entry(segment).1) == Entry(segment).1
    ensures '=' !in Entry(segment).0 && '=' !in Entry(segment).1
    ensures forall c :: c in Entry(segment).0 ==> c in segment
    ensures forall c :: c in Entry(segment).1 ==> c in segment
  {
    var split := Split(segment, '=');
    SplitPieces(segment, '=');
    TrimIdempotent(split[0]);
    TrimSubset(split[0]);
    assert '=' !in split[0];
    if |split| > 1 {
      TrimIdempotent(split[1]);
      TrimSubset(split[1]);
      assert '=' !in split[1];
    }
  }

  /** A segment without `=` is a name with a blank value (which the filter later drops). */
  lemma EntryWithoutEquals(segment: string)
    requires '=' !in segment
    ensures Entry(segment) == (Trim(segment), "")
  {
    SplitNoSeparator(segment, '=');
  }

  /** A segment `name=value` pairs to the trimmed name and the trimmed value. */
  lemma EntryOfPair(name: string, value: string)
    requires '=' !in name && '=' !in value
    ensures Entry(name + "=" + value) == (Trim(name), Trim(value))
  {
    var segment := name + "=" + value;
    assert segment == name + ['='] + value;
    SplitPrefix(name, '=', value);
    SplitNoSeparator(value, '=');
    assert Split(segment, '=') == [name, value];
  }

  /** In a segment `name=value=rest` everything from the second `=` on is discarded. */
  lemma EntryDropsAfterSecondEquals(name: string, value: string, rest: string)
    requires '=' !in name && '=' !in value
    ensures Entry(name + "=" + value + "=" + rest) == (Trim(name), Trim(value))
  {
    var segment := name + "=" + value + "=" + rest;
    assert segment == name + ['='] + (value + ['='] + rest);
    SplitPrefix(name, '=', value + ['='] + rest);
    SplitPrefix(value, '=', rest);
    var split := Split(segment, '=');
    assert split == [name] + ([value] + Split(rest, '='));
    assert split[0] == name && split[1] == value;
  }

  /** A name present in the parse comes from a last pair carrying the stored value, and both are non-empty. */
  lemma ParseCookieMapSound(cookie: string, k: string)
    requires k in ParseCookieMap(cookie)
    ensures k != "" && ParseCookieMap(cookie)[k] != ""
    ensures exists i :: LastFor(Entries(Split(cookie, ';')), k, i) && Entries(Split(cookie, ';'))[i].1 == ParseCookieMap(cookie)[k]
  {
    var pairs := Entries(Split(cookie, ';'));
    var m := Associate(pairs);
    assert k in m && !IsBlank(k) && !IsBlank(m[k]);
    assert ParseCookieMap(cookie)[k] == m[k];
    assert IsBlank("");
    AssociateLast(pairs, k);
  }

  /** The last pair of every non-empty name with a non-empty value is in the parse. */
  lemma ParseCookieMapComplete(cookie: string, k: string, i: int)
    requires LastFor(Entries(Split(cookie, ';')), k, i)
    requires k != "" && Entries(Split(cookie, ';'))[i].1 != ""
    ensures k in ParseCookieMap(cookie) && ParseCookieMap(cookie)[k] == Entries(Split(cookie, ';'))[i].1
  {
    var segments := Split(cookie, ';');
    var pairs := Entries(segments);
    AssociateSpec(pairs);
    assert pairs[i] == Entry(segments[i]);
    EntryBlankIsEmpty(segments[i]);
  }

  /**
   * The parse characterised: `k` maps to `v` exactly when both are non-empty
   * and the last segment whose name is `k` carries the value `v`. So the
   * blank filter runs after duplicates collapse: a last occurrence with a
   * blank value removes the name even when an earlier segment had a value.
   */
  lemma ParseCookieMapSpec(cookie: string, k: string, v: string)
    ensures var pairs := Entries(Split(cookie, ';'));
      (k in ParseCookieMap(cookie) && ParseCookieMap(cookie)[k] == v) <==>
      (k != "" && v != "" && exists i :: LastFor(pairs, k, i) && pairs[i].1 == v)
  {
    var pairs := Entries(Split(cookie, ';'));
    if k in ParseCookieMap(cookie) {
      ParseCookieMapSound(cookie, k);
    }
    if k != "" && v != "" && exists i :: LastFor(pairs, k, i) && pairs[i].1 == v {
      var i :| LastFor(pairs, k, i) && pairs[i].1 == v;
      ParseCookieMapComplete(cookie, k, i);
    }
  }

  /** A name that the last segment carrying it leaves blank is absent from the parse. */
  lemma ParseDropsBlankLastValue(cookie: string, k: string, i: int)
    requires LastFor(Entries(Split(cookie, ';')), k, i)
    requires Entries(Split(cookie, ';'))[i].1 == ""
    ensures k !in ParseCookieMap(cookie)
  {
    AssociateSpec(Entries(Split(cookie, ';')));
    assert IsBlank("");
  }

  /** Every stored name and value is non-empty, trimmed, and contains neither `;` nor `=`. */
  lemma ParseCookieMapWellFormed(cookie: string)
    ensures forall k :: k in ParseCookieMap(cookie) ==> WellFormed(k) && WellFormed(ParseCookieMap(cookie)[k])
  {
    var segments := Split(cookie, ';');
    var pairs := Entries(segments);
    SplitPieces(cookie, ';');
    forall k | k in ParseCookieMap(cookie)
      ensures WellFormed(k) && WellFormed(ParseCookieMap(cookie)[k])
    {
      var v := ParseCookieMap(cookie)[k];
      ParseCookieMapSpec(cookie, k, v);
      var i :| LastFor(pairs, k, i) && pairs[i].1 == v;
      EntryFromSegment(segments[i]);
      TrimSpec(k);
      TrimSpec(v);
    }
  }

  /** A well-formed word is exactly what trimming leaves of it. */
  lemma WellFormedTrimmed(x: string)
    requires WellFormed(x)
    ensures Trim(x) == x && !IsBlank(x)
  {
    TrimmedAlready(x);
  }

  /** The empty cookie string parses to the empty map. */
  lemma ParseEmpty()
    ensures ParseCookieMap("") == map[]
  {
    assert Split("", ';') == [""];
    assert Entry("") == ("", "");
  }
}
