/**
 * `parse_response_content` (jsonparse_debug.py): the reading of a language model's text reply in
 * three tiers. The stripped reply is read as one JSON value; failing that, the span that the regular
 * expression `\{.*\}` (DOTALL) finds is read; failing that, a fixed error record is returned.
 */
module ResponseParser {
  import opened Wrappers
  import opened PyText
  import opened Json
  import opened JsonText

  /** The record returned when no tier yields a value. */
  function Sentinel(): (r: Value)
    ensures r.Obj? && DistinctKeys(r.members)
    ensures Keys(r.members) == ["classification", "company", "position"]
  {
    Obj([("classification", Str("Error")), ("company", Str("Unknown")), ("position", Str("Unknown"))])
  }

  // ---------------------------------------------------------------------------------------------
  // The regular expression `\{.*\}` with DOTALL

  /** The index of the first occurrence of `c` in `s`. */
  function FirstIndex(s: string, c: char): (r: Option<nat>)
    ensures r.None? <==> forall k | 0 <= k < |s| :: s[k] != c
    ensures r.Some? ==> r.value < |s| && s[r.value] == c && forall k | 0 <= k < r.value :: s[k] != c
  {
    if s == [] then None
    else if s[0] == c then Some(0)
    else
      match FirstIndex(s[1..], c)
      case None => None
      case Some(k) => Some(k + 1)
  }

  /** The index of the last occurrence of `c` in `s`. */
  function LastIndex(s: string, c: char): (r: Option<nat>)
    ensures r.None? <==> forall k | 0 <= k < |s| :: s[k] != c
    ensures r.Some? ==> r.value < |s| && s[r.value] == c && forall k | r.value < k < |s| :: s[k] != c
  {
    if s == [] then None
    else if s[|s| - 1] == c then Some(|s| - 1)
    else LastIndex(s[..|s| - 1], c)
  }

  /** A character that is not in `s` is at none of its indices. */
  lemma NotInIndex(s: string, c: char)
    requires c !in s
    ensures forall k | 0 <= k < |s| :: s[k] != c
  {
    forall k | 0 <= k < |s| ensures s[k] != c {
      assert s[k] in s;
    }
  }

  /**
   * With DOTALL, `\{.*\}` matches exactly the slices `s[a..b]` that start with `{` and end with a
   * later `}`: `.` then matches every character, line breaks included.
   */
  predicate IsMatch(s: string, a: nat, b: nat) {
    a + 2 <= b <= |s| && s[a] == '{' && s[b - 1] == '}'
  }

  /**
   * The bounds of the match `re.search(r'\{.*\}', s, re.DOTALL)` returns: from the first `{` to the
   * last `}`, when that `}` comes after that `{`.
   */
  function BraceSpan(s: string): (r: Option<(nat, nat)>)
    ensures r.Some? ==> IsMatch(s, r.value.0, r.value.1)
  {
    match FirstIndex(s, '{')
    case None => None
    case Some(a) =>
      match LastIndex(s, '}')
      case None => None
      case Some(j) => if a < j then Some((a, j + 1)) else None
  }

  /**
   * `re.search` semantics: there is a span exactly when the expression matches somewhere, and the
   * span is the leftmost match, extended as far right as any match reaches (the greedy `.*`).
   */
  lemma BraceSpanIsSearch(s: string)
    ensures BraceSpan(s).None? <==> forall a: nat, b: nat :: !IsMatch(s, a, b)
    ensures BraceSpan(s).Some? ==>
      forall a: nat, b: nat | IsMatch(s, a, b) :: BraceSpan(s).value.0 <= a && b <= BraceSpan(s).value.1
  {
    var f := FirstIndex(s, '{');
    var l := LastIndex(s, '}');
    forall a: nat, b: nat | IsMatch(s, a, b)
      ensures f.Some? && l.Some? && f.value <= a && b - 1 <= l.value
    {
    }
  }

  /** A match that is leftmost and reaches furthest right is the span `re.search` returns. */
  lemma SearchSpanUnique(s: string, a: nat, b: nat)
    requires IsMatch(s, a, b)
    requires forall a': nat, b': nat | IsMatch(s, a', b') :: a <= a' && b' <= b
    ensures BraceSpan(s).Some? && BraceSpan(s).value.0 == a && BraceSpan(s).value.1 == b
  {
    BraceSpanIsSearch(s);
  }

  /** The text the salvage tier reads: the span the regular expression finds in `s`, if any. */
  function SalvageCandidate(s: string): (r: Option<string>)
    ensures r.Some? ==> |r.value| >= 2 && r.value[0] == '{' && r.value[|r.value| - 1] == '}'
    ensures r.Some? ==> exists a: nat :: At(s, a, r.value)
    ensures r.None? <==> forall a: nat, b: nat :: !IsMatch(s, a, b)
  {
    BraceSpanIsSearch(s);
    match BraceSpan(s)
    case None => None
    case Some((a, b)) =>
      assert At(s, a, s[a..b]);
      Some(s[a..b])
  }

  // ---------------------------------------------------------------------------------------------
  // The three tiers

  /**
   * `parse_response_content(content)`. Every `JSONDecodeError` ends in a returned value; the
   * `RecursionError` and `ValueError` that `json.loads` can also raise are not modelled. A value
   * read by the strict tier is returned as it is, whether or not it is an object; every
   * other result is the sentinel or what `json.loads` makes of a slice of the stripped text.
   */
  function ParseResponseContent(content: string): (r: Value)
    ensures Loads(Strip(content)).Some? ==> r == Loads(Strip(content)).value
    ensures r == Sentinel()
      || exists a, b | 0 <= a <= b <= |Strip(content)| :: Loads(Strip(content)[a..b]) == Some(r)
  {
    var cleaned := Strip(content);
    match Loads(cleaned)
    case Some(v) =>
      assert cleaned[0..|cleaned|] == cleaned;
      v
    case None =>
      match SalvageCandidate(cleaned)
      case None => Sentinel()
      case Some(span) =>
        match Loads(span)
        case Some(v) => v
        case None => Sentinel()
  }

  /** The salvage tier reading the span `[a, b)` of the stripped reply as `v`. */
  lemma SalvageTier(content: string, a: nat, b: nat, v: Value)
    requires Loads(Strip(content)).None?
    requires BraceSpan(Strip(content)).Some? && BraceSpan(Strip(content)).value.0 == a
    requires BraceSpan(Strip(content)).value.1 == b
    requires Loads(Strip(content)[a..b]).Some? && Loads(Strip(content)[a..b]).value == v
    ensures ParseResponseContent(content) == v
  {
  }

  /** Whitespace around the reply never changes the result: `parse(ws + s + ws) == parse(s)`. */
  lemma WhitespaceInvariant(w1: string, content: string, w2: string)
    requires AllSpace(w1) && AllSpace(w2)
    ensures ParseResponseContent(w1 + content + w2) == ParseResponseContent(content)
  {
    StripPadded(w1, content, w2);
  }

  /**
   * When the strict tier fails, the result is what `json.loads` makes of the match `re.search`
   * returns (the leftmost match, stretched as far right as a match reaches), or the sentinel if
   * that fails too.
   */
  lemma SalvageReadsSearchMatch(content: string, a: nat, b: nat)
    requires Loads(Strip(content)).None? && IsMatch(Strip(content), a, b)
    requires forall a': nat, b': nat | IsMatch(Strip(content), a', b') :: a <= a' && b' <= b
    ensures Loads(Strip(content)[a..b]).Some? ==> ParseResponseContent(content) == Loads(Strip(content)[a..b]).value
    ensures Loads(Strip(content)[a..b]).None? ==> ParseResponseContent(content) == Sentinel()
  {
    SearchSpanUnique(Strip(content), a, b);
  }

  /** When the strict tier fails and no `{` is followed by a `}`, the result is the sentinel. */
  lemma NoMatchSentinel(content: string)
    requires Loads(Strip(content)).None?
    requires forall a: nat, b: nat :: !IsMatch(Strip(content), a, b)
    ensures ParseResponseContent(content) == Sentinel()
  {
    BraceSpanIsSearch(Strip(content));
  }

  // ---------------------------------------------------------------------------------------------
  // Texts `json.loads` rejects

  /** `json.loads` fails on a text whose first character can neither be skipped nor start a value. */
  lemma LoadsRejectsLeadingChar(s: string)
    requires s != [] && !IsWs(s[0]) && !Opener(s[0])
    ensures Loads(s).None?
  {
    NotAt(s, 0, "null", 0);
    NotAt(s, 0, "true", 0);
    NotAt(s, 0, "false", 0);
    NotAt(s, 0, "NaN", 0);
    NotAt(s, 0, "Infinity", 0);
    NotAt(s, 0, "-Infinity", 0);
    assert SkipWs(s, 0) == 0;
  }

  /** `json.loads` fails on a text that opens an object but has no `}` anywhere. */
  lemma LoadsRejectsUnclosedObject(s: string)
    requires s != [] && s[0] == '{' && '}' !in s
    ensures Loads(s).None?
  {
    NotInIndex(s, '}');
    assert SkipWs(s, 0) == 0;
  }

  /** A reply that opens an object and never closes it yields the sentinel. */
  lemma UnclosedObjectSentinel(content: string)
    requires Strip(content) != [] && Strip(content)[0] == '{' && '}' !in Strip(content)
    ensures ParseResponseContent(content) == Sentinel()
  {
    LoadsRejectsUnclosedObject(Strip(content));
    NotInIndex(Strip(content), '}');
    NoMatchSentinel(content);
  }

  /** A reply of prose that contains no `{` yields the sentinel. */
  lemma ProseSentinel(content: string)
    requires Strip(content) != [] && !Opener(Strip(content)[0]) && '{' !in Strip(content)
    ensures ParseResponseContent(content) == Sentinel()
  {
    var cleaned := Strip(content);
    assert !IsWs(cleaned[0]);
    LoadsRejectsLeadingChar(cleaned);
    NotInIndex(cleaned, '{');
    NoMatchSentinel(content);
  }

  // ---------------------------------------------------------------------------------------------
  // Replies that are written values

  lemma OpenerNotSpace(c: char)
    requires Opener(c)
    ensures !IsSpace(c)
  {
  }

  /** A written value never ends with a space character. */
  lemma SerializedEnd(v: Value, lay: Layout)
    requires WellFormed(v)
    ensures Serialize(v, lay) != [] && !IsSpace(Serialize(v, lay)[|Serialize(v, lay)| - 1])
  {
    SerializedStart(v, lay);
    if v.Num? && ScanNumber(v.lexeme, 0) == Some(|v.lexeme|) {
      assert IsDigit(v.lexeme[|v.lexeme| - 1]);
    }
  }

  /** A written value, with any whitespace around it, is read back as itself by the strict tier. */
  lemma RoundTrip(w1: string, v: Value, lay: Layout, w2: string)
    requires WellFormed(v) && ValidLayout(lay) && AllSpace(w1) && AllSpace(w2)
    ensures ParseResponseContent(w1 + Serialize(v, lay) + w2) == v
  {
    var t := Serialize(v, lay);
    SerializedStart(v, lay);
    OpenerNotSpace(t[0]);
    SerializedEnd(v, lay);
    StripUnpadded(t);
    StripPadded(w1, t, w2);
    LoadsSerialized(v, lay);
  }

  /** Text with no `{` before a braced word and no `}` after it: the word is the search match. */
  lemma WrappedSpan(p1: string, t: string, p2: string)
    requires '{' !in p1 && '}' !in p2 && |t| >= 2 && t[0] == '{' && t[|t| - 1] == '}'
    ensures (p1 + t + p2)[|p1|..|p1| + |t|] == t
    ensures BraceSpan(p1 + t + p2).Some? && BraceSpan(p1 + t + p2).value.0 == |p1|
    ensures BraceSpan(p1 + t + p2).value.1 == |p1| + |t|
  {
    var s := p1 + t + p2;
    assert s[|p1|..|p1| + |t|] == t;
    NotInIndex(p1, '{');
    NotInIndex(p2, '}');
    assert forall k | 0 <= k < |p1| :: s[k] == p1[k];
    assert forall k | |p1| + |t| <= k < |s| :: s[k] == p2[k - |p1| - |t|];
    SearchSpanUnique(s, |p1|, |p1| + |t|);
  }

  /** Prose with no space at its outer ends around a braced text is its own strip. */
  lemma WrappedUnpadded(p1: string, t: string, p2: string)
    requires p1 == [] || !IsSpace(p1[0])
    requires |t| >= 2 && t[0] == '{' && t[|t| - 1] == '}'
    requires p2 == [] || !IsSpace(p2[|p2| - 1])
    ensures Strip(p1 + t + p2) == p1 + t + p2
  {
    var s := p1 + t + p2;
    assert s[0] == if p1 == [] then t[0] else p1[0];
    assert s[|s| - 1] == if p2 == [] then t[|t| - 1] else p2[|p2| - 1];
    StripUnpadded(s);
  }

  /** Whitespace skipping stops at the latest at a character that is not whitespace. */
  lemma {:induction false} SkipWsStops(s: string, i: nat, k: nat)
    requires i <= k < |s| && !IsWs(s[k])
    ensures SkipWs(s, i) <= k
    decreases k - i
  {
    if i < k {
      SkipWsStops(s, i + 1, k);
    }
  }

  /** A word with no `{` in it that occurs at index 0 ends at the latest at a `{`. */
  lemma WordStops(s: string, w: string, k: nat)
    requires At(s, 0, w) && '{' !in w && k < |s| && s[k] == '{'
    ensures |w| <= k
  {
    NotInIndex(w, '{');
    assert forall m | 0 <= m < |w| :: s[m] == w[m];
  }

  /** A number token that starts at or before a `{` ends at the latest at that `{`. */
  lemma NumberStops(s: string, i: nat, k: nat)
    requires i <= k < |s| && s[k] == '{'
    ensures ScanNumber(s, i).Some? ==> ScanNumber(s, i).value <= k
  {
    var a := if i < |s| && s[i] == '-' then i + 1 else i;
    var b := IntEnd(s, a);
    if b != a {
      assert b <= k;
      var c := FracEnd(s, b);
      assert c <= k;
      assert ExpEnd(s, c) <= k;
    }
  }

  /**
   * `json.loads` fails on a text that starts with neither whitespace nor `"`, `{` or `[` and has a
   * `{` further on: the scalar token at the start ends before that `{`, which is then extra data.
   */
  lemma LoadsRejectsScalarBeforeBrace(s: string, k: nat)
    requires k < |s| && s[k] == '{'
    requires !IsWs(s[0]) && s[0] != '"' && s[0] != '{' && s[0] != '['
    ensures Loads(s).None?
  {
    assert SkipWs(s, 0) == 0;
    var r := ParseValue(s, 0);
    if At(s, 0, "null") {
      WordStops(s, "null", k);
    } else if At(s, 0, "true") {
      WordStops(s, "true", k);
    } else if At(s, 0, "false") {
      WordStops(s, "false", k);
    } else if At(s, 0, "NaN") {
      WordStops(s, "NaN", k);
    } else if At(s, 0, "Infinity") {
      WordStops(s, "Infinity", k);
    } else if At(s, 0, "-Infinity") {
      WordStops(s, "-Infinity", k);
    } else {
      NumberStops(s, 0, k);
    }
    if r.Some? {
      assert r.value.1 <= k;
      SkipWsStops(s, r.value.1, k);
    }
  }

  /**
   * `json.loads` fails on an object followed by text that has no `}` and ends in a character that
   * is not whitespace: the object ends inside the first part, and the rest is extra data.
   */
  lemma LoadsRejectsObjectThenProse(t: string, p2: string)
    requires t != [] && t[0] == '{' && '}' !in p2 && p2 != [] && !IsWs(p2[|p2| - 1])
    ensures Loads(t + p2).None?
  {
    var s := t + p2;
    assert s[0] == '{' && SkipWs(s, 0) == 0;
    NotInIndex(p2, '}');
    assert forall m | |t| <= m < |s| :: s[m] == p2[m - |t|];
    var r := ParseValue(s, 0);
    if r.Some? {
      assert s[r.value.1 - 1] == '}';
      assert r.value.1 <= |t|;
      SkipWsStops(s, r.value.1, |s| - 1);
    }
  }

  /**
   * A braced text that `json.loads` reads, with prose before or after it, yields what it reads.
   * The prose before it has no `{` and does not start with `"` or `[` (either could open a string
   * or list that encloses the braced text); the prose after it has no `}`. Space around the whole
   * reply is covered by `WhitespaceInvariant`.
   */
  lemma WrappedRecovered(p1: string, t: string, p2: string, v: Value)
    requires '{' !in p1 && (p1 == [] || (!IsSpace(p1[0]) && p1[0] != '"' && p1[0] != '['))
    requires '}' !in p2 && (p2 == [] || !IsSpace(p2[|p2| - 1]))
    requires |t| >= 2 && t[0] == '{' && t[|t| - 1] == '}' && Loads(t) == Some(v)
    ensures ParseResponseContent(p1 + t + p2) == v
  {
    var content := p1 + t + p2;
    WrappedUnpadded(p1, t, p2);
    if p1 == [] && p2 == [] {
      assert content == t;
    } else {
      WrappedSpan(p1, t, p2);
      WrappedStrictFails(p1, t, p2);
      SalvageTier(content, |p1|, |p1| + |t|, v);
    }
  }

  /** With prose on either side of it, a braced text makes the whole reply unreadable as one value. */
  lemma WrappedStrictFails(p1: string, t: string, p2: string)
    requires '{' !in p1 && (p1 == [] || (!IsSpace(p1[0]) && p1[0] != '"' && p1[0] != '['))
    requires '}' !in p2 && (p2 == [] || !IsSpace(p2[|p2| - 1]))
    requires |t| >= 2 && t[0] == '{' && p1 + p2 != []
    ensures Loads(p1 + t + p2).None?
  {
    var content := p1 + t + p2;
    if p1 != [] {
      assert content[|p1|] == '{' && content[0] == p1[0];
      LoadsRejectsScalarBeforeBrace(content, |p1|);
    } else {
      assert content == t + p2;
      LoadsRejectsObjectThenProse(t, p2);
    }
  }

  /**
   * A written object with prose before or after it (a markdown code fence, say) is recovered
   * exactly, when the prose before it has no `{` and does not start with `"` or `[`, and the prose
   * after it has no `}`.
   */
  lemma ProseWrappedRecovered(p1: string, ms: seq<(string, Value)>, lay: Layout, p2: string)
    requires WellFormed(Obj(ms)) && ValidLayout(lay)
    requires '{' !in p1 && (p1 == [] || (!IsSpace(p1[0]) && p1[0] != '"' && p1[0] != '['))
    requires '}' !in p2 && (p2 == [] || !IsSpace(p2[|p2| - 1]))
    ensures ParseResponseContent(p1 + Serialize(Obj(ms), lay) + p2) == Obj(ms)
  {
    var t := Serialize(Obj(ms), lay);
    LoadsSerialized(Obj(ms), lay);
    WrappedRecovered(p1, t, p2, Obj(ms));
  }
}
