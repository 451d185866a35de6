/**
 * JSON text written from a `Value`, with the whitespace between tokens chosen by a `Layout`, and
 * the proof that `Json.Loads` reads every such text back as the value it was written from.
 */
module JsonText {
  import opened Wrappers
  import opened Json

  /**
   * The whitespace written after an opening bracket, after a `:`, after a `,` and before a closing
   * bracket. `Layout("", " ", " ", "")` is the layout of Python's `json.dumps`.
   */
  datatype Layout = Layout(open: string, colon: string, comma: string, close: string)

  predicate ValidLayout(lay: Layout) {
    AllWs(lay.open) && AllWs(lay.colon) && AllWs(lay.comma) && AllWs(lay.close)
  }

  /** A number token as the reader accepts it: a named constant, or a complete JSON number. */
  predicate IsNumberToken(l: string) {
    l == "NaN" || l == "Infinity" || l == "-Infinity" || ScanNumber(l, 0) == Some(|l|)
  }

  /** Values a text can denote: number tokens are complete and object keys are distinct. */
  predicate WellFormed(v: Value)
    decreases v
  {
    match v
    case Num(l) => IsNumberToken(l)
    case Arr(items) => forall i | 0 <= i < |items| :: WellFormed(items[i])
    case Obj(ms) => DistinctKeys(ms) && forall i | 0 <= i < |ms| :: WellFormed(ms[i].1)
    case _ => true
  }

  /** The lower-case hexadecimal digit for `n`. */
  function HexChar(n: nat): (c: char)
    requires n < 16
    ensures HexDigit(c) == Some(n)
  {
    if n < 10 then ('0' as int + n) as char else ('a' as int + n - 10) as char
  }

  /** One character inside a string token: quote, backslash and control characters are escaped. */
  function EscapeChar(c: char): (e: string)
    ensures |e| >= 1
  {
    if c == '"' then "\\\""
    else if c == '\\' then "\\\\"
    else if (c as int) < 0x20 then "\\u00" + [HexChar(c as int / 16), HexChar(c as int % 16)]
    else [c]
  }

  function Escape(t: string): (e: string)
    ensures |e| >= |t|
  {
    if t == [] then [] else EscapeChar(t[0]) + Escape(t[1..])
  }

  function Quote(t: string): (q: string)
    ensures |q| >= 2 && q[0] == '"' && q[|q| - 1] == '"'
  {
    "\"" + Escape(t) + "\""
  }

  /** The JSON text of `v`. */
  function Serialize(v: Value, lay: Layout): (t: string)
    decreases v, 1
  {
    match v
    case Null => "null"
    case Bool(b) => if b then "true" else "false"
    case Num(l) => l
    case Str(x) => Quote(x)
    case Arr(items) => "[" + lay.open + Elements(items, lay) + lay.close + "]"
    case Obj(ms) => "{" + lay.open + Members(ms, lay) + lay.close + "}"
  }

  function Elements(items: seq<Value>, lay: Layout): (t: string)
    decreases items, 0
  {
    if items == [] then []
    else if |items| == 1 then Serialize(items[0], lay)
    else Serialize(items[0], lay) + "," + lay.comma + Elements(items[1..], lay)
  }

  function Member(m: (string, Value), lay: Layout): (t: string)
    decreases m, 0
  {
    Quote(m.0) + ":" + lay.colon + Serialize(m.1, lay)
  }

  function Members(ms: seq<(string, Value)>, lay: Layout): (t: string)
    decreases ms, 0
  {
    if ms == [] then []
    else if |ms| == 1 then Member(ms[0], lay)
    else Member(ms[0], lay) + "," + lay.comma + Members(ms[1..], lay)
  }

  // ---------------------------------------------------------------------------------------------
  // Reading written text back

  /** A character a value token can start with; none of them is whitespace. */
  predicate Opener(c: char) {
    c == '"' || c == '{' || c == '[' || c == 'n' || c == 't' || c == 'f'
    || c == 'N' || c == 'I' || c == '-' || IsDigit(c)
  }

  /** Index `j` of `s` ends a value token: the text ends there or whitespace or `,`, `]`, `}` follows. */
  predicate Delimited(s: string, j: nat) {
    j == |s| || (j < |s| && (IsWs(s[j]) || s[j] == ',' || s[j] == ']' || s[j] == '}'))
  }

  /** A word made of two parts occurs where its first part occurs, followed by its second. */
  lemma AtSplit(s: string, i: nat, a: string, b: string)
    requires At(s, i, a + b)
    ensures At(s, i, a) && At(s, i + |a|, b)
  {
    forall k | 0 <= k < |b| ensures s[i + |a| + k] == b[k] {
      assert s[i + (|a| + k)] == (a + b)[|a| + k];
    }
    forall k | 0 <= k < |a| ensures s[i + k] == a[k] {
      assert s[i + k] == (a + b)[k];
    }
  }

  lemma AtJoin(s: string, i: nat, a: string, b: string)
    requires At(s, i, a) && At(s, i + |a|, b)
    ensures At(s, i, a + b)
  {
    forall k | 0 <= k < |a + b| ensures s[i + k] == (a + b)[k] {
      if k >= |a| {
        assert s[i + |a| + (k - |a|)] == b[k - |a|];
      }
    }
  }

  /** `SkipWs` passes over exactly a whitespace word that is followed by something else. */
  lemma {:induction false} SkipWsOver(s: string, i: nat, w: string)
    requires At(s, i, w) && AllWs(w)
    requires i + |w| == |s| || !IsWs(s[i + |w|])
    ensures SkipWs(s, i) == i + |w|
    decreases |w|
  {
    if w != [] {
      assert s[i] == w[0];
      assert At(s, i + 1, w[1..]) by {
        forall k | 0 <= k < |w| - 1 ensures s[i + 1 + k] == w[1..][k] {
          assert s[i + (k + 1)] == w[k + 1];
        }
      }
      SkipWsOver(s, i + 1, w[1..]);
    }
  }

  /** Two whitespace words in a row form one. */
  lemma AllWsConcat(a: string, b: string)
    requires AllWs(a) && AllWs(b)
    ensures AllWs(a + b)
  {
    forall k | 0 <= k < |a + b| ensures IsWs((a + b)[k]) {
      if k >= |a| {
        assert (a + b)[k] == b[k - |a|];
      }
    }
  }

  /** A word does not occur where one of its characters is contradicted. */
  lemma NotAt(s: string, i: nat, w: string, k: nat)
    requires k < |w| && i + k < |s| && s[i + k] != w[k]
    ensures !At(s, i, w)
  {
  }

  /** One escaped character is read back by one step of `ParseStringBody`. */
  lemma ParseEscapedChar(c: char, s: string, i: nat)
    requires At(s, i, EscapeChar(c))
    ensures s[i] != '"'
    ensures s[i] == '\\' ==> ParseEscape(s, i + 1).Some? && ParseEscape(s, i + 1).value.0 == c
    ensures s[i] == '\\' ==> ParseEscape(s, i + 1).value.1 == i + |EscapeChar(c)|
    ensures s[i] != '\\' ==> s[i] == c && (c as int) >= 0x20 && |EscapeChar(c)| == 1
  {
    var e := EscapeChar(c);
    assert s[i + 0] == e[0];
    if c == '"' || c == '\\' {
      assert s[i + 1] == e[1];
    } else if (c as int) < 0x20 {
      assert s[i + 1] == e[1] && s[i + 2] == e[2] && s[i + 3] == e[3];
      assert s[i + 4] == e[4] && s[i + 5] == e[5];
      assert Hex4(s, i + 2) == Some(c as int);
    }
  }

  /** Every escaped string token reads back as the string it was written from. */
  lemma {:induction false} ParseQuoted(t: string, s: string, i: nat, j: nat)
    requires At(s, i, Escape(t)) && j == i + |Escape(t)| && j < |s| && s[j] == '"'
    ensures ParseStringBody(s, i).Some? && ParseStringBody(s, i).value.0 == t
    ensures ParseStringBody(s, i).value.1 == j + 1
    decreases |t|
  {
    if t == [] {
      StepStringEnd(s, i);
    } else {
      var e := EscapeChar(t[0]);
      var rest := Escape(t[1..]);
      assert Escape(t) == e + rest;
      AtSplit(s, i, e, rest);
      ParseQuoted(t[1..], s, i + |e|, j);
      ParseEscapedChar(t[0], s, i);
      if s[i] == '\\' {
        StepStringEscape(s, i, t, i + |e|, j + 1);
      } else {
        StepStringChar(s, i, t, j + 1);
      }
    }
  }

  /** `DigitRun` reads a copy of `l` inside `s` as it reads `l` itself when a delimiter follows. */
  lemma {:induction false} DigitRunShift(l: string, s: string, i: nat, p: nat)
    requires At(s, i, l) && Delimited(s, i + |l|) && p <= |l|
    ensures DigitRun(s, i + p) == i + DigitRun(l, p)
    decreases |l| - p
  {
    if p < |l| {
      assert s[i + p] == l[p];
      if IsDigit(l[p]) {
        DigitRunShift(l, s, i, p + 1);
      }
    }
  }

  lemma IntEndShift(l: string, s: string, i: nat, p: nat)
    requires At(s, i, l) && Delimited(s, i + |l|) && p <= |l|
    ensures IntEnd(s, i + p) == i + IntEnd(l, p)
  {
    if p < |l| {
      assert s[i + p] == l[p];
      DigitRunShift(l, s, i, p + 1);
    }
  }

  lemma FracEndShift(l: string, s: string, i: nat, p: nat)
    requires At(s, i, l) && Delimited(s, i + |l|) && p <= |l|
    ensures FracEnd(s, i + p) == i + FracEnd(l, p)
  {
    if p + 1 < |l| {
      assert s[i + p] == l[p] && s[i + p + 1] == l[p + 1];
      DigitRunShift(l, s, i, p + 1);
    } else if p < |l| {
      assert s[i + p] == l[p];
    }
  }

  lemma ExpEndShift(l: string, s: string, i: nat, p: nat)
    requires At(s, i, l) && Delimited(s, i + |l|) && p <= |l|
    ensures ExpEnd(s, i + p) == i + ExpEnd(l, p)
  {
    if p + 1 < |l| {
      assert s[i + p] == l[p] && s[i + p + 1] == l[p + 1];
      DigitRunShift(l, s, i, p + 1);
      DigitRunShift(l, s, i, p + 2);
    } else if p < |l| {
      assert s[i + p] == l[p];
    }
  }

  /** A complete number token followed by a delimiter is read as exactly that token. */
  lemma NumberShift(l: string, s: string, i: nat)
    requires ScanNumber(l, 0) == Some(|l|)
    requires At(s, i, l) && Delimited(s, i + |l|)
    ensures ScanNumber(s, i).Some? && ScanNumber(s, i).value == i + |l|
  {
    AtHead(s, i, l);
    var a := if l[0] == '-' then 1 else 0;
    var b := IntEnd(l, a);
    var c := FracEnd(l, b);
    assert b != a && ExpEnd(l, c) == |l|;
    IntEndShift(l, s, i, a);
    FracEndShift(l, s, i, b);
    ExpEndShift(l, s, i, c);
    StepScanNumber(s, i, i + a, i + b, i + c, i + |l|);
  }

  /** A written value is never empty and starts with a character that opens a value token. */
  lemma SerializedStart(v: Value, lay: Layout)
    requires WellFormed(v)
    ensures Serialize(v, lay) != [] && Opener(Serialize(v, lay)[0]) && !IsWs(Serialize(v, lay)[0])
  {
  }

  lemma ElementsStart(items: seq<Value>, lay: Layout)
    requires items != [] && WellFormed(items[0])
    ensures Elements(items, lay) != [] && !IsWs(Elements(items, lay)[0]) && Elements(items, lay)[0] != ']'
  {
    SerializedStart(items[0], lay);
  }

  lemma MembersStart(ms: seq<(string, Value)>, lay: Layout)
    requires ms != []
    ensures Members(ms, lay) != [] && Members(ms, lay)[0] == '"'
  {
    var q := Quote(ms[0].0);
    assert Member(ms[0], lay)[0] == q[0];
  }

  lemma AtHead(s: string, i: nat, w: string)
    requires At(s, i, w) && w != []
    ensures s[i] == w[0]
  {
    assert s[i + 0] == w[0];
  }

  lemma ParseNull(s: string, i: nat)
    requires At(s, i, "null")
    ensures ParseValue(s, i).Some? && ParseValue(s, i).value.0 == Null
    ensures ParseValue(s, i).value.1 == i + 4
  {
    AtHead(s, i, "null");
  }

  lemma ParseBool(s: string, i: nat, b: bool)
    requires At(s, i, if b then "true" else "false")
    ensures ParseValue(s, i).Some? && ParseValue(s, i).value.0 == Bool(b)
    ensures ParseValue(s, i).value.1 == i + if b then 4 else 5
  {
    if b {
      AtHead(s, i, "true");
      NotAt(s, i, "null", 0);
      StepTrue(s, i);
    } else {
      AtHead(s, i, "false");
      NotAt(s, i, "null", 0);
      NotAt(s, i, "true", 0);
      StepFalse(s, i);
    }
  }

  /** A number token, named or not, followed by a delimiter is read as exactly that token. */
  lemma ParseNumberToken(s: string, i: nat, l: string)
    requires IsNumberToken(l) && At(s, i, l) && Delimited(s, i + |l|)
    ensures ParseValue(s, i).Some? && ParseValue(s, i).value.0 == Num(l)
    ensures ParseValue(s, i).value.1 == i + |l|
  {
    if l == "NaN" || l == "Infinity" || l == "-Infinity" {
      ParseNamedNumber(s, i, l);
    } else {
      ParseNumberLexeme(s, i, l);
    }
  }

  lemma ParseNamedNumber(s: string, i: nat, l: string)
    requires l == "NaN" || l == "Infinity" || l == "-Infinity"
    requires At(s, i, l)
    ensures ParseValue(s, i).Some? && ParseValue(s, i).value.0 == Num(l)
    ensures ParseValue(s, i).value.1 == i + |l|
  {
    AtHead(s, i, l);
    NotAt(s, i, "null", 0);
    NotAt(s, i, "true", 0);
    NotAt(s, i, "false", 0);
    if l != "NaN" {
      NotAt(s, i, "NaN", 0);
      if l != "Infinity" {
        NotAt(s, i, "Infinity", 0);
      }
    }
  }

  lemma ParseNumberLexeme(s: string, i: nat, l: string)
    requires ScanNumber(l, 0) == Some(|l|)
    requires At(s, i, l) && Delimited(s, i + |l|)
    ensures ParseValue(s, i).Some? && ParseValue(s, i).value.0 == Num(l)
    ensures ParseValue(s, i).value.1 == i + |l|
  {
    NumberShift(l, s, i);
    LexemeNotNamed(s, i, l);
    StepNumber(s, i, i + |l|);
    AtSlice(s, i, l);
  }

  /** A number lexeme starts like none of the other tokens, `-Infinity` included. */
  lemma LexemeNotNamed(s: string, i: nat, l: string)
    requires ScanNumber(l, 0) == Some(|l|) && At(s, i, l)
    ensures i < |s| && s[i] != '"' && s[i] != '{' && s[i] != '['
    ensures !At(s, i, "null") && !At(s, i, "true") && !At(s, i, "false")
    ensures !At(s, i, "NaN") && !At(s, i, "Infinity") && !At(s, i, "-Infinity")
  {
    AtHead(s, i, l);
    NotAt(s, i, "null", 0);
    NotAt(s, i, "true", 0);
    NotAt(s, i, "false", 0);
    NotAt(s, i, "NaN", 0);
    NotAt(s, i, "Infinity", 0);
    if l[0] == '-' {
      assert s[i + 1] == l[1];
      NotAt(s, i, "-Infinity", 1);
    } else {
      NotAt(s, i, "-Infinity", 0);
    }
  }

  lemma AtSlice(s: string, i: nat, w: string)
    requires At(s, i, w)
    ensures s[i..i + |w|] == w
  {
  }

  lemma ParseSerializedString(x: string, s: string, i: nat)
    requires At(s, i, Quote(x))
    ensures ParseValue(s, i).Some? && ParseValue(s, i).value.0 == Str(x)
    ensures ParseValue(s, i).value.1 == i + |Quote(x)|
  {
    ParseQuotedKey(x, s, i);
    StepString(s, i, x, i + |Quote(x)|);
  }

  /** A written value followed by a delimiter is read back as the value, consuming all of it. */
  lemma {:induction false} ParseSerialized(v: Value, lay: Layout, s: string, i: nat)
    requires WellFormed(v) && ValidLayout(lay)
    requires At(s, i, Serialize(v, lay)) && Delimited(s, i + |Serialize(v, lay)|)
    ensures ParseValue(s, i).Some? && ParseValue(s, i).value.0 == v
    ensures ParseValue(s, i).value.1 == i + |Serialize(v, lay)|
    decreases v
  {
    match v
    case Null => ParseNull(s, i);
    case Bool(b) => ParseBool(s, i, b);
    case Num(l) => ParseNumberToken(s, i, l);
    case Str(x) => ParseSerializedString(x, s, i);
    case Arr(items) => ParseSerializedArray(items, lay, s, i);
    case Obj(ms) => ParseSerializedObject(ms, lay, s, i);
  }

  /** The brackets, inner whitespace and body of a written array or object, located in `s`. */
  lemma Bracketed(s: string, i: nat, o: string, lay: Layout, e: string, c: string, j: nat, n: nat, k: nat)
    requires |o| == 1 && |c| == 1
    requires At(s, i, o + lay.open + e + lay.close + c)
    requires j == i + 1 + |lay.open| && n == j + |e| && k == n + |lay.close|
    ensures s[i] == o[0] && At(s, i + 1, lay.open) && At(s, j, e) && At(s, n, lay.close)
    ensures k < |s| && s[k] == c[0]
    ensures k + 1 == i + |o + lay.open + e + lay.close + c|
  {
    AtSplit(s, i, o + lay.open + e + lay.close, c);
    AtSplit(s, i, o + lay.open + e, lay.close);
    AtSplit(s, i, o + lay.open, e);
    AtSplit(s, i, o, lay.open);
    AtHead(s, i, o);
    AtHead(s, k, c);
  }

  /** Whitespace followed by a word that does not start with whitespace: `SkipWs` stops at the word. */
  lemma WsThen(s: string, i: nat, w: string, j: nat, e: string)
    requires At(s, i, w) && AllWs(w) && j == i + |w| && At(s, j, e) && e != [] && !IsWs(e[0])
    ensures SkipWs(s, i) == j && j < |s| && s[j] == e[0]
  {
    AtHead(s, j, e);
    SkipWsOver(s, i, w);
  }

  /** A first item, a comma, whitespace, and a next item that does not start with whitespace. */
  lemma NextItem(s: string, i: nat, first: string, comma: string, more: string, f: nat, m: nat)
    requires At(s, i, first + "," + comma + more) && AllWs(comma) && more != [] && !IsWs(more[0])
    requires f == i + |first| && m == f + 1 + |comma|
    ensures At(s, i, first) && Delimited(s, f) && s[f] == ','
    ensures SkipWs(s, f + 1) == m && At(s, m, more)
  {
    AtSplit(s, i, first + "," + comma, more);
    AtSplit(s, i, first + ",", comma);
    AtSplit(s, i, first, ",");
    AtHead(s, f, ",");
    WsThen(s, f + 1, comma, m, more);
  }

  /** Opening and closing whitespace of an empty list, followed by its bracket at `k`. */
  lemma EmptyBrackets(s: string, i: nat, open: string, close: string, j: nat, k: nat)
    requires At(s, i, open) && j == i + |open| && At(s, j, close) && k == j + |close|
    requires AllWs(open) && AllWs(close) && k < |s| && !IsWs(s[k])
    ensures SkipWs(s, i) == k
  {
    AllWsConcat(open, close);
    AtJoin(s, i, open, close);
    SkipWsOver(s, i, open + close);
  }

  /** Closing whitespace of a list at `n`, followed by its bracket at `k`. */
  lemma ClosingDelimited(s: string, n: nat, close: string, k: nat)
    requires At(s, n, close) && AllWs(close) && k == n + |close| && k < |s|
    requires s[k] == ']' || s[k] == '}'
    ensures Delimited(s, n) && SkipWs(s, n) == k
  {
    if close != [] {
      AtHead(s, n, close);
    }
    SkipWsOver(s, n, close);
  }

  lemma {:induction false} ParseSerializedArray(items: seq<Value>, lay: Layout, s: string, i: nat)
    requires WellFormed(Arr(items)) && ValidLayout(lay)
    requires At(s, i, Serialize(Arr(items), lay))
    ensures ParseValue(s, i).Some? && ParseValue(s, i).value.0 == Arr(items)
    ensures ParseValue(s, i).value.1 == i + |Serialize(Arr(items), lay)|
    decreases items, 2
  {
    var e := Elements(items, lay);
    var j := i + 1 + |lay.open|;
    var n := j + |e|;
    var k := n + |lay.close|;
    Bracketed(s, i, "[", lay, e, "]", j, n, k);
    if items == [] {
      EmptyBrackets(s, i + 1, lay.open, lay.close, n, k);
      StepEmptyArray(s, i + 1, k);
    } else {
      ElementsStart(items, lay);
      WsThen(s, i + 1, lay.open, j, e);
      ParseSerializedElements(items, lay, s, j, n, k);
      StepArrayItems(s, i + 1, j, items, k + 1);
    }
    StepOpenArray(s, i, Arr(items), k + 1);
  }

  /** Items that follow one another in a written array, read up to and including its `]` at `k`. */
  lemma {:induction false} ParseSerializedElements(items: seq<Value>, lay: Layout, s: string, i: nat, n: nat, k: nat)
    requires items != [] && ValidLayout(lay)
    requires forall q | 0 <= q < |items| :: WellFormed(items[q])
    requires At(s, i, Elements(items, lay)) && n == i + |Elements(items, lay)|
    requires At(s, n, lay.close) && k == n + |lay.close| && k < |s| && s[k] == ']'
    ensures ParseElements(s, i).Some? && ParseElements(s, i).value.0 == items
    ensures ParseElements(s, i).value.1 == k + 1
    decreases items, 1
  {
    if |items| == 1 {
      ParseSerializedLastElement(items, lay, s, i, n, k);
    } else {
      ParseSerializedNextElements(items, lay, s, i, n, k);
    }
  }

  lemma {:induction false} ParseSerializedLastElement(items: seq<Value>, lay: Layout, s: string, i: nat, n: nat, k: nat)
    requires |items| == 1 && ValidLayout(lay) && WellFormed(items[0])
    requires At(s, i, Serialize(items[0], lay)) && n == i + |Serialize(items[0], lay)|
    requires At(s, n, lay.close) && k == n + |lay.close| && k < |s| && s[k] == ']'
    ensures ParseElements(s, i).Some? && ParseElements(s, i).value.0 == items
    ensures ParseElements(s, i).value.1 == k + 1
    decreases items, 0
  {
    ClosingDelimited(s, n, lay.close, k);
    ParseSerialized(items[0], lay, s, i);
    StepLastElement(s, i, items, n, k);
  }

  lemma {:induction false} ParseSerializedNextElements(items: seq<Value>, lay: Layout, s: string, i: nat, n: nat, k: nat)
    requires |items| > 1 && ValidLayout(lay)
    requires forall q | 0 <= q < |items| :: WellFormed(items[q])
    requires At(s, i, Elements(items, lay)) && n == i + |Elements(items, lay)|
    requires At(s, n, lay.close) && k == n + |lay.close| && k < |s| && s[k] == ']'
    ensures ParseElements(s, i).Some? && ParseElements(s, i).value.0 == items
    ensures ParseElements(s, i).value.1 == k + 1
    decreases items, 0
  {
    var first := Serialize(items[0], lay);
    var rest := items[1..];
    var more := Elements(rest, lay);
    var f := i + |first|;
    var m := f + 1 + |lay.comma|;
    ElementsStart(rest, lay);
    NextItem(s, i, first, lay.comma, more, f, m);
    ParseSerialized(items[0], lay, s, i);
    assert forall q | 0 <= q < |rest| :: rest[q] == items[q + 1];
    ParseSerializedElements(rest, lay, s, m, n, k);
    StepNextElement(s, i, items, f, m, k + 1);
  }

  lemma {:induction false} ParseSerializedObject(ms: seq<(string, Value)>, lay: Layout, s: string, i: nat)
    requires WellFormed(Obj(ms)) && ValidLayout(lay)
    requires At(s, i, Serialize(Obj(ms), lay))
    ensures ParseValue(s, i).Some? && ParseValue(s, i).value.0 == Obj(ms)
    ensures ParseValue(s, i).value.1 == i + |Serialize(Obj(ms), lay)|
    decreases ms, 2
  {
    var e := Members(ms, lay);
    var j := i + 1 + |lay.open|;
    var n := j + |e|;
    var k := n + |lay.close|;
    Bracketed(s, i, "{", lay, e, "}", j, n, k);
    if ms == [] {
      EmptyBrackets(s, i + 1, lay.open, lay.close, n, k);
      StepEmptyObject(s, i + 1, k);
    } else {
      MembersStart(ms, lay);
      WsThen(s, i + 1, lay.open, j, e);
      ParseSerializedMembers(ms, lay, s, j, n, k);
      StepObjectMembers(s, i + 1, j, ms, k + 1);
      ToDictOfDistinct(ms);
    }
    StepOpenObject(s, i, Obj(ms), k + 1);
  }

  /** The quoted key, the colon, whitespace and the value of a written pair, located in `s`. */
  lemma MemberSplit(s: string, i: nat, key: string, colon: string, ser: string, c: nat, d: nat)
    requires At(s, i, Quote(key) + ":" + colon + ser)
    requires c == i + |Quote(key)| && d == c + 1 + |colon|
    ensures At(s, i, Quote(key)) && c < |s| && s[c] == ':'
    ensures At(s, c + 1, colon) && At(s, d, ser)
  {
    var q := Quote(key);
    AtSplit(s, i, q + ":" + colon, ser);
    AtSplit(s, i, q + ":", colon);
    AtSplit(s, i, q, ":");
    AtHead(s, c, ":");
  }

  /** A quoted key at `i` is read as the key, up to just past its closing quote. */
  lemma ParseQuotedKey(key: string, s: string, i: nat)
    requires At(s, i, Quote(key))
    ensures s[i] == '"'
    ensures ParseStringBody(s, i + 1).Some? && ParseStringBody(s, i + 1).value.0 == key
    ensures ParseStringBody(s, i + 1).value.1 == i + |Quote(key)|
  {
    var e := Escape(key);
    var j := i + 1 + |e|;
    AtSplit(s, i, "\"" + e, "\"");
    AtSplit(s, i, "\"", e);
    AtHead(s, i, "\"");
    AtHead(s, j, "\"");
    ParseQuoted(key, s, i + 1, j);
  }

  lemma {:induction false} ParseSerializedMember(m: (string, Value), lay: Layout, s: string, i: nat)
    requires WellFormed(m.1) && ValidLayout(lay)
    requires At(s, i, Member(m, lay)) && Delimited(s, i + |Member(m, lay)|)
    ensures ParseMember(s, i).Some? && ParseMember(s, i).value.0 == m
    ensures ParseMember(s, i).value.1 == i + |Member(m, lay)|
    decreases m, 1
  {
    var ser := Serialize(m.1, lay);
    var c := i + |Quote(m.0)|;
    var d := c + 1 + |lay.colon|;
    MemberSplit(s, i, m.0, lay.colon, ser, c, d);
    ParseQuotedKey(m.0, s, i);
    SerializedStart(m.1, lay);
    WsThen(s, c + 1, lay.colon, d, ser);
    ParseSerialized(m.1, lay, s, d);
    StepPair(s, i, m.0, c, d, m.1, d + |ser|);
  }

  /** Pairs that follow one another in a written object, read up to and including its `}` at `k`. */
  lemma {:induction false} ParseSerializedMembers(ms: seq<(string, Value)>, lay: Layout, s: string, i: nat, n: nat, k: nat)
    requires ms != [] && ValidLayout(lay)
    requires forall q | 0 <= q < |ms| :: WellFormed(ms[q].1)
    requires At(s, i, Members(ms, lay)) && n == i + |Members(ms, lay)|
    requires At(s, n, lay.close) && k == n + |lay.close| && k < |s| && s[k] == '}'
    ensures ParseMembers(s, i).Some? && ParseMembers(s, i).value.0 == ms
    ensures ParseMembers(s, i).value.1 == k + 1
    decreases ms, 1
  {
    if |ms| == 1 {
      ParseSerializedLastMember(ms, lay, s, i, n, k);
    } else {
      ParseSerializedNextMembers(ms, lay, s, i, n, k);
    }
  }

  lemma {:induction false} ParseSerializedLastMember(ms: seq<(string, Value)>, lay: Layout, s: string, i: nat, n: nat, k: nat)
    requires |ms| == 1 && ValidLayout(lay) && WellFormed(ms[0].1)
    requires At(s, i, Member(ms[0], lay)) && n == i + |Member(ms[0], lay)|
    requires At(s, n, lay.close) && k == n + |lay.close| && k < |s| && s[k] == '}'
    ensures ParseMembers(s, i).Some? && ParseMembers(s, i).value.0 == ms
    ensures ParseMembers(s, i).value.1 == k + 1
    decreases ms, 0
  {
    ClosingDelimited(s, n, lay.close, k);
    ParseSerializedMember(ms[0], lay, s, i);
    StepLastMember(s, i, ms, n, k);
  }

  lemma {:induction false} ParseSerializedNextMembers(ms: seq<(string, Value)>, lay: Layout, s: string, i: nat, n: nat, k: nat)
    requires |ms| > 1 && ValidLayout(lay)
    requires forall q | 0 <= q < |ms| :: WellFormed(ms[q].1)
    requires At(s, i, Members(ms, lay)) && n == i + |Members(ms, lay)|
    requires At(s, n, lay.close) && k == n + |lay.close| && k < |s| && s[k] == '}'
    ensures ParseMembers(s, i).Some? && ParseMembers(s, i).value.0 == ms
    ensures ParseMembers(s, i).value.1 == k + 1
    decreases ms, 0
  {
    var first := Member(ms[0], lay);
    var rest := ms[1..];
    var more := Members(rest, lay);
    var f := i + |first|;
    var m := f + 1 + |lay.comma|;
    MembersStart(rest, lay);
    NextItem(s, i, first, lay.comma, more, f, m);
    ParseSerializedMember(ms[0], lay, s, i);
    assert forall q | 0 <= q < |rest| :: rest[q] == ms[q + 1];
    ParseSerializedMembers(rest, lay, s, m, n, k);
    StepNextMember(s, i, ms, f, m, k + 1);
  }

  /** `json.loads` reads every written well-formed value back as itself, in every layout. */
  lemma LoadsSerialized(v: Value, lay: Layout)
    requires WellFormed(v) && ValidLayout(lay)
    ensures Loads(Serialize(v, lay)) == Some(v)
  {
    var s := Serialize(v, lay);
    SerializedStart(v, lay);
    SkipWsOver(s, 0, []);
    assert At(s, 0, s);
    ParseSerialized(v, lay, s, 0);
  }
}
