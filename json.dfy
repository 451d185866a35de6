/**
 * The reading of JSON text that `json.loads` performs on a `str` (RFC 8259 plus the constants
 * NaN, Infinity and -Infinity that Python also accepts), following the order of checks of
 * CPython's scanner. A successful reading yields a `Value`; every `JSONDecodeError` is `None`.
 */
module Json {
  import opened Wrappers

  /**
   * What `json.loads` returns: `None`, `bool`, a number, `str`, `list`, or `dict`. A number is kept as
   * the text of its token (its float or int value is not modelled). An object is a `dict`: its
   * members in insertion order with pairwise distinct keys.
   */
  datatype Value =
    | Null
    | Bool(b: bool)
    | Num(lexeme: string)
    | Str(s: string)
    | Arr(items: seq<Value>)
    | Obj(members: seq<(string, Value)>)

  // ---------------------------------------------------------------------------------------------
  // Characters. Like CPython's scanner, every reader below takes the whole text `s` and the index
  // `i` where it starts, and returns the index just past what it consumed.

  /** The whitespace JSON allows between tokens: space, tab, line feed, carriage return. */
  predicate IsWs(c: char) {
    c == ' ' || c == '\t' || c == '\n' || c == '\r'
  }

  predicate AllWs(s: string) {
    forall i | 0 <= i < |s| :: IsWs(s[i])
  }

  predicate IsDigit(c: char) {
    '0' <= c <= '9'
  }

  /** The word `w` occurs in `s` at index `i`. */
  predicate At(s: string, i: nat, w: string) {
    i + |w| <= |s| && forall k | 0 <= k < |w| :: s[i + k] == w[k]
  }

  /** The index of the first non-whitespace character at or after `i`. */
  function SkipWs(s: string, i: nat): (j: nat)
    requires i <= |s|
    decreases |s| - i
    ensures i <= j <= |s|
  {
    if i < |s| && IsWs(s[i]) then SkipWs(s, i + 1) else i
  }

  /** The value of one hexadecimal digit, either case. */
  function HexDigit(c: char): (r: Option<nat>)
    ensures r.Some? <==> (IsDigit(c) || 'a' <= c <= 'f' || 'A' <= c <= 'F')
    ensures r.Some? ==> r.value < 16
  {
    if IsDigit(c) then Some(c as int - '0' as int)
    else if 'a' <= c <= 'f' then Some(c as int - 'a' as int + 10)
    else if 'A' <= c <= 'F' then Some(c as int - 'A' as int + 10)
    else None
  }

  /** The value of the four hexadecimal digits at index `i` (the `XXXX` of `\uXXXX`). */
  function Hex4(s: string, i: nat): (r: Option<nat>)
    ensures r.Some? ==> i + 4 <= |s| && r.value < 0x10000
    ensures r.Some? <==> i + 4 <= |s| && HexDigit(s[i]).Some? && HexDigit(s[i + 1]).Some?
                                      && HexDigit(s[i + 2]).Some? && HexDigit(s[i + 3]).Some?
  {
    if i + 4 > |s| then None
    else match (HexDigit(s[i]), HexDigit(s[i + 1]), HexDigit(s[i + 2]), HexDigit(s[i + 3]))
      case (Some(a), Some(b), Some(c), Some(d)) => Some(((a * 16 + b) * 16 + c) * 16 + d)
      case _ => None
  }

  // ---------------------------------------------------------------------------------------------
  // Strings

  /**
   * The character an escape sequence stands for; `i` follows the backslash. A high surrogate must
   * be followed by an escaped low surrogate, and the pair stands for one supplementary character.
   */
  function ParseEscape(s: string, i: nat): (r: Option<(char, nat)>)
    ensures r.Some? ==> i < r.value.1 <= |s|
  {
    if i >= |s| then None
    else if s[i] == '"' then Some(('"', i + 1))
    else if s[i] == '\\' then Some(('\\', i + 1))
    else if s[i] == '/' then Some(('/', i + 1))
    else if s[i] == 'b' then Some((0x08 as char, i + 1))
    else if s[i] == 'f' then Some((0x0C as char, i + 1))
    else if s[i] == 'n' then Some(('\n', i + 1))
    else if s[i] == 'r' then Some(('\r', i + 1))
    else if s[i] == 't' then Some(('\t', i + 1))
    else if s[i] == 'u' then
      match Hex4(s, i + 1)
      case None => None
      case Some(hi) =>
        if 0xD800 <= hi <= 0xDBFF then
          if At(s, i + 5, "\\u") then
            match Hex4(s, i + 7)
            case Some(lo) =>
              if 0xDC00 <= lo <= 0xDFFF then
                Some(((0x10000 + (hi - 0xD800) * 0x400 + (lo - 0xDC00)) as char, i + 11))
              else None
            case None => None
          else None
        else if 0xDC00 <= hi <= 0xDFFF then None
        else Some((hi as char, i + 5))
    else None
  }

  /**
   * The contents of a string token; `i` follows the opening quote, and the returned index follows
   * the closing quote. A raw control character (below U+0020) is rejected.
   */
  function ParseStringBody(s: string, i: nat): (r: Option<(string, nat)>)
    decreases |s| - i
    ensures r.Some? ==> i < r.value.1 <= |s| && s[r.value.1 - 1] == '"'
  {
    if i >= |s| then None
    else if s[i] == '"' then Some(([], i + 1))
    else if s[i] == '\\' then
      match ParseEscape(s, i + 1)
      case None => None
      case Some((c, next)) =>
        match ParseStringBody(s, next)
        case None => None
        case Some((t, j)) => Some(([c] + t, j))
    else if (s[i] as int) < 0x20 then None
    else
      match ParseStringBody(s, i + 1)
      case None => None
      case Some((t, j)) => Some(([s[i]] + t, j))
  }

  // ---------------------------------------------------------------------------------------------
  // Numbers

  /** The end of the run of ASCII digits that starts at `i`. */
  function DigitRun(s: string, i: nat): (j: nat)
    requires i <= |s|
    decreases |s| - i
    ensures i <= j <= |s|
    ensures forall k | i <= k < j :: IsDigit(s[k])
    ensures j == |s| || !IsDigit(s[j])
  {
    if i < |s| && IsDigit(s[i]) then DigitRun(s, i + 1) else i
  }

  /** The end of the integer part: a single `0`, or a non-zero digit followed by digits; `i` if absent. */
  function IntEnd(s: string, i: nat): (j: nat)
    requires i <= |s|
    ensures i <= j <= |s|
    ensures j > i ==> IsDigit(s[i])
  {
    if i == |s| then i
    else if s[i] == '0' then i + 1
    else if '1' <= s[i] <= '9' then DigitRun(s, i + 1)
    else i
  }

  /** The end of the fraction: a `.` taken only when a digit follows it; `i` if absent. */
  function FracEnd(s: string, i: nat): (j: nat)
    requires i <= |s|
    ensures i <= j <= |s|
    ensures j == i || (j >= i + 2 && s[i] == '.')
  {
    if i + 1 < |s| && s[i] == '.' && IsDigit(s[i + 1]) then DigitRun(s, i + 1) else i
  }

  /** The end of the exponent: `e` or `E`, an optional sign and at least one digit; `i` if absent. */
  function ExpEnd(s: string, i: nat): (j: nat)
    requires i <= |s|
    ensures i <= j <= |s|
    ensures j == i || (j >= i + 2 && (s[i] == 'e' || s[i] == 'E'))
  {
    if i + 1 < |s| && (s[i] == 'e' || s[i] == 'E') then
      var k := if s[i + 1] == '+' || s[i + 1] == '-' then i + 2 else i + 1;
      var d := DigitRun(s, k);
      if d == k then i else d
    else i
  }

  /**
   * The end of the number token at `i`: `-?(0|[1-9][0-9]*)(\.[0-9]+)?([eE][-+]?[0-9]+)?`, each
   * optional part taken only when it is complete.
   */
  function ScanNumber(s: string, i: nat): (r: Option<nat>)
    requires i <= |s|
    ensures r.Some? ==> i < r.value <= |s|
    ensures r.Some? ==> s[i] == '-' || IsDigit(s[i])
    ensures r.Some? ==> IsDigit(s[r.value - 1])
  {
    var a := if i < |s| && s[i] == '-' then i + 1 else i;
    var b := IntEnd(s, a);
    if b == a then None
    else
      var c := FracEnd(s, b);
      Some(ExpEnd(s, c))
  }

  // ---------------------------------------------------------------------------------------------
  // Values

  /** The value token that starts exactly at `i` (no whitespace skipped), and the index after it. */
  function ParseValue(s: string, i: nat): (r: Option<(Value, nat)>)
    requires i <= |s|
    decreases |s| - i, 0
    ensures r.Some? ==> i < r.value.1 <= |s|
    ensures r.Some? && s[i] == '{' ==> r.value.0.Obj? && s[r.value.1 - 1] == '}'
  {
    if i == |s| then None
    else if s[i] == '"' then
      match ParseStringBody(s, i + 1)
      case None => None
      case Some((t, j)) => Some((Str(t), j))
    else if s[i] == '{' then ParseObject(s, i + 1)
    else if s[i] == '[' then ParseArray(s, i + 1)
    else if At(s, i, "null") then Some((Null, i + 4))
    else if At(s, i, "true") then Some((Bool(true), i + 4))
    else if At(s, i, "false") then Some((Bool(false), i + 5))
    else if At(s, i, "NaN") then Some((Num("NaN"), i + 3))
    else if At(s, i, "Infinity") then Some((Num("Infinity"), i + 8))
    else if At(s, i, "-Infinity") then Some((Num("-Infinity"), i + 9))
    else
      match ScanNumber(s, i)
      case None => None
      case Some(j) => Some((Num(s[i..j]), j))
  }

  /** An object's body; `i` follows `{`, and the returned index follows the closing `}`. */
  function ParseObject(s: string, i: nat): (r: Option<(Value, nat)>)
    requires i <= |s|
    decreases |s| - i, 3
    ensures r.Some? ==> i < r.value.1 <= |s| && s[r.value.1 - 1] == '}'
    ensures r.Some? ==> r.value.0.Obj?
  {
    var j := SkipWs(s, i);
    if j < |s| && s[j] == '}' then Some((Obj([]), j + 1))
    else
      match ParseMembers(s, j)
      case None => None
      case Some((pairs, k)) => Some((Obj(ToDict(pairs)), k))
  }

  /** One `"key": value` pair of an object; `i` is at the key's opening quote. */
  function ParseMember(s: string, i: nat): (r: Option<((string, Value), nat)>)
    requires i <= |s|
    decreases |s| - i, 1
    ensures r.Some? ==> i < r.value.1 <= |s|
  {
    if i == |s| || s[i] != '"' then None
    else
      match ParseStringBody(s, i + 1)
      case None => None
      case Some((key, afterKey)) =>
        match MemberValue(s, SkipWs(s, afterKey))
        case None => None
        case Some((v, j)) => Some(((key, v), j))
  }

  /** What follows a key at `k`: a `:` and, after optional whitespace, the value. */
  function MemberValue(s: string, k: nat): (r: Option<(Value, nat)>)
    requires k <= |s|
    decreases |s| - k, 0
    ensures r.Some? ==> k < r.value.1 <= |s|
  {
    if k == |s| || s[k] != ':' then None else ParseValue(s, SkipWs(s, k + 1))
  }

  /**
   * The pairs of a non-empty object, in text order; `i` is at the first key, and the returned
   * index follows the closing `}`.
   */
  function ParseMembers(s: string, i: nat): (r: Option<(seq<(string, Value)>, nat)>)
    requires i <= |s|
    decreases |s| - i, 2
    ensures r.Some? ==> i < r.value.1 <= |s| && s[r.value.1 - 1] == '}'
  {
    match ParseMember(s, i)
    case None => None
    case Some((m, afterValue)) =>
      match MembersRest(s, SkipWs(s, afterValue))
      case None => None
      case Some((more, j)) => Some(([m] + more, j))
  }

  /** What follows a pair at `k`: the closing `}`, or a `,` and further pairs. */
  function MembersRest(s: string, k: nat): (r: Option<(seq<(string, Value)>, nat)>)
    requires k <= |s|
    decreases |s| - k, 0
    ensures r.Some? ==> k < r.value.1 <= |s| && s[r.value.1 - 1] == '}'
  {
    if k == |s| then None
    else if s[k] == '}' then Some(([], k + 1))
    else if s[k] == ',' then ParseMembers(s, SkipWs(s, k + 1))
    else None
  }

  /** An array's body; `i` follows `[`, and the returned index follows the closing `]`. */
  function ParseArray(s: string, i: nat): (r: Option<(Value, nat)>)
    requires i <= |s|
    decreases |s| - i, 3
    ensures r.Some? ==> i < r.value.1 <= |s| && s[r.value.1 - 1] == ']'
    ensures r.Some? ==> r.value.0.Arr?
  {
    var j := SkipWs(s, i);
    if j < |s| && s[j] == ']' then Some((Arr([]), j + 1))
    else
      match ParseElements(s, j)
      case None => None
      case Some((items, k)) => Some((Arr(items), k))
  }

  /** The elements of a non-empty array; `i` is at the first element. */
  function ParseElements(s: string, i: nat): (r: Option<(seq<Value>, nat)>)
    requires i <= |s|
    decreases |s| - i, 2
    ensures r.Some? ==> i < r.value.1 <= |s| && s[r.value.1 - 1] == ']'
  {
    match ParseValue(s, i)
    case None => None
    case Some((v, afterValue)) =>
      match ElementsRest(s, SkipWs(s, afterValue))
      case None => None
      case Some((more, j)) => Some(([v] + more, j))
  }

  /** What follows an element at `k`: the closing `]`, or a `,` and further elements. */
  function ElementsRest(s: string, k: nat): (r: Option<(seq<Value>, nat)>)
    requires k <= |s|
    decreases |s| - k, 0
    ensures r.Some? ==> k < r.value.1 <= |s| && s[r.value.1 - 1] == ']'
  {
    if k == |s| then None
    else if s[k] == ']' then Some(([], k + 1))
    else if s[k] == ',' then ParseElements(s, SkipWs(s, k + 1))
    else None
  }

  /**
   * `json.loads(s)`: optional whitespace, exactly one value, optional whitespace, and nothing else.
   * `None` stands for a `JSONDecodeError`.
   */
  function Loads(s: string): (r: Option<Value>)
  {
    var i := SkipWs(s, 0);
    match ParseValue(s, i)
    case None => None
    case Some((v, j)) => if SkipWs(s, j) == |s| then Some(v) else None
  }

  // ---------------------------------------------------------------------------------------------
  // Single steps of the reader, each stated on the components of its result, for proofs about
  // texts that go through them instead of unfolding the mutually recursive reader.

  lemma StepStringEnd(s: string, i: nat)
    requires i < |s| && s[i] == '"'
    ensures ParseStringBody(s, i).Some? && ParseStringBody(s, i).value.0 == []
    ensures ParseStringBody(s, i).value.1 == i + 1
  {
  }

  lemma StepStringEscape(s: string, i: nat, t: string, next: nat, j: nat)
    requires i < |s| && s[i] == '\\' && t != []
    requires ParseEscape(s, i + 1).Some? && ParseEscape(s, i + 1).value.0 == t[0]
    requires ParseEscape(s, i + 1).value.1 == next
    requires ParseStringBody(s, next).Some? && ParseStringBody(s, next).value.0 == t[1..]
    requires ParseStringBody(s, next).value.1 == j
    ensures ParseStringBody(s, i).Some? && ParseStringBody(s, i).value.0 == t
    ensures ParseStringBody(s, i).value.1 == j
  {
    assert [t[0]] + t[1..] == t;
  }

  lemma StepStringChar(s: string, i: nat, t: string, j: nat)
    requires i < |s| && s[i] != '"' && s[i] != '\\' && (s[i] as int) >= 0x20
    requires t != [] && s[i] == t[0]
    requires ParseStringBody(s, i + 1).Some? && ParseStringBody(s, i + 1).value.0 == t[1..]
    requires ParseStringBody(s, i + 1).value.1 == j
    ensures ParseStringBody(s, i).Some? && ParseStringBody(s, i).value.0 == t
    ensures ParseStringBody(s, i).value.1 == j
  {
    assert [t[0]] + t[1..] == t;
  }

  lemma StepString(s: string, i: nat, t: string, j: nat)
    requires i < |s| && s[i] == '"'
    requires ParseStringBody(s, i + 1).Some? && ParseStringBody(s, i + 1).value.0 == t
    requires ParseStringBody(s, i + 1).value.1 == j
    ensures ParseValue(s, i).Some? && ParseValue(s, i).value.0 == Str(t)
    ensures ParseValue(s, i).value.1 == j
  {
  }

  lemma StepTrue(s: string, i: nat)
    requires i < |s| && s[i] == 't' && !At(s, i, "null") && At(s, i, "true")
    ensures ParseValue(s, i).Some? && ParseValue(s, i).value.0 == Bool(true)
    ensures ParseValue(s, i).value.1 == i + 4
  {
  }

  lemma StepFalse(s: string, i: nat)
    requires i < |s| && s[i] == 'f' && !At(s, i, "null") && !At(s, i, "true") && At(s, i, "false")
    ensures ParseValue(s, i).Some? && ParseValue(s, i).value.0 == Bool(false)
    ensures ParseValue(s, i).value.1 == i + 5
  {
  }

  lemma StepScanNumber(s: string, i: nat, a: nat, b: nat, c: nat, j: nat)
    requires i < |s| && a == (if s[i] == '-' then i + 1 else i) && a <= |s|
    requires IntEnd(s, a) == b && b != a && FracEnd(s, b) == c && ExpEnd(s, c) == j
    ensures ScanNumber(s, i).Some? && ScanNumber(s, i).value == j
  {
  }

  lemma StepNumber(s: string, i: nat, j: nat)
    requires i < |s| && s[i] != '"' && s[i] != '{' && s[i] != '['
    requires !At(s, i, "null") && !At(s, i, "true") && !At(s, i, "false")
    requires !At(s, i, "NaN") && !At(s, i, "Infinity") && !At(s, i, "-Infinity")
    requires ScanNumber(s, i).Some? && ScanNumber(s, i).value == j
    ensures ParseValue(s, i).Some? && ParseValue(s, i).value.0 == Num(s[i..j])
    ensures ParseValue(s, i).value.1 == j
  {
  }

  lemma StepOpenArray(s: string, i: nat, v: Value, j: nat)
    requires i < |s| && s[i] == '['
    requires ParseArray(s, i + 1).Some? && ParseArray(s, i + 1).value.0 == v
    requires ParseArray(s, i + 1).value.1 == j
    ensures ParseValue(s, i).Some? && ParseValue(s, i).value.0 == v
    ensures ParseValue(s, i).value.1 == j
  {
  }

  lemma StepOpenObject(s: string, i: nat, v: Value, j: nat)
    requires i < |s| && s[i] == '{'
    requires ParseObject(s, i + 1).Some? && ParseObject(s, i + 1).value.0 == v
    requires ParseObject(s, i + 1).value.1 == j
    ensures ParseValue(s, i).Some? && ParseValue(s, i).value.0 == v
    ensures ParseValue(s, i).value.1 == j
  {
  }

  lemma StepEmptyArray(s: string, i: nat, j: nat)
    requires i <= |s| && SkipWs(s, i) == j && j < |s| && s[j] == ']'
    ensures ParseArray(s, i).Some? && ParseArray(s, i).value.0 == Arr([])
    ensures ParseArray(s, i).value.1 == j + 1
  {
  }

  lemma StepArrayItems(s: string, i: nat, j: nat, items: seq<Value>, k: nat)
    requires i <= |s| && SkipWs(s, i) == j && j < |s| && s[j] != ']'
    requires ParseElements(s, j).Some? && ParseElements(s, j).value.0 == items
    requires ParseElements(s, j).value.1 == k
    ensures ParseArray(s, i).Some? && ParseArray(s, i).value.0 == Arr(items)
    ensures ParseArray(s, i).value.1 == k
  {
  }

  lemma StepElements(s: string, i: nat, v: Value, a: nat, b: nat, more: seq<Value>, j: nat)
    requires i <= |s| && ParseValue(s, i).Some? && ParseValue(s, i).value.0 == v
    requires ParseValue(s, i).value.1 == a && SkipWs(s, a) == b
    requires ElementsRest(s, b).Some? && ElementsRest(s, b).value.0 == more
    requires ElementsRest(s, b).value.1 == j
    ensures ParseElements(s, i).Some? && ParseElements(s, i).value.0 == [v] + more
    ensures ParseElements(s, i).value.1 == j
  {
  }

  lemma StepElementsClose(s: string, k: nat)
    requires k < |s| && s[k] == ']'
    ensures ElementsRest(s, k).Some? && ElementsRest(s, k).value.0 == []
    ensures ElementsRest(s, k).value.1 == k + 1
  {
  }

  lemma StepElementsComma(s: string, k: nat, m: nat, more: seq<Value>, j: nat)
    requires k < |s| && s[k] == ',' && SkipWs(s, k + 1) == m
    requires ParseElements(s, m).Some? && ParseElements(s, m).value.0 == more
    requires ParseElements(s, m).value.1 == j
    ensures ElementsRest(s, k).Some? && ElementsRest(s, k).value.0 == more
    ensures ElementsRest(s, k).value.1 == j
  {
  }

  lemma StepLastElement(s: string, i: nat, items: seq<Value>, n: nat, k: nat)
    requires |items| == 1
    requires i <= |s| && ParseValue(s, i).Some? && ParseValue(s, i).value.0 == items[0]
    requires ParseValue(s, i).value.1 == n && SkipWs(s, n) == k && k < |s| && s[k] == ']'
    ensures ParseElements(s, i).Some? && ParseElements(s, i).value.0 == items
    ensures ParseElements(s, i).value.1 == k + 1
  {
    StepElementsClose(s, k);
    StepElements(s, i, items[0], n, k, [], k + 1);
    assert [items[0]] + [] == items;
  }

  lemma StepNextElement(s: string, i: nat, items: seq<Value>, n: nat, m: nat, j: nat)
    requires |items| > 1
    requires i <= |s| && ParseValue(s, i).Some? && ParseValue(s, i).value.0 == items[0]
    requires ParseValue(s, i).value.1 == n && n < |s| && s[n] == ',' && SkipWs(s, n + 1) == m
    requires ParseElements(s, m).Some? && ParseElements(s, m).value.0 == items[1..]
    requires ParseElements(s, m).value.1 == j
    ensures ParseElements(s, i).Some? && ParseElements(s, i).value.0 == items
    ensures ParseElements(s, i).value.1 == j
  {
    StepElementsComma(s, n, m, items[1..], j);
    StepElements(s, i, items[0], n, n, items[1..], j);
    assert [items[0]] + items[1..] == items;
  }

  lemma StepEmptyObject(s: string, i: nat, j: nat)
    requires i <= |s| && SkipWs(s, i) == j && j < |s| && s[j] == '}'
    ensures ParseObject(s, i).Some? && ParseObject(s, i).value.0 == Obj([])
    ensures ParseObject(s, i).value.1 == j + 1
  {
  }

  lemma StepObjectMembers(s: string, i: nat, j: nat, pairs: seq<(string, Value)>, k: nat)
    requires i <= |s| && SkipWs(s, i) == j && j < |s| && s[j] != '}'
    requires ParseMembers(s, j).Some? && ParseMembers(s, j).value.0 == pairs
    requires ParseMembers(s, j).value.1 == k
    ensures ParseObject(s, i).Some? && ParseObject(s, i).value.0 == Obj(ToDict(pairs))
    ensures ParseObject(s, i).value.1 == k
  {
  }

  lemma StepMember(s: string, i: nat, key: string, c: nat, d: nat, v: Value, j: nat)
    requires i < |s| && s[i] == '"'
    requires ParseStringBody(s, i + 1).Some? && ParseStringBody(s, i + 1).value.0 == key
    requires ParseStringBody(s, i + 1).value.1 == c && SkipWs(s, c) == d
    requires MemberValue(s, d).Some? && MemberValue(s, d).value.0 == v
    requires MemberValue(s, d).value.1 == j
    ensures ParseMember(s, i).Some? && ParseMember(s, i).value.0 == (key, v)
    ensures ParseMember(s, i).value.1 == j
  {
  }

  lemma StepMemberValue(s: string, k: nat, d: nat, v: Value, j: nat)
    requires k < |s| && s[k] == ':' && SkipWs(s, k + 1) == d
    requires ParseValue(s, d).Some? && ParseValue(s, d).value.0 == v
    requires ParseValue(s, d).value.1 == j
    ensures MemberValue(s, k).Some? && MemberValue(s, k).value.0 == v
    ensures MemberValue(s, k).value.1 == j
  {
  }

  lemma StepMembers(s: string, i: nat, m: (string, Value), a: nat, b: nat, more: seq<(string, Value)>, j: nat)
    requires i <= |s| && ParseMember(s, i).Some? && ParseMember(s, i).value.0 == m
    requires ParseMember(s, i).value.1 == a && SkipWs(s, a) == b
    requires MembersRest(s, b).Some? && MembersRest(s, b).value.0 == more
    requires MembersRest(s, b).value.1 == j
    ensures ParseMembers(s, i).Some? && ParseMembers(s, i).value.0 == [m] + more
    ensures ParseMembers(s, i).value.1 == j
  {
  }

  lemma StepMembersClose(s: string, k: nat)
    requires k < |s| && s[k] == '}'
    ensures MembersRest(s, k).Some? && MembersRest(s, k).value.0 == []
    ensures MembersRest(s, k).value.1 == k + 1
  {
  }

  lemma StepMembersComma(s: string, k: nat, m: nat, more: seq<(string, Value)>, j: nat)
    requires k < |s| && s[k] == ',' && SkipWs(s, k + 1) == m
    requires ParseMembers(s, m).Some? && ParseMembers(s, m).value.0 == more
    requires ParseMembers(s, m).value.1 == j
    ensures MembersRest(s, k).Some? && MembersRest(s, k).value.0 == more
    ensures MembersRest(s, k).value.1 == j
  {
  }

  lemma StepLastMember(s: string, i: nat, ms: seq<(string, Value)>, n: nat, k: nat)
    requires |ms| == 1
    requires i <= |s| && ParseMember(s, i).Some? && ParseMember(s, i).value.0 == ms[0]
    requires ParseMember(s, i).value.1 == n && SkipWs(s, n) == k && k < |s| && s[k] == '}'
    ensures ParseMembers(s, i).Some? && ParseMembers(s, i).value.0 == ms
    ensures ParseMembers(s, i).value.1 == k + 1
  {
    StepMembersClose(s, k);
    StepMembers(s, i, ms[0], n, k, [], k + 1);
    assert [ms[0]] + [] == ms;
  }

  lemma StepNextMember(s: string, i: nat, ms: seq<(string, Value)>, n: nat, m: nat, j: nat)
    requires |ms| > 1
    requires i <= |s| && ParseMember(s, i).Some? && ParseMember(s, i).value.0 == ms[0]
    requires ParseMember(s, i).value.1 == n && n < |s| && s[n] == ',' && SkipWs(s, n + 1) == m
    requires ParseMembers(s, m).Some? && ParseMembers(s, m).value.0 == ms[1..]
    requires ParseMembers(s, m).value.1 == j
    ensures ParseMembers(s, i).Some? && ParseMembers(s, i).value.0 == ms
    ensures ParseMembers(s, i).value.1 == j
  {
    StepMembersComma(s, n, m, ms[1..], j);
    StepMembers(s, i, ms[0], n, n, ms[1..], j);
    assert [ms[0]] + ms[1..] == ms;
  }

  /** A pair written with its colon right after the key. */
  lemma StepPair(s: string, i: nat, key: string, c: nat, d: nat, v: Value, j: nat)
    requires i < |s| && s[i] == '"'
    requires ParseStringBody(s, i + 1).Some? && ParseStringBody(s, i + 1).value.0 == key
    requires ParseStringBody(s, i + 1).value.1 == c && c < |s| && s[c] == ':' && SkipWs(s, c + 1) == d
    requires ParseValue(s, d).Some? && ParseValue(s, d).value.0 == v
    requires ParseValue(s, d).value.1 == j
    ensures ParseMember(s, i).Some? && ParseMember(s, i).value.0 == (key, v)
    ensures ParseMember(s, i).value.1 == j
  {
    StepMemberValue(s, c, d, v, j);
    StepMember(s, i, key, c, c, v, j);
  }

  // ---------------------------------------------------------------------------------------------
  // Objects as Python dicts

  function Keys(d: seq<(string, Value)>): (ks: seq<string>)
    ensures |ks| == |d|
    ensures forall i | 0 <= i < |d| :: ks[i] == d[i].0
  {
    if d == [] then [] else [d[0].0] + Keys(d[1..])
  }

  predicate DistinctKeys(d: seq<(string, Value)>) {
    forall i, j | 0 <= i < j < |d| :: d[i].0 != d[j].0
  }

  /** `d[key]`, if the key is present. */
  function Lookup(d: seq<(string, Value)>, key: string): (r: Option<Value>)
    ensures r.None? <==> key !in Keys(d)
  {
    if d == [] then None
    else if d[0].0 == key then Some(d[0].1)
    else Lookup(d[1..], key)
  }

  /**
   * `d[key] = v` on a dict: an existing key keeps its position and takes the new value, a new key
   * is appended.
   */
  function Put(d: seq<(string, Value)>, key: string, v: Value): (r: seq<(string, Value)>)
    ensures DistinctKeys(d) ==> DistinctKeys(r)
    ensures key in Keys(d) ==> Keys(r) == Keys(d)
    ensures key !in Keys(d) ==> r == d + [(key, v)]
  {
    if d == [] then [(key, v)]
    else if d[0].0 == key then [(key, v)] + d[1..]
    else [d[0]] + Put(d[1..], key, v)
  }

  /** After `d[key] = v`, `key` maps to `v` and every other key to what it mapped to before. */
  lemma {:induction false} PutLookup(d: seq<(string, Value)>, key: string, v: Value, k: string)
    ensures Lookup(Put(d, key, v), k) == if k == key then Some(v) else Lookup(d, k)
  {
    if d != [] && d[0].0 != key {
      PutLookup(d[1..], key, v, k);
      assert Put(d, key, v)[1..] == Put(d[1..], key, v);
    }
  }

  /**
   * The dict built from the pairs of an object in text order (CPython inserts them one by one):
   * when a key repeats, the key keeps the position of its first occurrence.
   */
  function ToDict(pairs: seq<(string, Value)>): (d: seq<(string, Value)>)
    ensures DistinctKeys(d)
  {
    if pairs == [] then []
    else
      var n := |pairs| - 1;
      Put(ToDict(pairs[..n]), pairs[n].0, pairs[n].1)
  }

  /** The value paired with `key` by its last occurrence in `pairs`. */
  function LastValue(pairs: seq<(string, Value)>, key: string): (r: Option<Value>)
    ensures r.Some? <==> exists i | 0 <= i < |pairs| :: pairs[i].0 == key
  {
    if pairs == [] then None
    else if pairs[|pairs| - 1].0 == key then Some(pairs[|pairs| - 1].1)
    else LastValue(pairs[..|pairs| - 1], key)
  }

  /** In the dict built from an object's pairs, the last value given for a key wins. */
  lemma {:induction false} ToDictLastWins(pairs: seq<(string, Value)>, k: string)
    ensures Lookup(ToDict(pairs), k) == LastValue(pairs, k)
  {
    if pairs != [] {
      var n := |pairs| - 1;
      ToDictLastWins(pairs[..n], k);
      PutLookup(ToDict(pairs[..n]), pairs[n].0, pairs[n].1, k);
    }
  }

  /** Building a dict from pairs whose keys are already distinct keeps the pairs as they are. */
  lemma {:induction false} ToDictOfDistinct(pairs: seq<(string, Value)>)
    requires DistinctKeys(pairs)
    ensures ToDict(pairs) == pairs
  {
    if pairs != [] {
      var n := |pairs| - 1;
      DistinctFront(pairs);
      ToDictOfDistinct(pairs[..n]);
      assert pairs[..n] + [(pairs[n].0, pairs[n].1)] == pairs;
    }
  }

  lemma DistinctFront(pairs: seq<(string, Value)>)
    requires DistinctKeys(pairs) && pairs != []
    ensures DistinctKeys(pairs[..|pairs| - 1])
    ensures pairs[|pairs| - 1].0 !in Keys(pairs[..|pairs| - 1])
  {
    var n := |pairs| - 1;
    var front := pairs[..n];
    forall j | 0 <= j < n ensures Keys(front)[j] != pairs[n].0 {
      assert pairs[j].0 != pairs[n].0;
    }
  }
}
