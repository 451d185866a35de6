/**
 * Python's `str.strip()` with no argument: remove every leading and trailing character for which
 * `str.isspace()` holds.
 */
module PyText {

  /** The characters `str.isspace()` accepts (bidirectional class WS, B or S, or category Zs). */
  predicate IsSpace(c: char) {
    var n := c as int;
    n == 0x20 || (0x09 <= n <= 0x0D) || (0x1C <= n <= 0x1F) || n == 0x85 || n == 0xA0
    || n == 0x1680 || (0x2000 <= n <= 0x200A) || n == 0x2028 || n == 0x2029
    || n == 0x202F || n == 0x205F || n == 0x3000
  }

  predicate AllSpace(s: string) {
    forall i | 0 <= i < |s| :: IsSpace(s[i])
  }

  /** Drops the leading run of space characters. */
  function TrimStart(s: string): (r: string)
    ensures |r| <= |s| && r == s[|s| - |r|..]
    ensures AllSpace(s[..|s| - |r|])
    ensures r == [] || !IsSpace(r[0])
  {
    if s != [] && IsSpace(s[0]) then TrimStart(s[1..]) else s
  }

  /** Drops the trailing run of space characters. */
  function TrimEnd(s: string): (r: string)
    ensures |r| <= |s| && r == s[..|r|]
    ensures AllSpace(s[|r|..])
    ensures r == [] || !IsSpace(r[|r| - 1])
  {
    if s != [] && IsSpace(s[|s| - 1]) then TrimEnd(s[..|s| - 1]) else s
  }

  /** `s.strip()`: what is left once the space runs at both ends are removed. */
  function Strip(s: string): (r: string)
    ensures r == [] || (!IsSpace(r[0]) && !IsSpace(r[|r| - 1]))
  {
    TrimEnd(TrimStart(s))
  }

  /** `r` is the slice of `s` at `i`, with only space characters before and after it. */
  predicate SpaceAround(s: string, i: nat, r: string) {
    i + |r| <= |s| && AllSpace(s[..i]) && s[i..i + |r|] == r && AllSpace(s[i + |r|..])
  }

  lemma SuffixSlices(s: string, i: nat, n: nat)
    requires i + n <= |s|
    ensures s[i..][..n] == s[i..i + n] && s[i..][n..] == s[i + n..]
  {
  }

  /** The strip of `s` is the slice of `s` between a leading and a trailing run of space characters. */
  lemma StripIsSlice(s: string)
    ensures exists i: nat :: SpaceAround(s, i, Strip(s))
  {
    var t := TrimStart(s);
    var r := TrimEnd(t);
    var i := |s| - |t|;
    SuffixSlices(s, i, |r|);
    assert SpaceAround(s, i, r);
    assert Strip(s) == r;
  }

  /** Space added in front of the text never survives `TrimStart`. */
  lemma {:induction false} TrimStartPadded(w: string, s: string)
    requires AllSpace(w)
    ensures TrimStart(w + s) == TrimStart(s)
  {
    if w != [] {
      assert (w + s)[1..] == w[1..] + s;
      TrimStartPadded(w[1..], s);
    } else {
      assert w + s == s;
    }
  }

  /** Space added behind the text never survives `TrimEnd`. */
  lemma {:induction false} TrimEndPadded(s: string, w: string)
    requires AllSpace(w)
    ensures TrimEnd(s + w) == TrimEnd(s)
  {
    if w != [] {
      var w' := w[..|w| - 1];
      assert (s + w)[..|s + w| - 1] == s + w';
      TrimEndPadded(s, w');
    } else {
      assert s + w == s;
    }
  }

  /** Space appended to the back of a text does not change its strip (its front trim, then its back trim). */
  lemma {:induction false} TrimStartAppend(s: string, w: string)
    requires AllSpace(w)
    ensures TrimEnd(TrimStart(s + w)) == TrimEnd(TrimStart(s))
  {
    if s == [] {
      assert s + w == w;
      TrimStartPadded(w, []);
      assert w + [] == w;
    } else if IsSpace(s[0]) {
      assert (s + w)[1..] == s[1..] + w;
      TrimStartAppend(s[1..], w);
    } else {
      TrimEndPadded(s, w);
    }
  }

  /** Stripping ignores any space padding on either side: `(w1 + s + w2).strip() == s.strip()`. */
  lemma StripPadded(w1: string, s: string, w2: string)
    requires AllSpace(w1) && AllSpace(w2)
    ensures Strip(w1 + s + w2) == Strip(s)
  {
    assert w1 + s + w2 == w1 + (s + w2);
    TrimStartPadded(w1, s + w2);
    TrimStartAppend(s, w2);
  }

  /** A text that neither starts nor ends with a space character is its own strip. */
  lemma StripUnpadded(s: string)
    requires s == [] || (!IsSpace(s[0]) && !IsSpace(s[|s| - 1]))
    ensures Strip(s) == s
  {
  }
}
