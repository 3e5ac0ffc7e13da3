/** The three JavaScript string operations the core relies on:
    `String.prototype.trim`, `toLowerCase` and `includes`. */
module Text {

  /** White space as `String.prototype.trim` removes it: the WhiteSpace and
      LineTerminator code points of the ECMAScript grammar (tab, vertical tab,
      form feed, space, no-break space, byte-order mark, the other `Zs`
      separators, line feed, carriage return, line and paragraph separators). */
  predicate IsWhitespace(c: char) {
    || c == '\t' || c == '\n' || c == '\U{B}' || c == '\U{C}' || c == '\r'
    || c == ' ' || c == '\U{A0}' || c == '\U{1680}'
    || ('\U{2000}' <= c <= '\U{200A}')
    || c == '\U{2028}' || c == '\U{2029}' || c == '\U{202F}' || c == '\U{205F}'
    || c == '\U{3000}' || c == '\U{FEFF}'
  }

  /** Every character of `s` is white space. */
  predicate AllWhitespace(s: string) {
    forall i :: 0 <= i < |s| ==> IsWhitespace(s[i])
  }

  /** `s` with its leading white space removed. */
  function TrimStart(s: string): (r: string)
    ensures |r| <= |s| && r == s[|s| - |r|..]
    ensures r == [] || !IsWhitespace(r[0])
    ensures AllWhitespace(s[..|s| - |r|])
  {
    if |s| > 0 && IsWhitespace(s[0]) then
      var t := s[1..];
      var r := TrimStart(t);
      var k := |s| - |r|;
      assert t[k - 1..] == s[k..];
      WhitespacePrefixCons(s, k);
      r
    else
      s
  }

  /** A white-space first character followed by a white-space run gives a
      white-space prefix. */
  lemma WhitespacePrefixCons(s: string, k: nat)
    requires 1 <= k <= |s| && IsWhitespace(s[0]) && AllWhitespace(s[1..][..k - 1])
    ensures AllWhitespace(s[..k])
  {
    forall i | 0 <= i < k ensures IsWhitespace(s[..k][i]) {
      if i > 0 { assert s[..k][i] == s[1..][..k - 1][i - 1]; }
    }
  }

  /** `s` with its trailing white space removed. */
  function TrimEnd(s: string): (r: string)
    ensures |r| <= |s| && r == s[..|r|]
    ensures r == [] || !IsWhitespace(r[|r| - 1])
    ensures AllWhitespace(s[|r|..])
  {
    if |s| > 0 && IsWhitespace(s[|s| - 1]) then
      var r := TrimEnd(s[..|s| - 1]);
      assert s[|r|..] == s[..|s| - 1][|r|..] + [s[|s| - 1]];
      r
    else
      s
  }

  /** `s.trim()`: `s` without white space at either end. */
  function Trim(s: string): (r: string)
    ensures |r| <= |s|
    ensures r == [] || (!IsWhitespace(r[0]) && !IsWhitespace(r[|r| - 1]))
  {
    TrimEnd(TrimStart(s))
  }

  /** `Trim` only removes white space: its result sits somewhere in `s` with
      nothing but white space before and after it. */
  lemma TrimIsACut(s: string)
    ensures exists a :: 0 <= a <= |s| - |Trim(s)| && IsCut(s, a, Trim(s))
  {
    var t := TrimStart(s);
    var r := TrimEnd(t);
    assert r == Trim(s);
    var a := |s| - |t|;
    assert t == s[a..] && AllWhitespace(s[..a]);
    assert r == t[..|r|] && AllWhitespace(t[|r|..]);
    assert t[..|r|] == s[a..a + |r|];
    assert t[|r|..] == s[a + |r|..];
    assert IsCut(s, a, r);
  }

  /** `r` sits at offset `a` of `s`, with only white space before and after it. */
  predicate IsCut(s: string, a: nat, r: string)
    requires a + |r| <= |s|
  {
    s[a..a + |r|] == r && AllWhitespace(s[..a]) && AllWhitespace(s[a + |r|..])
  }

  /** `TrimStart` stops at the first character that is not white space. */
  lemma {:induction false} TrimStartStopsAt(s: string, a: nat)
    requires a <= |s| && AllWhitespace(s[..a])
    requires a == |s| || !IsWhitespace(s[a])
    ensures TrimStart(s) == s[a..]
    decreases a
  {
    if a > 0 {
      assert s[..a][0] == s[0];
      assert s[1..][..a - 1] == s[..a][1..];
      TrimStartStopsAt(s[1..], a - 1);
      assert s[1..][a - 1..] == s[a..];
    }
  }

  /** `TrimEnd` stops after the last character that is not white space. */
  lemma {:induction false} TrimEndStopsAt(s: string, b: nat)
    requires b <= |s| && AllWhitespace(s[b..])
    requires b == 0 || !IsWhitespace(s[b - 1])
    ensures TrimEnd(s) == s[..b]
    decreases |s| - b
  {
    if b < |s| {
      var n := |s| - 1;
      assert s[b..][n - b] == s[n];
      assert forall j :: 0 <= j < n - b ==> s[..n][b..][j] == s[b..][j];
      TrimEndStopsAt(s[..n], b);
      assert s[..n][..b] == s[..b];
    }
  }

  /** `Trim` is the only way to cut `s` into white space, a middle part that
      neither starts nor ends with white space, and white space: whatever
      cut `a..b` satisfies that description, `Trim(s)` is `s[a..b]`. */
  lemma TrimIsUniqueCut(s: string, a: nat, b: nat)
    requires a <= b <= |s|
    requires AllWhitespace(s[..a]) && AllWhitespace(s[b..])
    requires a == b || (!IsWhitespace(s[a]) && !IsWhitespace(s[b - 1]))
    ensures Trim(s) == s[a..b]
  {
    if a == b {
      TrimOfBlankCut(s, a);
    } else {
      TrimOfProperCut(s, a, b);
    }
  }

  /** The empty middle part: a string that is white space up to `a` and from
      `a` on is all white space and trims to the empty string. */
  lemma TrimOfBlankCut(s: string, a: nat)
    requires a <= |s|
    requires AllWhitespace(s[..a]) && AllWhitespace(s[a..])
    ensures Trim(s) == []
  {
    AllWhitespaceConcat(s[..a], s[a..]);
    assert s[..a] + s[a..] == s;
    TrimAllWhitespace(s);
  }

  /** A non-empty middle part `s[a..b]` that starts and ends with a character
      other than white space is exactly what `Trim` keeps. */
  lemma TrimOfProperCut(s: string, a: nat, b: nat)
    requires a < b <= |s|
    requires AllWhitespace(s[..a]) && AllWhitespace(s[b..])
    requires !IsWhitespace(s[a]) && !IsWhitespace(s[b - 1])
    ensures Trim(s) == s[a..b]
  {
    TrimStartStopsAt(s, a);
    var t := s[a..];
    assert AllWhitespace(t[b - a..]) by { assert t[b - a..] == s[b..]; }
    assert !IsWhitespace(t[b - a - 1]) by { assert t[b - a - 1] == s[b - 1]; }
    TrimEndStopsAt(t, b - a);
    SliceOfSuffix(s, a, b);
    assert Trim(s) == TrimEnd(t);
  }

  /** Surrounding a part that neither starts nor ends with white space by
      white space on both sides, then trimming, gives that part back. */
  lemma TrimOfPadded(left: string, x: string, right: string)
    requires AllWhitespace(left) && AllWhitespace(right)
    requires x != [] && !IsWhitespace(x[0]) && !IsWhitespace(x[|x| - 1])
    ensures Trim(left + x + right) == x
  {
    var s := left + x + right;
    var a, b := |left|, |left| + |x|;
    assert s[..a] == left && s[b..] == right && s[a..b] == x;
    assert s[a] == x[0] && s[b - 1] == x[|x| - 1];
    TrimOfProperCut(s, a, b);
  }

  /** Cutting `b - a` characters off the front of `s[a..]` is `s[a..b]`. */
  lemma SliceOfSuffix(s: string, a: nat, b: nat)
    requires a <= b <= |s|
    ensures s[a..][..b - a] == s[a..b]
  {
  }

  /** An all-white-space string trims to the empty string. */
  lemma TrimAllWhitespace(s: string)
    requires AllWhitespace(s)
    ensures Trim(s) == []
  {
    assert s[..|s|] == s;
    TrimStartStopsAt(s, |s|);
  }

  /** Joining two all-white-space strings gives an all-white-space string. */
  lemma AllWhitespaceConcat(x: string, y: string)
    requires AllWhitespace(x) && AllWhitespace(y)
    ensures AllWhitespace(x + y)
  {
    forall i | 0 <= i < |x + y| ensures IsWhitespace((x + y)[i]) {
      if i < |x| { assert (x + y)[i] == x[i]; } else { assert (x + y)[i] == y[i - |x|]; }
    }
  }

  /** Trimming an already trimmed string changes nothing. */
  lemma {:induction false} TrimIdempotent(s: string)
    ensures Trim(Trim(s)) == Trim(s)
  {
    var r := Trim(s);
    assert r[..0] == [] && r[|r|..] == [];
    TrimIsUniqueCut(r, 0, |r|);
    assert r[0..|r|] == r;
  }

  /** A string trims to the empty string exactly when it is all white space. */
  lemma TrimEmptyIff(s: string)
    ensures Trim(s) == [] <==> AllWhitespace(s)
  {
    if AllWhitespace(s) {
      assert s[..0] == [] && s[0..] == s;
      TrimIsUniqueCut(s, 0, 0);
    }
    if Trim(s) == [] {
      var t := TrimStart(s);
      var k := |s| - |t|;
      assert t[0..] == t;
      AllWhitespaceConcat(s[..k], t);
      assert s[..k] + t == s;
    }
  }

  /** `c.toLowerCase()` for a single character, on the ASCII letters. */
  function LowerChar(c: char): char {
    if 'A' <= c <= 'Z' then (c as int + 32) as char else c
  }

  /** `s.toLowerCase()`, restricted to ASCII case mapping: no upper-case
      ASCII letter is left, and a character changes exactly when it is one. */
  function Lower(s: string): (r: string)
    ensures |r| == |s|
    ensures forall i :: 0 <= i < |r| ==> !('A' <= r[i] <= 'Z')
    ensures forall i :: 0 <= i < |r| ==> (r[i] == s[i] <==> !('A' <= s[i] <= 'Z'))
    ensures forall i :: 0 <= i < |s| && 'A' <= s[i] <= 'Z' ==>
      r[i] as int - 'a' as int == s[i] as int - 'A' as int
  {
    seq(|s|, i requires 0 <= i < |s| => LowerChar(s[i]))
  }

  /** Two characters lower-case alike exactly when they are equal or one is
      the upper-case ASCII form of the other. */
  lemma LowerCharAlike(c: char, d: char)
    ensures LowerChar(c) == LowerChar(d) <==>
      || c == d
      || ('A' <= c <= 'Z' && d as int == c as int + 32)
      || ('A' <= d <= 'Z' && c as int == d as int + 32)
  {
  }

  /** Lower-casing twice is lower-casing once. */
  lemma LowerIdempotent(s: string)
    ensures Lower(Lower(s)) == Lower(s)
  {
    var r := Lower(s);
    assert forall i :: 0 <= i < |r| ==> Lower(r)[i] == r[i];
  }

  /** `p` is a prefix of `s`. */
  predicate IsPrefix(p: string, s: string) {
    |p| <= |s| && s[..|p|] == p
  }

  /** `needle` occurs in `haystack` at some position. */
  ghost predicate OccursIn(needle: string, haystack: string) {
    exists i :: 0 <= i <= |haystack| && IsPrefix(needle, haystack[i..])
  }

  /** `haystack.includes(needle)`: does `needle` occur in `haystack`? */
  function Includes(haystack: string, needle: string): (b: bool)
    ensures b <==> OccursIn(needle, haystack)
    decreases |haystack|
  {
    if IsPrefix(needle, haystack) then
      assert haystack[0..] == haystack;
      true
    else if |haystack| == 0 then
      false
    else
      var tail := haystack[1..];
      assert forall i :: 1 <= i <= |haystack| ==> tail[i - 1..] == haystack[i..];
      Includes(tail, needle)
  }

  /** `needle` occurs in `haystack`, ignoring ASCII case on both sides. */
  function IncludesIgnoringCase(haystack: string, needle: string): bool {
    Includes(Lower(haystack), Lower(needle))
  }
}
