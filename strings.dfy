/** Python string primitives the plugin relies on: str.strip(), str.replace(),
    decimal rendering of numbers and ASCII case mapping. */
module Strings {

  /** The characters Python's str.isspace() accepts, which str.strip() removes. */
  predicate IsSpace(c: char) {
    || c == ' '
    || ('\U{9}' <= c <= '\U{D}')      // \t \n \v \f \r
    || ('\U{1C}' <= c <= '\U{1F}')    // file, group, record and unit separators
    || c == '\U{85}' || c == '\U{A0}' || c == '\U{1680}'
    || ('\U{2000}' <= c <= '\U{200A}')
    || c == '\U{2028}' || c == '\U{2029}' || c == '\U{202F}' || c == '\U{205F}'
    || c == '\U{3000}'                // ideographic space
  }

  predicate AllSpace(s: string) {
    forall i :: 0 <= i < |s| ==> IsSpace(s[i])
  }

  /** `a` occurs somewhere inside `b`. */
  predicate IsInfix(a: string, b: string) {
    exists k :: 0 <= k <= |b| && a <= b[k..]
  }

  lemma InfixRefl(a: string)
    ensures IsInfix(a, a)
  {
    assert a <= a[0..];
  }

  lemma {:induction false} InfixTrans(a: string, b: string, c: string)
    requires IsInfix(a, b) && IsInfix(b, c)
    ensures IsInfix(a, c)
  {
    var i :| 0 <= i <= |b| && a <= b[i..];
    var j :| 0 <= j <= |c| && b <= c[j..];
    assert b[i..] <= c[j + i..] by {
      forall m | 0 <= m < |b[i..]| ensures b[i..][m] == c[j + i..][m] {
        assert b[i..][m] == b[i + m] == c[j..][i + m];
      }
    }
    assert a <= c[j + i..];
  }

  /** Every character of an infix occurs in the enclosing string. */
  lemma InfixChars(a: string, b: string)
    requires IsInfix(a, b)
    ensures forall i :: 0 <= i < |a| ==> a[i] in b
  {
    var k :| 0 <= k <= |b| && a <= b[k..];
    forall i | 0 <= i < |a| ensures a[i] in b {
      assert a[i] == b[k + i];
    }
  }

  /** Infixes of the two operands of a concatenation are infixes of it. */
  lemma InfixOfConcat(a: string, b: string)
    ensures IsInfix(a, a + b) && IsInfix(b, a + b)
  {
    assert a <= (a + b)[0..];
    assert b == (a + b)[|a|..];
  }

  /** Python's s.lstrip(): `s` without its leading whitespace. */
  function TrimLeft(s: string): (r: string)
    ensures |r| <= |s|
    ensures r == [] || !IsSpace(r[0])
  {
    if |s| > 0 && IsSpace(s[0]) then TrimLeft(s[1..]) else s
  }

  /** Python's s.rstrip(): `s` without its trailing whitespace. */
  function TrimRight(s: string): (r: string)
    ensures |r| <= |s|
    ensures r == [] || !IsSpace(r[|r| - 1])
  {
    if |s| > 0 && IsSpace(s[|s| - 1]) then TrimRight(s[..|s| - 1]) else s
  }

  /** lstrip() removes a blank prefix and keeps the rest. */
  lemma {:induction false} TrimLeftSplit(s: string)
    ensures var r := TrimLeft(s); r == s[|s| - |r|..] && AllSpace(s[..|s| - |r|])
  {
    if |s| > 0 && IsSpace(s[0]) {
      TrimLeftSplit(s[1..]);
      var r := TrimLeft(s);
      assert s[1..][|s| - 1 - |r|..] == s[|s| - |r|..];
      var p := s[..|s| - |r|];
      var p' := s[1..][..|s| - 1 - |r|];
      forall i | 0 <= i < |p| ensures IsSpace(p[i]) {
        if i > 0 { assert p[i] == p'[i - 1]; }
      }
    }
  }

  /** rstrip() keeps a prefix and removes a blank suffix. */
  lemma {:induction false} TrimRightSplit(s: string)
    ensures var r := TrimRight(s); r <= s && AllSpace(s[|r|..])
  {
    if |s| > 0 && IsSpace(s[|s| - 1]) {
      var s' := s[..|s| - 1];
      TrimRightSplit(s');
      var r := TrimRight(s);
      assert r <= s;
      forall i | 0 <= i < |s| - |r| ensures IsSpace(s[|r|..][i]) {
        if |r| + i < |s| - 1 { assert s[|r|..][i] == s'[|r|..][i]; }
      }
    }
  }

  /** Python's s.strip() with no argument. */
  function Strip(s: string): (r: string)
    ensures |r| <= |s|
    ensures r == [] || (!IsSpace(r[0]) && !IsSpace(r[|r| - 1]))
  {
    TrimRightSplit(TrimLeft(s));
    TrimRight(TrimLeft(s))
  }

  /** What strip() returns is a piece of its argument. */
  lemma StripInfix(s: string)
    ensures IsInfix(Strip(s), s)
  {
    var t := TrimLeft(s);
    TrimLeftSplit(s);
    TrimRightSplit(t);
    assert Strip(s) <= s[|s| - |t|..];
  }

  /** strip() returns the empty string exactly for blank input. */
  lemma StripBlank(s: string)
    ensures Strip(s) == [] <==> AllSpace(s)
  {
    var t := TrimLeft(s);
    TrimLeftSplit(s);
    TrimRightSplit(t);
    if t != [] {
      assert t[|TrimRight(t)|..] != [] ==> t[|TrimRight(t)|..][0] == t[|TrimRight(t)|];
    }
    assert s[..|s| - |t|] == s || t != [];
  }

  /** strip() keeps the slice between a blank prefix and a blank suffix. */
  lemma StripBounds(b: string) returns (lo: nat, hi: nat)
    ensures lo <= hi <= |b| && Strip(b) == b[lo..hi]
    ensures forall i :: 0 <= i < lo ==> IsSpace(b[i])
    ensures forall i :: hi <= i < |b| ==> IsSpace(b[i])
  {
    var t := TrimLeft(b);
    TrimLeftSplit(b);
    TrimRightSplit(t);
    lo := |b| - |t|;
    hi := lo + |TrimRight(t)|;
    forall i | 0 <= i < lo ensures IsSpace(b[i]) {
      assert b[i] == b[..lo][i];
    }
    forall i | hi <= i < |b| ensures IsSpace(b[i]) {
      assert b[i] == t[|TrimRight(t)|..][i - hi];
    }
  }

  /** Containment passes through stripping: stripped `x` inside `y`, and stripped `y`
      inside `v`, put stripped `x` inside `v`. */
  lemma InfixThroughStrip(x: string, y: string, v: string)
    requires IsInfix(Strip(x), y) && IsInfix(Strip(y), v)
    ensures IsInfix(Strip(x), v)
  {
    InfixOfStrip(Strip(x), y);
    InfixTrans(Strip(x), Strip(y), v);
  }

  /** A piece that neither starts nor ends with whitespace survives stripping. */
  lemma InfixOfStrip(a: string, b: string)
    requires IsInfix(a, b)
    requires a == [] || (!IsSpace(a[0]) && !IsSpace(a[|a| - 1]))
    ensures IsInfix(a, Strip(b))
  {
    if a == [] {
      assert a <= Strip(b)[0..];
    } else {
      var k :| 0 <= k <= |b| && a <= b[k..];
      var lo, hi := StripBounds(b);
      assert b[k] == a[0];
      var e := k + |a| - 1;
      assert b[e] == a[|a| - 1];
      var r := Strip(b);
      assert a <= r[k - lo..] by {
        forall m | 0 <= m < |a| ensures a[m] == r[k - lo..][m] {
          assert a[m] == b[k + m];
        }
      }
    }
  }

  /** Stripping a string that neither starts nor ends with whitespace changes nothing. */
  lemma StripUnpadded(s: string)
    requires s == [] || (!IsSpace(s[0]) && !IsSpace(s[|s| - 1]))
    ensures Strip(s) == s
  {
  }

  lemma StripIdempotent(s: string)
    ensures Strip(Strip(s)) == Strip(s)
  {
    StripUnpadded(Strip(s));
  }

  /** Python's s.replace(pat, rep): every non-overlapping occurrence of `pat`,
      scanned left to right, is replaced by `rep`. */
  function ReplaceAll(s: string, pat: string, rep: string): string
    requires |pat| > 0
    decreases |s|
  {
    if |s| < |pat| then s
    else if s[..|pat|] == pat then rep + ReplaceAll(s[|pat|..], pat, rep)
    else [s[0]] + ReplaceAll(s[1..], pat, rep)
  }

  /** No position of `s` holds `a` immediately followed by `b`. */
  predicate NoPair(s: string, a: char, b: char) {
    forall i :: 0 <= i < |s| - 1 ==> !(s[i] == a && s[i + 1] == b)
  }

  /** Replacing the two-character sequence `ab` by one character `w` that is neither
      `a` nor `b` leaves no `ab` behind, and keeps any `ax` that was absent absent. */
  lemma {:induction false} ReplacePairLeavesNone(s: string, a: char, b: char, w: char, x: char)
    requires w != a && w != b && w != x
    ensures var r := ReplaceAll(s, [a, b], [w]);
      && NoPair(r, a, b)
      && (NoPair(s, a, x) ==> NoPair(r, a, x))
      && |r| <= |s|
      && (|s| > 0 ==> |r| > 0 && (r[0] == w || r[0] == s[0]))
    decreases |s|
  {
    var r := ReplaceAll(s, [a, b], [w]);
    if |s| < 2 {
    } else if s[..2] == [a, b] {
      ReplacePairLeavesNone(s[2..], a, b, w, x);
      var r' := ReplaceAll(s[2..], [a, b], [w]);
      assert r == [w] + r';
      assert NoPair(s, a, x) ==> NoPair(s[2..], a, x) by {
        if NoPair(s, a, x) {
          forall i | 0 <= i < |s[2..]| - 1 ensures !(s[2..][i] == a && s[2..][i + 1] == x) {
            assert s[2..][i] == s[i + 2] && s[2..][i + 1] == s[i + 3];
          }
        }
      }
    } else {
      ReplacePairLeavesNone(s[1..], a, b, w, x);
      var r' := ReplaceAll(s[1..], [a, b], [w]);
      assert r == [s[0]] + r';
      assert NoPair(s, a, x) ==> NoPair(s[1..], a, x) by {
        if NoPair(s, a, x) {
          forall i | 0 <= i < |s[1..]| - 1 ensures !(s[1..][i] == a && s[1..][i + 1] == x) {
            assert s[1..][i] == s[i + 1] && s[1..][i + 1] == s[i + 2];
          }
        }
      }
      assert !(s[0] == a && s[1] == b);
    }
  }

  /** Replacing a pattern that starts with a character absent from `s` changes nothing. */
  lemma {:induction false} ReplaceAbsent(s: string, pat: string, rep: string)
    requires |pat| > 0 && pat[0] !in s
    ensures ReplaceAll(s, pat, rep) == s
    decreases |s|
  {
    if |s| >= |pat| {
      assert s[0] != pat[0];
      ReplaceAbsent(s[1..], pat, rep);
    }
  }

  /** The characters of `s` that are not in `p`, in their order. */
  function Without(s: string, p: set<char>): (r: string)
    ensures forall i :: 0 <= i < |r| ==> r[i] in s && r[i] !in p
    ensures forall i :: 0 <= i < |s| && s[i] !in p ==> s[i] in r
    ensures |r| <= |s|
  {
    if s == [] then []
    else (if s[0] in p then [] else [s[0]]) + Without(s[1..], p)
  }

  lemma {:induction false} WithoutConcat(a: string, b: string, p: set<char>)
    ensures Without(a + b, p) == Without(a, p) + Without(b, p)
  {
    if a == [] {
      assert a + b == b;
    } else {
      assert (a + b)[1..] == a[1..] + b;
      WithoutConcat(a[1..], b, p);
    }
  }

  /** Removing one set of characters and then another is removing their union. */
  lemma {:induction false} WithoutUnion(s: string, p: set<char>, q: set<char>)
    ensures Without(Without(s, p), q) == Without(s, p + q)
  {
    if s != [] {
      WithoutUnion(s[1..], p, q);
      var head := if s[0] in p then [] else [s[0]];
      WithoutConcat(head, Without(s[1..], p), q);
    }
  }

  /** A string holding no character of `p` is left as it is. */
  lemma {:induction false} WithoutNone(s: string, p: set<char>)
    requires forall i :: 0 <= i < |s| ==> s[i] !in p
    ensures Without(s, p) == s
  {
    if s != [] {
      WithoutNone(s[1..], p);
    }
  }

  /** s.replace(c, '') for one character `c`. */
  lemma {:induction false} ReplaceCharByNothing(s: string, c: char)
    ensures ReplaceAll(s, [c], []) == Without(s, {c})
    decreases |s|
  {
    if |s| >= 1 {
      assert s[..1] == [c] <==> s[0] == c;
      ReplaceCharByNothing(s[1..], c);
    }
  }

  /** s.replace(a, b) for single characters: a pointwise substitution. */
  lemma {:induction false} ReplaceCharByChar(s: string, a: char, b: char)
    ensures var r := ReplaceAll(s, [a], [b]);
      |r| == |s| && forall i :: 0 <= i < |s| ==> r[i] == (if s[i] == a then b else s[i])
    decreases |s|
  {
    if |s| >= 1 {
      assert s[..1] == [a] <==> s[0] == a;
      ReplaceCharByChar(s[1..], a, b);
      var r' := ReplaceAll(s[1..], [a], [b]);
      assert ReplaceAll(s, [a], [b]) == [if s[0] == a then b else s[0]] + r';
    }
  }

  /** Decimal value of an ASCII digit. */
  function DigitValue(c: char): (d: nat)
    requires '0' <= c <= '9'
    ensures d < 10
  {
    (c as int - '0' as int) as nat
  }

  function DigitChar(d: nat): (c: char)
    requires d < 10
    ensures '0' <= c <= '9' && DigitValue(c) == d
  {
    ('0' as int + d) as char
  }

  predicate AllDigits(s: string) {
    forall i :: 0 <= i < |s| ==> '0' <= s[i] <= '9'
  }

  /** Value of a string of ASCII digits, most significant first. */
  function DigitsValue(s: string): nat
    requires AllDigits(s)
  {
    if s == [] then 0 else 10 * DigitsValue(s[..|s| - 1]) + DigitValue(s[|s| - 1])
  }

  /** A run of digits without a leading zero, save "0" itself. */
  predicate Canonical(s: string) {
    |s| > 0 && AllDigits(s) && (|s| == 1 || s[0] != '0')
  }

  /** Python's str(n) for a natural number: decimal digits, no leading zero. */
  function NatToString(n: nat): (r: string)
    ensures Canonical(r)
    ensures DigitsValue(r) == n
  {
    if n < 10 then [DigitChar(n)]
    else
      var p := NatToString(n / 10);
      var r := p + [DigitChar(n % 10)];
      assert r[..|r| - 1] == p;
      assert p[0] != '0' by {
        if |p| == 1 {
          assert p == p[..0] + [p[0]];
        }
      }
      r
  }

  /** A digit run that starts with a non-zero digit has a positive value. */
  lemma {:induction false} LeadingDigitPositive(s: string)
    requires |s| > 0 && AllDigits(s) && s[0] != '0'
    ensures DigitsValue(s) >= 1
    decreases |s|
  {
    if |s| > 1 {
      LeadingDigitPositive(s[..|s| - 1]);
    }
  }

  /** str(n) is the only canonical digit run with value n. */
  lemma {:induction false} NatToStringUnique(s: string, n: nat)
    requires Canonical(s) && DigitsValue(s) == n
    ensures s == NatToString(n)
    decreases |s|
  {
    if |s| == 1 {
      assert DigitChar(DigitValue(s[0])) == s[0];
    } else {
      var p := s[..|s| - 1];
      LeadingDigitPositive(p);
      var d := DigitValue(s[|s| - 1]);
      assert n == 10 * DigitsValue(p) + d;
      assert n / 10 == DigitsValue(p) && n % 10 == d;
      NatToStringUnique(p, n / 10);
      assert DigitChar(d) == s[|s| - 1];
      assert s == p + [s[|s| - 1]];
    }
  }

  /** ASCII letters only: str.upper() and str.lower() on other scripts are not modelled. */
  function Upper(c: char): char {
    if 'a' <= c <= 'z' then (c as int - 32) as char else c
  }

  function Lower(c: char): char {
    if 'A' <= c <= 'Z' then (c as int + 32) as char else c
  }
}
