/** JavaScript string behaviour the components rely on: the relational operators on strings,
    decimal rendering of integers, `padStart` and `trim`. */
module Strings {

  /** `a <= b` on JavaScript strings: lexicographic on characters, a proper prefix first. */
  predicate LexLe(a: string, b: string)
    decreases |a|
  {
    |a| == 0 || (|b| > 0 && (a[0] < b[0] || (a[0] == b[0] && LexLe(a[1..], b[1..]))))
  }

  lemma {:induction false} LexLeRefl(a: string)
    ensures LexLe(a, a)
    decreases |a|
  {
    if |a| > 0 {
      LexLeRefl(a[1..]);
    }
  }

  lemma {:induction false} LexLeAntisymmetric(a: string, b: string)
    requires LexLe(a, b) && LexLe(b, a)
    ensures a == b
    decreases |a|
  {
    if |a| > 0 {
      LexLeAntisymmetric(a[1..], b[1..]);
      assert a == [a[0]] + a[1..] && b == [b[0]] + b[1..];
    }
  }

  lemma {:induction false} LexLeTransitive(a: string, b: string, c: string)
    requires LexLe(a, b) && LexLe(b, c)
    ensures LexLe(a, c)
    decreases |a|
  {
    if |a| > 0 && a[0] == b[0] && b[0] == c[0] {
      LexLeTransitive(a[1..], b[1..], c[1..]);
    }
  }

  lemma {:induction false} LexLeTotal(a: string, b: string)
    ensures LexLe(a, b) || LexLe(b, a)
    decreases |a|
  {
    if |a| > 0 && |b| > 0 && a[0] == b[0] {
      LexLeTotal(a[1..], b[1..]);
    }
  }

  /** Comparing two strings that start with prefixes of the same length compares the prefixes
      first and looks at the rest only when the prefixes are equal. */
  lemma {:induction false} LexLeConcat(x: string, s: string, y: string, t: string)
    requires |x| == |y|
    ensures LexLe(x + s, y + t) == if x == y then LexLe(s, t) else LexLe(x, y)
    decreases |x|
  {
    if |x| > 0 {
      assert (x + s)[0] == x[0] && (y + t)[0] == y[0];
      assert (x + s)[1..] == x[1..] + s && (y + t)[1..] == y[1..] + t;
      LexLeConcat(x[1..], s, y[1..], t);
      if x[0] == y[0] && x[1..] == y[1..] {
        assert x == [x[0]] + x[1..] && y == [y[0]] + y[1..];
      }
    } else {
      assert x + s == s && y + t == t;
    }
  }

  function DigitChar(n: int): (c: char)
    requires 0 <= n < 10
    ensures '0' <= c <= '9' && c as int - '0' as int == n
  {
    (n + '0' as int) as char
  }

  function Pow10(w: nat): (p: nat)
    ensures p >= 1
  {
    if w == 0 then 1 else 10 * Pow10(w - 1)
  }

  lemma Pow10Small()
    ensures Pow10(1) == 10 && Pow10(2) == 100 && Pow10(3) == 1000 && Pow10(4) == 10000
  {
    assert Pow10(1) == 10 * Pow10(0);
    assert Pow10(2) == 10 * Pow10(1);
    assert Pow10(3) == 10 * Pow10(2);
    assert Pow10(4) == 10 * Pow10(3);
  }

  /** The last `w` decimal digits of `n`, most significant first, zero-padded. */
  function FixedDigits(n: nat, w: nat): (r: string)
    ensures |r| == w
  {
    if w == 0 then [] else FixedDigits(n / 10, w - 1) + [DigitChar(n % 10)]
  }

  /** Fixed-width decimal strings compare as the numbers they spell. */
  lemma {:induction false} FixedDigitsOrder(a: nat, b: nat, w: nat)
    requires a < Pow10(w) && b < Pow10(w)
    ensures LexLe(FixedDigits(a, w), FixedDigits(b, w)) <==> a <= b
    ensures FixedDigits(a, w) == FixedDigits(b, w) <==> a == b
  {
    if w > 0 {
      FixedDigitsOrder(a / 10, b / 10, w - 1);
      var x, y := FixedDigits(a / 10, w - 1), FixedDigits(b / 10, w - 1);
      var da, db := [DigitChar(a % 10)], [DigitChar(b % 10)];
      LexLeConcat(x, da, y, db);
      assert LexLe(da, db) <==> a % 10 <= b % 10;
      if x + da == y + db {
        assert x == (x + da)[..w - 1] && y == (y + db)[..w - 1];
        assert da[0] == (x + da)[w - 1] && db[0] == (y + db)[w - 1];
      }
    }
  }

  /** `String(n)` for a non-negative integer: decimal digits without leading zeros. */
  function NatString(n: nat): (r: string)
    ensures |r| >= 1
  {
    if n < 10 then [DigitChar(n)] else NatString(n / 10) + [DigitChar(n % 10)]
  }

  /** `String(n)` / `${n}` for an integer. */
  function IntString(n: int): string
  {
    if n < 0 then "-" + NatString(-n) else NatString(n)
  }

  /** `s.padStart(width, fill)` with a one-character fill. */
  function PadStart(s: string, width: int, fill: char): (r: string)
    ensures |r| == if |s| < width then width else |s|
    ensures r[|r| - |s|..] == s
    ensures forall k :: 0 <= k < |r| - |s| ==> r[k] == fill
  {
    if |s| < width then seq(width - |s|, _ => fill) + s else s
  }

  /** A number with exactly `w` digits prints as its fixed-width digits. */
  lemma {:induction false} NatStringFixed(n: nat, w: nat)
    requires w >= 1 && Pow10(w - 1) <= n < Pow10(w)
    ensures NatString(n) == FixedDigits(n, w)
  {
    if w == 1 {
      assert FixedDigits(n / 10, 0) == [];
    } else {
      NatStringFixed(n / 10, w - 1);
    }
  }

  /** `String(n).padStart(2, '0')` for 0 <= n < 100 is the two-digit form of `n`. */
  lemma PadTwoDigits(n: nat)
    requires n < 100
    ensures PadStart(NatString(n), 2, '0') == FixedDigits(n, 2)
  {
    Pow10Small();
    if n < 10 {
      assert FixedDigits(n / 10, 1) == FixedDigits(0, 0) + [DigitChar(0)];
    } else {
      NatStringFixed(n, 2);
    }
  }

  /** WhiteSpace and LineTerminator code points, which `trim` removes (ECMA-262, section 12.2 and 12.3). */
  predicate IsJsWhitespace(c: char)
  {
    c == '\t' || c == '\n' || c == '\U{B}' || c == '\U{C}' || c == '\r' || c == ' '
    || c == '\U{A0}' || c == '\U{1680}' || ('\U{2000}' <= c <= '\U{200A}')
    || c == '\U{2028}' || c == '\U{2029}' || c == '\U{202F}' || c == '\U{205F}'
    || c == '\U{3000}' || c == '\U{FEFF}'
  }

  function TrimStart(s: string): (r: string)
    ensures |r| <= |s| && r == s[|s| - |r|..]
    ensures |r| > 0 ==> !IsJsWhitespace(r[0])
    ensures forall k :: 0 <= k < |s| - |r| ==> IsJsWhitespace(s[k])
  {
    if |s| > 0 && IsJsWhitespace(s[0]) then TrimStart(s[1..]) else s
  }

  function TrimEnd(s: string): (r: string)
    ensures |r| <= |s| && r == s[..|r|]
    ensures |r| > 0 ==> !IsJsWhitespace(r[|r| - 1])
    ensures forall k :: |r| <= k < |s| ==> IsJsWhitespace(s[k])
  {
    if |s| > 0 && IsJsWhitespace(s[|s| - 1]) then TrimEnd(s[..|s| - 1]) else s
  }

  predicate IsSliceAt(r: string, s: string, i: int)
  {
    0 <= i <= |s| - |r| && r == s[i..i + |r|]
  }

  /** `s.trim()`: exactly the whitespace at both ends is dropped. What remains is one contiguous
      slice of the input, with only whitespace before it and after it, and no whitespace at
      either of its own ends. */
  function Trim(s: string): (r: string)
    ensures |r| <= |s|
    ensures |r| > 0 ==> !IsJsWhitespace(r[0]) && !IsJsWhitespace(r[|r| - 1])
    ensures exists i :: IsSliceAt(r, s, i) && (forall k :: 0 <= k < i ==> IsJsWhitespace(s[k]))
                        && (forall k :: i + |r| <= k < |s| ==> IsJsWhitespace(s[k]))
  {
    var t := TrimStart(s);
    TrimmedSlice(s, t, TrimEnd(t));
    TrimEnd(t)
  }

  /** `trim` yields the empty string exactly when the input is all whitespace. */
  lemma TrimEmptyIff(s: string)
    ensures Trim(s) == [] <==> forall k :: 0 <= k < |s| ==> IsJsWhitespace(s[k])
  {
    TrimmedEmpty(s, TrimStart(s), Trim(s));
  }

  lemma TrimmedSlice(s: string, t: string, r: string)
    requires |t| <= |s| && t == s[|s| - |t|..] && |r| <= |t| && r == t[..|r|]
    requires forall k :: 0 <= k < |s| - |t| ==> IsJsWhitespace(s[k])
    requires forall k :: |r| <= k < |t| ==> IsJsWhitespace(t[k])
    ensures IsSliceAt(r, s, |s| - |t|)
    ensures forall k :: |s| - |t| + |r| <= k < |s| ==> IsJsWhitespace(s[k])
  {
    var i := |s| - |t|;
    assert r == s[i..][..|r|];
    assert s[i..][..|r|] == s[i..i + |r|];
    forall k | i + |r| <= k < |s|
      ensures IsJsWhitespace(s[k])
    {
      assert s[k] == t[k - i];
    }
  }

  lemma TrimmedEmpty(s: string, t: string, r: string)
    requires t == TrimStart(s) && r == TrimEnd(t)
    ensures r == [] <==> forall k :: 0 <= k < |s| ==> IsJsWhitespace(s[k])
  {
    if r == [] {
      assert |t| == 0;
    } else {
      assert t[0] == r[0] && t[0] == s[|s| - |t|];
    }
  }
}
