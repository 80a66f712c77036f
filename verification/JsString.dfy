/**
 * The parts of JavaScript string semantics the core relies on: the relational
 * comparison of two strings (`<`, `>`, `<=`), `String.prototype.trim`, and
 * `Number(...)` applied to a string of ASCII decimal digits.
 */
module JsString {

  /**
   * `a < b` on two JavaScript strings: lexicographic order, in which a
   * proper prefix is smaller than the longer string (ECMA-262, abstract
   * operation IsLessThan, string case). JavaScript compares UTF-16 code
   * units; a Dafny `char` is a code point, so this is code-point order,
   * which differs only outside the Basic Multilingual Plane.
   * `a > b` is `Less(b, a)` and `a <= b` is `!Less(b, a)`.
   */
  predicate Less(a: string, b: string)
    decreases |a|
  {
    if |a| == 0 then |b| > 0
    else if |b| == 0 then false
    else if a[0] != b[0] then a[0] < b[0]
    else Less(a[1..], b[1..])
  }

  /** `a <= b` on two JavaScript strings. */
  predicate LessEq(a: string, b: string)
  {
    !Less(b, a)
  }

  lemma {:induction false} LessIrreflexive(a: string)
    ensures !Less(a, a)
    decreases |a|
  {
    if |a| > 0 {
      LessIrreflexive(a[1..]);
    }
  }

  lemma {:induction false} LessAsymmetric(a: string, b: string)
    ensures Less(a, b) ==> !Less(b, a)
    decreases |a|
  {
    if |a| > 0 && |b| > 0 && a[0] == b[0] {
      LessAsymmetric(a[1..], b[1..]);
    }
  }

  lemma {:induction false} LessTransitive(a: string, b: string, c: string)
    ensures Less(a, b) && Less(b, c) ==> Less(a, c)
    decreases |a|
  {
    if |a| > 0 && |b| > 0 && |c| > 0 && a[0] == b[0] && b[0] == c[0] {
      LessTransitive(a[1..], b[1..], c[1..]);
    }
  }

  /** Two different strings are always ordered one way or the other. */
  lemma {:induction false} LessTotal(a: string, b: string)
    ensures a == b || Less(a, b) || Less(b, a)
    decreases |a|
  {
    if |a| > 0 && |b| > 0 && a[0] == b[0] {
      LessTotal(a[1..], b[1..]);
      if a[1..] == b[1..] {
        assert a == [a[0]] + a[1..] && b == [b[0]] + b[1..];
      }
    }
  }

  /**
   * Comparing two concatenations whose first parts have the same length
   * compares the first parts, and the second parts only when the first
   * parts are equal.
   */
  lemma {:induction false} LessAppend(a: string, x: string, b: string, y: string)
    requires |a| == |b|
    ensures Less(a + x, b + y) <==> Less(a, b) || (a == b && Less(x, y))
    decreases |a|
  {
    if |a| == 0 {
      assert a + x == x && b + y == y;
    } else {
      assert (a + x)[0] == a[0] && (b + y)[0] == b[0];
      assert (a + x)[1..] == a[1..] + x && (b + y)[1..] == b[1..] + y;
      LessAppend(a[1..], x, b[1..], y);
      if a[0] == b[0] && a[1..] == b[1..] {
        assert a == [a[0]] + a[1..] && b == [b[0]] + b[1..];
      }
    }
  }

  // ---------------------------------------------------------------------
  // Number(...) on a string of ASCII digits

  /** `\d` in a JavaScript regular expression without the `u` flag. */
  predicate IsAsciiDigit(c: char)
  {
    '0' <= c <= '9'
  }

  predicate AllDigits(s: string)
  {
    forall i :: 0 <= i < |s| ==> IsAsciiDigit(s[i])
  }

  /** `Number(s)` for a string made only of ASCII digits (leading zeros allowed). */
  function DecimalValue(s: string): (n: nat)
    requires AllDigits(s)
    ensures n < Pow10(|s|)
    decreases |s|
  {
    if |s| == 0 then 0
    else 10 * DecimalValue(s[..|s| - 1]) + (s[|s| - 1] - '0') as int
  }

  function Pow10(k: nat): (p: nat)
    ensures p >= 1
  {
    if k == 0 then 1 else 10 * Pow10(k - 1)
  }

  /**
   * For two digit strings of the same width, string order is numeric order,
   * and string equality is numeric equality.
   */
  lemma {:induction false} DigitStringOrder(u: string, v: string)
    requires |u| == |v| && AllDigits(u) && AllDigits(v)
    ensures Less(u, v) <==> DecimalValue(u) < DecimalValue(v)
    ensures u == v <==> DecimalValue(u) == DecimalValue(v)
    decreases |u|
  {
    if |u| == 0 {
      assert u == v;
    } else {
      var n := |u| - 1;
      var u', v' := u[..n], v[..n];
      assert AllDigits(u') && AllDigits(v');
      DigitStringOrder(u', v');
      assert u == u' + [u[n]] && v == v' + [v[n]];
      LessAppend(u', [u[n]], v', [v[n]]);
      assert Less([u[n]], [v[n]]) <==> u[n] < v[n];
      if u' == v' && u[n] == v[n] {
        assert u == v;
      }
    }
  }

  // ---------------------------------------------------------------------
  // String.prototype.trim

  /** The code points ECMA-262 counts as WhiteSpace or LineTerminator. */
  predicate IsTrimmable(c: char)
  {
    c == '\U{0009}' || c == '\U{000A}' || c == '\U{000B}' || c == '\U{000C}' ||
    c == '\U{000D}' || c == '\U{0020}' || c == '\U{00A0}' || c == '\U{1680}' ||
    ('\U{2000}' <= c <= '\U{200A}') || c == '\U{2028}' || c == '\U{2029}' ||
    c == '\U{202F}' || c == '\U{205F}' || c == '\U{3000}' || c == '\U{FEFF}'
  }

  predicate IsBlank(s: string)
  {
    forall i :: 0 <= i < |s| ==> IsTrimmable(s[i])
  }

  function TrimStart(s: string): (r: string)
    ensures |r| <= |s| && r == s[|s| - |r|..]
    ensures r == [] || !IsTrimmable(r[0])
    decreases |s|
  {
    if |s| > 0 && IsTrimmable(s[0]) then TrimStart(s[1..]) else s
  }

  function TrimEnd(s: string): (r: string)
    ensures |r| <= |s| && r == s[..|r|]
    ensures r == [] || !IsTrimmable(r[|r| - 1])
    decreases |s|
  {
    if |s| > 0 && IsTrimmable(s[|s| - 1]) then TrimEnd(s[..|s| - 1]) else s
  }

  /** `s.trim()`: drop leading and trailing white space and line terminators. */
  function Trim(s: string): (r: string)
    ensures |r| <= |s|
    ensures r == [] || (!IsTrimmable(r[0]) && !IsTrimmable(r[|r| - 1]))
  {
    TrimEnd(TrimStart(s))
  }

  /** `!s.trim()` holds exactly when every character of `s` is white space. */
  lemma {:induction false} TrimEmptyIffBlank(s: string)
    ensures Trim(s) == "" <==> IsBlank(s)
    decreases |s|
  {
    if |s| > 0 {
      if IsTrimmable(s[0]) {
        TrimEmptyIffBlank(s[1..]);
        assert IsBlank(s) <==> IsBlank(s[1..]) by {
          if IsBlank(s[1..]) {
            forall i | 0 <= i < |s| ensures IsTrimmable(s[i]) {
              if i > 0 { assert s[i] == s[1..][i - 1]; }
            }
          }
        }
      } else {
        assert TrimStart(s) == s;
        assert TrimEnd(s) != "" by {
          var r := TrimEnd(s);
          if r == "" {
            TrimEndOfUntrimmedStart(s);
          }
        }
      }
    }
  }

  /** Trimming the end never removes a non-blank first character. */
  lemma {:induction false} TrimEndOfUntrimmedStart(s: string)
    requires |s| > 0 && !IsTrimmable(s[0])
    ensures |TrimEnd(s)| > 0
    decreases |s|
  {
    if IsTrimmable(s[|s| - 1]) {
      TrimEndOfUntrimmedStart(s[..|s| - 1]);
    }
  }
}
