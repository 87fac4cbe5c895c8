/** The JavaScript string operations the version store relies on:
    `Number.prototype.toString()` on integers, the global `parseInt` with no
    radix, and `String.prototype.split(sep)[0]`. */
module JsText {
  import opened Wrappers

  predicate IsDecimalDigit(c: char)
  {
    '0' <= c <= '9'
  }

  predicate IsRadixDigit(c: char, radix: nat)
  {
    IsDecimalDigit(c) || (radix == 16 && ('a' <= c <= 'f' || 'A' <= c <= 'F'))
  }

  function DigitValue(c: char): (d: nat)
    requires IsRadixDigit(c, 16)
    ensures d < 16
    ensures IsDecimalDigit(c) ==> d < 10
  {
    if IsDecimalDigit(c) then c as int - '0' as int
    else if 'a' <= c <= 'f' then c as int - 'a' as int + 10
    else c as int - 'A' as int + 10
  }

  function DigitChar(d: nat): (c: char)
    requires d < 10
    ensures IsDecimalDigit(c) && DigitValue(c) == d
  {
    ('0' as int + d) as char
  }

  predicate AllDigits(s: string, radix: nat)
  {
    forall i :: 0 <= i < |s| ==> IsRadixDigit(s[i], radix)
  }

  /** `n.toString()` for an integer `n` (magnitudes below 10^21, which
      JavaScript prints without an exponent): a minus sign for a negative
      number, then the decimal digits, most significant first, with no
      leading zero. */
  function IntToDecimal(n: int): string
    decreases if n < 0 then 1 - n else n
  {
    if n < 0 then "-" + IntToDecimal(-n)
    else if n < 10 then [DigitChar(n)]
    else IntToDecimal(n / 10) + [DigitChar(n % 10)]
  }

  /** A number's text is never empty; a natural number's is all digits. */
  lemma {:induction false} DecimalDigits(n: int)
    ensures |IntToDecimal(n)| > 0
    ensures n >= 0 ==> AllDigits(IntToDecimal(n), 10)
    decreases if n < 0 then 1 - n else n
  {
    if n < 0 {
      DecimalDigits(-n);
    } else if n >= 10 {
      DecimalDigits(n / 10);
    }
  }

  /** The characters `parseInt` skips before the number: white space and
      line terminators of ECMAScript. */
  predicate IsJsWhitespace(c: char)
  {
    c == '\t' || c == '\n' || c == '\r' || c == ' '
    || c == '\U{000B}' || c == '\U{000C}' || c == '\U{00A0}' || c == '\U{1680}'
    || ('\U{2000}' <= c <= '\U{200A}')
    || c == '\U{2028}' || c == '\U{2029}' || c == '\U{202F}' || c == '\U{205F}'
    || c == '\U{3000}' || c == '\U{FEFF}'
  }

  function TrimStart(s: string): (t: string)
    ensures |t| <= |s| && t == s[|s| - |t|..]
    ensures t == [] || !IsJsWhitespace(t[0])
    ensures forall i :: 0 <= i < |s| - |t| ==> IsJsWhitespace(s[i])
  {
    if |s| > 0 && IsJsWhitespace(s[0]) then TrimStart(s[1..]) else s
  }

  /** The longest prefix of `s` made of digits of the radix. */
  function DigitPrefix(s: string, radix: nat): (z: string)
    ensures |z| <= |s| && z == s[..|z|] && AllDigits(z, radix)
    ensures |z| < |s| ==> !IsRadixDigit(s[|z|], radix)
  {
    if |s| > 0 && IsRadixDigit(s[0], radix) then [s[0]] + DigitPrefix(s[1..], radix) else []
  }

  function DigitsValue(z: string, radix: nat): nat
    requires radix == 10 || radix == 16
    requires AllDigits(z, radix)
  {
    if z == [] then 0
    else DigitsValue(z[..|z| - 1], radix) * radix + DigitValue(z[|z| - 1])
  }

  /** `parseInt(s)`: skip leading white space, read an optional sign, switch
      to base 16 after a `0x`/`0X` prefix, then read the longest run of
      digits; `None` stands for `NaN` (no digit at all). */
  function ParseInt(s: string): Option<int>
  {
    var t := TrimStart(s);
    var negative := |t| > 0 && t[0] == '-';
    var u := if |t| > 0 && (t[0] == '-' || t[0] == '+') then t[1..] else t;
    var hex := |u| >= 2 && u[0] == '0' && (u[1] == 'x' || u[1] == 'X');
    var radix := if hex then 16 else 10;
    var w := if hex then u[2..] else u;
    var z := DigitPrefix(w, radix);
    if z == [] then None
    else
      var magnitude: int := DigitsValue(z, radix);
      Some(if negative then -magnitude else magnitude)
  }

  /** `parseInt(s) || 0`: `NaN` (and zero) become zero. */
  function ParseIntOrZero(s: string): int
  {
    match ParseInt(s)
    case None => 0
    case Some(n) => n
  }

  lemma {:induction false} DigitsValueOfDecimal(n: nat)
    ensures AllDigits(IntToDecimal(n), 10)
    ensures DigitsValue(IntToDecimal(n), 10) == n
    decreases n
  {
    DecimalDigits(n);
    var s := IntToDecimal(n);
    if n >= 10 {
      DigitsValueOfDecimal(n / 10);
      assert s[..|s| - 1] == IntToDecimal(n / 10);
    }
  }

  lemma {:induction false} DigitPrefixOfDigits(s: string)
    requires AllDigits(s, 10)
    ensures DigitPrefix(s, 10) == s
  {
    if |s| > 0 {
      DigitPrefixOfDigits(s[1..]);
      assert [s[0]] + s[1..] == s;
    }
  }

  /** Reading back what `toString` wrote gives the same integer: a version
      stored by the updater is read back unchanged. */
  lemma {:induction false} ParseIntOfDecimal(n: int)
    ensures ParseInt(IntToDecimal(n)) == Some(n)
  {
    var m: nat := if n < 0 then -n else n;
    var d := IntToDecimal(m);
    var s := IntToDecimal(n);
    DigitsValueOfDecimal(m);
    DecimalDigits(m);
    assert IsDecimalDigit(d[0]);
    assert s == if n < 0 then "-" + d else d;
    assert !IsJsWhitespace(s[0]);
    assert TrimStart(s) == s;
    var u := if s[0] == '-' || s[0] == '+' then s[1..] else s;
    assert u == d;
    assert !(|u| >= 2 && u[0] == '0' && (u[1] == 'x' || u[1] == 'X')) by {
      if |u| >= 2 {
        assert IsDecimalDigit(u[1]);
      }
    }
    DigitPrefixOfDigits(d);
  }

  lemma ParseIntOrZeroOfDecimal(n: int)
    ensures ParseIntOrZero(IntToDecimal(n)) == n
  {
    ParseIntOfDecimal(n);
  }

  /** `s.split(sep)[0]`: the text before the first occurrence of `sep`, or
      all of `s` when `sep` does not occur. */
  function BeforeFirst(s: string, sep: string): (r: string)
    requires |sep| > 0
    ensures |r| <= |s| && r == s[..|r|]
    ensures NoOccurrence(r, sep)
    ensures |r| < |s| ==> |r| + |sep| <= |s| && s[|r|..|r| + |sep|] == sep
    decreases |s|
  {
    if |s| < |sep| then s
    else if s[..|sep|] == sep then []
    else
      var rest := BeforeFirst(s[1..], sep);
      var r := [s[0]] + rest;
      assert !OccursAt(r, sep, 0) by {
        if |sep| <= |r| {
          assert r[..|sep|] == s[..|sep|];
        }
      }
      assert forall i :: 1 <= i && OccursAt(r, sep, i) ==> OccursAt(rest, sep, i - 1) by {
        forall i | 1 <= i && OccursAt(r, sep, i) ensures OccursAt(rest, sep, i - 1) {
          assert r[i..i + |sep|] == rest[i - 1..i - 1 + |sep|];
        }
      }
      r
  }

  /** `s.split(sep)[0]` of `a + sep + rest` is `a` when `sep` starts at no
      earlier index of `a + sep`. */
  lemma {:induction false} BeforeFirstStops(a: string, sep: string, rest: string)
    requires |sep| > 0
    requires forall i :: 0 <= i < |a| ==> !OccursAt(a + sep, sep, i)
    ensures BeforeFirst(a + sep + rest, sep) == a
    decreases |a|
  {
    var s := a + sep + rest;
    if a == [] {
      assert s[..|sep|] == sep;
    } else {
      assert !OccursAt(a + sep, sep, 0);
      BeforeFirstStep(a, sep, rest);
      forall i | 0 <= i < |a| - 1
        ensures !OccursAt(a[1..] + sep, sep, i)
      {
        OccursShift(a, sep, i);
      }
      BeforeFirstStops(a[1..], sep, rest);
      assert [a[0]] + a[1..] == a;
    }
  }

  /** Without an occurrence of `sep`, `s.split(sep)[0]` is all of `s`. */
  lemma BeforeFirstAbsent(s: string, sep: string)
    requires |sep| > 0 && NoOccurrence(s, sep)
    ensures BeforeFirst(s, sep) == s
  {
    var r := BeforeFirst(s, sep);
    assert !OccursAt(s, sep, |r|);
  }

  lemma BeforeFirstStep(a: string, sep: string, rest: string)
    requires |sep| > 0 && |a| > 0 && !OccursAt(a + sep, sep, 0)
    ensures BeforeFirst(a + sep + rest, sep) == [a[0]] + BeforeFirst(a[1..] + sep + rest, sep)
  {
    var s := a + sep + rest;
    assert s[..|sep|] == (a + sep)[..|sep|];
    assert s[1..] == a[1..] + sep + rest;
  }

  lemma OccursShift(a: string, sep: string, i: nat)
    requires |a| > 0 && i < |a| - 1
    ensures OccursAt(a[1..] + sep, sep, i) == OccursAt(a + sep, sep, i + 1)
  {
    assert (a + sep)[i + 1..i + 1 + |sep|] == (a[1..] + sep)[i..i + |sep|];
  }

  /** `sep` occurs in `s` starting at index `i`. */
  predicate OccursAt(s: string, sep: string, i: int)
  {
    0 <= i && i + |sep| <= |s| && s[i..i + |sep|] == sep
  }

  ghost predicate NoOccurrence(s: string, sep: string)
  {
    forall i :: !OccursAt(s, sep, i)
  }

  predicate EndsWith(s: string, suffix: string)
  {
    |suffix| <= |s| && s[|s| - |suffix|..] == suffix
  }
}
