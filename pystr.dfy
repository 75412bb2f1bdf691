/**
 * Python `str` operations used to take the broker URL apart: `strip()`,
 * `split(sep)` and `int(s)` in base 10.
 */
module PyStr {
  import opened Wrappers

  /** `str.isspace()` for one character: every code point Python treats as whitespace. */
  predicate IsSpace(c: char)
  {
    var n := c as int;
    (9 <= n <= 13) || (28 <= n <= 32) || n == 0x85 || n == 0xA0 || n == 0x1680 ||
    (0x2000 <= n <= 0x200A) || n == 0x2028 || n == 0x2029 || n == 0x202F ||
    n == 0x205F || n == 0x3000
  }

  /**
   * The whitespace `int()` skips around a number. An all-ASCII string is
   * trimmed of ASCII whitespace only, so the separators U+001C..U+001F,
   * which `str.isspace()` accepts, are not skipped; any other character
   * `str.isspace()` accepts is.
   */
  predicate IsIntSpace(c: char)
  {
    IsSpace(c) && !(28 <= c as int <= 31)
  }

  /** Every character of `s` is `white`. */
  predicate AllWhite(s: string, white: char -> bool)
  {
    forall k :: 0 <= k < |s| ==> white(s[k])
  }

  /** `lstrip`: the suffix left after the leading characters that are `white`. */
  function LStrip(s: string, white: char -> bool): (r: string)
    ensures |r| <= |s| && r == s[|s| - |r|..]
    ensures AllWhite(s[..|s| - |r|], white)
    ensures r == [] || !white(r[0])
  {
    if s != [] && white(s[0]) then
      var r := LStrip(s[1..], white);
      assert s[1..][..|s| - 1 - |r|] == s[1..|s| - |r|];
      r
    else s
  }

  /** `rstrip`: the prefix left before the trailing characters that are `white`. */
  function RStrip(s: string, white: char -> bool): (r: string)
    ensures |r| <= |s| && r == s[..|r|]
    ensures AllWhite(s[|r|..], white)
    ensures r == [] || !white(r[|r| - 1])
  {
    if s != [] && white(s[|s| - 1]) then
      var r := RStrip(s[..|s| - 1], white);
      assert s[..|s| - 1][|r|..] == s[|r|..|s| - 1];
      r
    else s
  }

  /** Leading `white` characters make no difference to `lstrip`. */
  lemma {:induction false} LStripPadded(pre: string, s: string, white: char -> bool)
    requires AllWhite(pre, white)
    ensures LStrip(pre + s, white) == LStrip(s, white)
  {
    if pre == [] {
      assert pre + s == s;
    } else {
      assert (pre + s)[0] == pre[0] && white(pre[0]);
      assert (pre + s)[1..] == pre[1..] + s;
      LStripPadded(pre[1..], s, white);
    }
  }

  /** Trailing `white` characters make no difference to `rstrip`. */
  lemma {:induction false} RStripPadded(s: string, post: string, white: char -> bool)
    requires AllWhite(post, white)
    ensures RStrip(s + post, white) == RStrip(s, white)
  {
    if post == [] {
      assert s + post == s;
    } else {
      var n := |post| - 1;
      assert (s + post)[|s + post| - 1] == post[n] && white(post[n]);
      assert (s + post)[..|s + post| - 1] == s + post[..n];
      RStripPadded(s, post[..n], white);
    }
  }

  /** A string with no whitespace at either end. */
  predicate IsStripped(s: string)
  {
    s == [] || (!IsSpace(s[0]) && !IsSpace(s[|s| - 1]))
  }

  /** `str.strip()`: `s` without its leading and trailing `str.isspace()` characters. */
  function Strip(s: string): (r: string)
    ensures IsStripped(r)
  {
    RStrip(LStrip(s, IsSpace), IsSpace)
  }

  /** Stripping a string that already has no edge whitespace changes nothing; so `strip` is idempotent. */
  lemma StripStripped(s: string)
    requires IsStripped(s)
    ensures Strip(s) == s
  {
  }

  lemma StripIdempotent(s: string)
    ensures Strip(Strip(s)) == Strip(s)
  {
    StripStripped(Strip(s));
  }

  /** Number of occurrences of `c` in `s`. */
  function Count(s: string, c: char): nat
  {
    if s == [] then 0 else (if s[0] == c then 1 else 0) + Count(s[1..], c)
  }

  /**
   * `s.split(sep)` for a one-character separator: the pieces between
   * separators, empty ones included, so there is always at least one piece.
   */
  function Split(s: string, sep: char): (parts: seq<string>)
    ensures |parts| == Count(s, sep) + 1
    ensures forall k :: 0 <= k < |parts| ==> sep !in parts[k]
  {
    if s == [] then [[]]
    else
      var rest := Split(s[1..], sep);
      if s[0] == sep then [[]] + rest
      else [[s[0]] + rest[0]] + rest[1..]
  }

  /** `sep.join(parts)`. */
  function Join(parts: seq<string>, sep: char): string
    requires |parts| >= 1
  {
    if |parts| == 1 then parts[0] else parts[0] + [sep] + Join(parts[1..], sep)
  }

  /** Joining the pieces of a split with the same separator gives back the string. */
  lemma {:induction false} JoinSplit(s: string, sep: char)
    ensures Join(Split(s, sep), sep) == s
  {
    if s != [] {
      var rest := Split(s[1..], sep);
      JoinSplit(s[1..], sep);
      if s[0] == sep {
        assert Split(s, sep)[1..] == rest;
      } else if |rest| > 1 {
        assert Split(s, sep)[1..] == rest[1..];
        assert Join(rest, sep) == rest[0] + [sep] + Join(rest[1..], sep);
      }
    }
  }

  /** A string without the separator splits into itself alone. */
  lemma {:induction false} SplitNoSeparator(s: string, sep: char)
    requires sep !in s
    ensures Split(s, sep) == [s]
  {
    if s != [] {
      SplitNoSeparator(s[1..], sep);
      assert [s[0]] + s[1..] == s;
    }
  }

  /** The first separator ends the first piece. */
  lemma {:induction false} SplitAtFirst(a: string, sep: char, b: string)
    requires sep !in a
    ensures Split(a + [sep] + b, sep) == [a] + Split(b, sep)
  {
    if a == [] {
      assert ([sep] + b)[1..] == b;
    } else {
      assert (a + [sep] + b)[1..] == a[1..] + [sep] + b;
      SplitAtFirst(a[1..], sep, b);
      assert [a[0]] + a[1..] == a;
    }
  }

  predicate IsDigit(c: char)
  {
    '0' <= c <= '9'
  }

  predicate AllDigits(s: string)
  {
    forall k :: 0 <= k < |s| ==> IsDigit(s[k])
  }

  /** The value of a string of decimal digits, most significant first. */
  function DigitsValue(s: string): nat
    requires AllDigits(s)
  {
    if s == [] then 0
    else DigitsValue(s[..|s| - 1]) * 10 + (s[|s| - 1] as int - '0' as int)
  }

  /** The decimal spelling of `n`, as `str(n)` writes it. */
  function ShowNat(n: nat): (s: string)
    ensures |s| >= 1 && AllDigits(s)
  {
    var d := ('0' as int + n % 10) as char;
    if n < 10 then [d] else ShowNat(n / 10) + [d]
  }

  /** Reading back the decimal spelling of `n` gives `n`. */
  lemma {:induction false} DigitsValueShowNat(n: nat)
    ensures DigitsValue(ShowNat(n)) == n
  {
    if n >= 10 {
      DigitsValueShowNat(n / 10);
      var s := ShowNat(n);
      assert s[..|s| - 1] == ShowNat(n / 10);
    }
  }

  /** The text `int()` reads its sign and digits from: `s` without the whitespace around it. */
  function IntStrip(s: string): (t: string)
    ensures t == [] || (!IsIntSpace(t[0]) && !IsIntSpace(t[|t| - 1]))
  {
    RStrip(LStrip(s, IsIntSpace), IsIntSpace)
  }

  /** An optional sign: nothing, `+` or `-`. */
  predicate IsSign(sign: string)
  {
    sign == [] || sign == ['+'] || sign == ['-']
  }

  /** The value of digits read as `n` behind `sign`. */
  function Signed(sign: string, n: nat): int
  {
    if sign == ['-'] then -(n as int) else n
  }

  /** Regrouping a four-part concatenation around its middle two parts. */
  lemma Regroup(a: string, b: string, c: string, d: string)
    ensures a + b + c + d == a + (b + c) + d
    ensures a + b + c + d == a + ((b + c) + d)
  {
  }

  /** Whitespace around a text that neither starts nor ends with whitespace is all `int()` skips. */
  lemma IntStripPadded(pre: string, t: string, post: string)
    requires AllWhite(pre, IsIntSpace) && AllWhite(post, IsIntSpace)
    requires t != [] && !IsIntSpace(t[0]) && !IsIntSpace(t[|t| - 1])
    ensures IntStrip(pre + t + post) == t
  {
    assert pre + t + post == pre + (t + post);
    LStripPadded(pre, t + post, IsIntSpace);
    assert (t + post)[0] == t[0];
    assert LStrip(t + post, IsIntSpace) == t + post;
    RStripPadded(t, post, IsIntSpace);
  }

  /**
   * The most digits `int()` reads in base 10: the default of
   * `sys.get_int_max_str_digits()`. Longer digit strings raise ValueError.
   */
  const MaxStrDigits: nat := 4300

  /**
   * `int(s)` in base 10: surrounding whitespace is ignored, an optional
   * sign is accepted and between one and `MaxStrDigits` ASCII digits must
   * follow. `None` stands for the ValueError Python raises on anything else.
   */
  function ParseInt(s: string): (r: Option<int>)
    ensures r.Some? ==> IntStrip(s) != []
    ensures r.Some? && r.value < 0 ==> IntStrip(s)[0] == '-'
  {
    ReadSigned(IntStrip(s))
  }

  /** The leading sign of `t`, if any, and the text after it. */
  function SignSplit(t: string): (r: (string, string))
    ensures IsSign(r.0) && t == r.0 + r.1
  {
    if t != [] && (t[0] == '-' || t[0] == '+') then (t[..1], t[1..]) else ([], t)
  }

  /** The number `int()` reads from already trimmed text: an optional sign, then digits only. */
  function ReadSigned(t: string): (r: Option<int>)
    ensures r.Some? ==> t != []
    ensures r.Some? && r.value < 0 ==> t[0] == '-'
  {
    var (sign, digits) := SignSplit(t);
    if digits != [] && AllDigits(digits) && |digits| <= MaxStrDigits then
      Some(Signed(sign, DigitsValue(digits)))
    else None
  }

  /** A sign followed by digits reads as their signed value, unless there are too many digits. */
  lemma ReadSignedDigits(sign: string, digits: string)
    requires IsSign(sign) && digits != [] && AllDigits(digits)
    ensures ReadSigned(sign + digits) ==
      if |digits| <= MaxStrDigits then Some(Signed(sign, DigitsValue(digits))) else None
  {
    var t := sign + digits;
    if sign == [] {
      assert t == digits;
      assert IsDigit(digits[0]);
    } else {
      assert t[0] == sign[0];
      assert t[..1] == sign && t[1..] == digits;
    }
    assert SignSplit(t) == (sign, digits);
  }

  /** Whatever `ReadSigned` accepts is a sign followed by digits. */
  lemma ReadSignedAccepted(t: string) returns (sign: string, digits: string)
    requires ReadSigned(t).Some?
    ensures t == sign + digits && IsSign(sign) && digits != [] && AllDigits(digits)
    ensures |digits| <= MaxStrDigits
  {
    sign, digits := SignSplit(t).0, SignSplit(t).1;
  }

  /** `int()` reads whatever its whitespace trimming leaves. */
  lemma ParseIntOfStripped(s: string, t: string)
    requires IntStrip(s) == t
    ensures ParseInt(s) == ReadSigned(t)
  {
  }

  /** Digits carry no whitespace to trim. */
  lemma IntStripDigits(digits: string)
    requires digits != [] && AllDigits(digits)
    ensures IntStrip(digits) == digits
  {
    var first, last := digits[0], digits[|digits| - 1];
    assert IsDigit(first) && IsDigit(last);
    assert !IsIntSpace(first) && !IsIntSpace(last);
    assert LStrip(digits, IsIntSpace) == digits;
    assert RStrip(digits, IsIntSpace) == digits;
  }

  /** Unsigned digits read as their value, unless there are too many of them. */
  lemma ReadSignedBare(digits: string)
    requires digits != [] && AllDigits(digits)
    ensures ReadSigned(digits) == if |digits| <= MaxStrDigits then Some(DigitsValue(digits)) else None
  {
    var none: string := [];
    assert none + digits == digits;
    ReadSignedDigits(none, digits);
  }

  /** Trimming whitespace around a signed run of digits leaves the sign and the digits. */
  lemma IntStripSignedDigits(pre: string, sign: string, digits: string, post: string)
    requires AllWhite(pre, IsIntSpace) && AllWhite(post, IsIntSpace)
    requires IsSign(sign) && digits != [] && AllDigits(digits)
    ensures IntStrip(pre + sign + digits + post) == sign + digits
  {
    var t := sign + digits;
    assert IsDigit(digits[0]) && IsDigit(digits[|digits| - 1]);
    assert t[|t| - 1] == digits[|digits| - 1];
    assert t[0] == if sign == [] then digits[0] else sign[0];
    IntStripPadded(pre, t, post);
    Regroup(pre, sign, digits, post);
  }

  /** Whitespace, an optional sign and decimal digits are read as the signed value of the digits. */
  lemma ParseIntPadded(pre: string, sign: string, digits: string, post: string)
    requires AllWhite(pre, IsIntSpace) && AllWhite(post, IsIntSpace)
    requires IsSign(sign) && digits != [] && AllDigits(digits)
    ensures ParseInt(pre + sign + digits + post) ==
      if |digits| <= MaxStrDigits then Some(Signed(sign, DigitsValue(digits))) else None
  {
    IntStripSignedDigits(pre, sign, digits, post);
    ParseIntOfStripped(pre + sign + digits + post, sign + digits);
    ReadSignedDigits(sign, digits);
  }

  /** A string is its prefix up to `i` followed by the rest. */
  lemma CutAt(s: string, i: nat)
    requires i <= |s|
    ensures s == s[..i] + s[i..]
  {
  }

  /** The text between the leading and the trailing `white` characters, with those around it. */
  lemma Surrounded(s: string, white: char -> bool) returns (pre: string, post: string)
    ensures s == pre + (RStrip(LStrip(s, white), white) + post)
    ensures AllWhite(pre, white) && AllWhite(post, white)
  {
    var u := LStrip(s, white);
    var t := RStrip(u, white);
    pre, post := s[..|s| - |u|], u[|t|..];
    CutAt(s, |s| - |u|);
    CutAt(u, |t|);
  }

  /** Every text `int()` accepts has that shape: whitespace, an optional sign, digits, whitespace. */
  lemma ParseIntAccepted(s: string) returns (pre: string, sign: string, digits: string, post: string)
    requires ParseInt(s).Some?
    ensures s == pre + sign + digits + post
    ensures AllWhite(pre, IsIntSpace) && AllWhite(post, IsIntSpace)
    ensures IsSign(sign) && digits != [] && AllDigits(digits) && |digits| <= MaxStrDigits
    ensures ParseInt(s) == Some(Signed(sign, DigitsValue(digits)))
  {
    pre, post := Surrounded(s, IsIntSpace);
    sign, digits := ReadSignedAccepted(IntStrip(s));
    ReadSignedDigits(sign, digits);
    Regroup(pre, sign, digits, post);
  }

  /** U+001C is whitespace to `strip()` but not to `int()`: `int("\x1c5")` raises. */
  lemma SeparatorIsNotIntSpace()
    ensures Strip([28 as char]) == []
    ensures ParseInt([28 as char, '5']) == None
  {
    var s := [28 as char, '5'];
    assert !IsIntSpace(s[0]) && !IsIntSpace(s[1]);
    assert LStrip(s, IsIntSpace) == s;
    assert RStrip(s, IsIntSpace) == s;
    assert !IsDigit(s[0]);
  }

  /** Bare decimal digits are read as their value. */
  lemma ParseIntDigits(digits: string)
    requires digits != [] && AllDigits(digits)
    ensures ParseInt(digits) == if |digits| <= MaxStrDigits then Some(DigitsValue(digits)) else None
  {
    IntStripDigits(digits);
    ParseIntOfStripped(digits, digits);
    ReadSignedBare(digits);
  }

  /** `int(str(n)) == n` whenever the spelling is within the digit limit; past it `int()` raises. */
  lemma ParseIntShowNat(n: nat)
    ensures ParseInt(ShowNat(n)) == if |ShowNat(n)| <= MaxStrDigits then Some(n) else None
  {
    ParseIntDigits(ShowNat(n));
    DigitsValueShowNat(n);
  }
}
