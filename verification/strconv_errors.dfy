/** How `strconv.Atoi` fails on a 64-bit platform: which of its two reasons
    it reports, decided the way Go's digit loop decides it, and the text of
    the `*strconv.NumError` it returns, whose input is written out by
    `strconv.Quote`. */
module StrconvErrors {
  import opened Wrappers
  import opened Text

  const MaxUint64: int := 0xFFFF_FFFF_FFFF_FFFF

  /** `strconv.ErrSyntax` and `strconv.ErrRange`. */
  datatype Reason = InvalidSyntax | OutOfRange

  function ReasonText(e: Reason): string {
    match e
    case InvalidSyntax => "invalid syntax"
    case OutOfRange => "value out of range"
  }

  function Pow10(k: nat): (p: nat)
    ensures p >= 1
  {
    if k == 0 then 1 else 10 * Pow10(k - 1)
  }

  /** The value of the digits of `s` read from the front, starting from the
      value `n` already read. */
  function Horner(n: nat, s: string): nat
    requires AllDigits(s)
    decreases |s|
  {
    if s == [] then n else Horner(n * 10 + (s[0] as int - '0' as int), s[1..])
  }

  /** The longest run of digits that `s` starts with. */
  function LeadingDigits(s: string): (p: string)
    ensures AllDigits(p) && p <= s
    ensures |p| < |s| ==> !IsDigit(s[|p|])
    decreases |s|
  {
    if s == [] || !IsDigit(s[0]) then [] else [s[0]] + LeadingDigits(s[1..])
  }

  /** The loop of `strconv.ParseUint(s, 10, 64)` from the value `n` read so
      far: a non-digit is a syntax error, and a digit that would take the
      value past 2^64 - 1 is a range error at once, before any later
      character is looked at. */
  function ScanUint(s: string, n: nat): Result<nat, Reason>
    requires n <= MaxUint64
    decreases |s|
  {
    if s == [] then Success(n)
    else if !IsDigit(s[0]) then Failure(InvalidSyntax)
    else if n >= MaxUint64 / 10 + 1 then Failure(OutOfRange)
    else
      var next := n * 10 + (s[0] as int - '0' as int);
      if next > MaxUint64 then Failure(OutOfRange) else ScanUint(s[1..], next)
  }

  /** `strconv.ParseUint(s, 10, 64)`. */
  function ParseUint(s: string): Result<nat, Reason> {
    if s == [] then Failure(InvalidSyntax) else ScanUint(s, 0)
  }

  /** `strconv.ParseInt(s, 10, 64)`: one leading sign is taken off and the
      rest read by `ParseUint`; its syntax error is passed on, and an
      unsigned value, or range error, outside the signed range becomes a
      range error. */
  function ParseInt(s: string): Result<int, Reason> {
    if s == [] then Failure(InvalidSyntax)
    else
      var neg := s[0] == '-';
      match ParseUint(Unsigned(s))
      case Failure(InvalidSyntax) => Failure(InvalidSyntax)
      case Failure(OutOfRange) => Failure(OutOfRange)
      case Success(un) =>
        if !neg && un > MaxInt64 then Failure(OutOfRange)
        else if neg && un > MaxInt64 + 1 then Failure(OutOfRange)
        else
          var magnitude: int := un;
          Success(if neg then -magnitude else magnitude)
  }

  /** `strconv.Atoi` with a 64-bit `int`: an input of 1 to 18 bytes takes
      the fast path, where an empty body after the sign or any non-digit is
      a syntax error; every other input goes through `ParseInt`. */
  function AtoiResult(s: string): Result<int, Reason> {
    if 0 < |s| < 19 then
      var u := Unsigned(s);
      if |u| == 0 || !AllDigits(u) then Failure(InvalidSyntax)
      else
        var magnitude: int := Horner(0, u);
        Success(if s[0] == '-' then -magnitude else magnitude)
    else ParseInt(s)
  }

  /** The message of the `*strconv.NumError` that a failing `strconv.Atoi(s)`
      returns. */
  function AtoiErrorMessage(s: string): string
    requires Atoi(s).None?
  {
    AtoiResultAgrees(s);
    "strconv.Atoi: parsing " + Quote(s) + ": " + ReasonText(AtoiResult(s).error)
  }

  // ---------------------------------------------------------------------
  // strconv.Quote

  /** `strconv.IsPrint` for characters below U+0100; every character from
      U+0100 up is taken to be printable. */
  predicate IsPrint(c: char) {
    (' ' <= c <= '~') || (c as int >= 0xA1 && c as int != 0xAD)
  }

  /** The lower-case hexadecimal digit for `d`, as in `strconv`'s `lowerhex`. */
  function HexDigit(d: nat): char
    requires d < 16
  {
    if d < 10 then ('0' as int + d) as char else ('a' as int + d - 10) as char
  }

  function HexPair(n: nat): string
    requires n < 256
  {
    [HexDigit(n / 16), HexDigit(n % 16)]
  }

  /** `appendEscapedRune` with `"` as the quote: the quote and the backslash
      are backslashed, a printable character is kept, the seven C escapes
      are used where they apply, another ASCII control or DEL becomes
      `\xHH`, and any other character `\uHHHH`. */
  function EscapeRune(c: char): string {
    var r := c as int;
    if c == '"' || c == '\\' then ['\\', c]
    else if IsPrint(c) then [c]
    else if r == 7 then "\\a"
    else if r == 8 then "\\b"
    else if r == 12 then "\\f"
    else if r == 10 then "\\n"
    else if r == 13 then "\\r"
    else if r == 9 then "\\t"
    else if r == 11 then "\\v"
    else if r < 0x20 || r == 0x7F then "\\x" + HexPair(r)
    else "\\u" + HexPair(r / 256) + HexPair(r % 256)
  }

  function EscapeAll(s: string): string {
    if s == [] then "" else EscapeRune(s[0]) + EscapeAll(s[1..])
  }

  /** `strconv.Quote(s)`. */
  function Quote(s: string): string {
    "\"" + EscapeAll(s) + "\""
  }

  /** The value of a hexadecimal digit as `HexDigit` writes it. */
  function HexValue(c: char): (v: nat)
    ensures v < 16
  {
    if '0' <= c <= '9' then c as int - '0' as int
    else if 'a' <= c <= 'f' then c as int - 'a' as int + 10
    else 0
  }

  /** Reads back the escapes `EscapeRune` writes, in the manner of
      `strconv.Unquote`; any other character stands for itself. */
  function Unescape(t: string): string
    decreases |t|
  {
    if t == [] then []
    else if |t| < 2 || t[0] != '\\' then [t[0]] + Unescape(t[1..])
    else
      var e := t[1];
      if e == 'a' then [7 as char] + Unescape(t[2..])
      else if e == 'b' then [8 as char] + Unescape(t[2..])
      else if e == 'f' then [12 as char] + Unescape(t[2..])
      else if e == 'n' then [10 as char] + Unescape(t[2..])
      else if e == 'r' then [13 as char] + Unescape(t[2..])
      else if e == 't' then [9 as char] + Unescape(t[2..])
      else if e == 'v' then [11 as char] + Unescape(t[2..])
      else if e == 'x' && |t| >= 4 then
        [(16 * HexValue(t[2]) + HexValue(t[3])) as char] + Unescape(t[4..])
      else if e == 'u' && |t| >= 6 then
        var v := 4096 * HexValue(t[2]) + 256 * HexValue(t[3]) + 16 * HexValue(t[4]) + HexValue(t[5]);
        if v < 0xD800 then [v as char] + Unescape(t[6..]) else [e] + Unescape(t[2..])
      else [e] + Unescape(t[2..])
  }

  // ---------------------------------------------------------------------
  // Lemmas

  lemma HexDigitValue(d: nat)
    requires d < 16
    ensures HexValue(HexDigit(d)) == d
  {
  }

  lemma {:induction false} HornerAtLeast(n: nat, s: string)
    requires AllDigits(s)
    ensures Horner(n, s) >= n
    decreases |s|
  {
    if s != [] {
      HornerAtLeast(n * 10 + (s[0] as int - '0' as int), s[1..]);
    }
  }

  lemma {:induction false} HornerSnoc(n: nat, s: string, c: char)
    requires AllDigits(s) && IsDigit(c)
    ensures AllDigits(s + [c])
    ensures Horner(n, s + [c]) == Horner(n, s) * 10 + (c as int - '0' as int)
    decreases |s|
  {
    if s != [] {
      assert (s + [c])[1..] == s[1..] + [c];
      HornerSnoc(n * 10 + (s[0] as int - '0' as int), s[1..], c);
    }
  }

  /** Reading digits from the front gives the value `DigitsValue` defines from the back. */
  lemma {:induction false} HornerValue(s: string)
    requires AllDigits(s)
    ensures Horner(0, s) == DigitsValue(s)
    decreases |s|
  {
    if s != [] {
      var init := s[..|s| - 1];
      HornerValue(init);
      assert s == init + [s[|s| - 1]];
      HornerSnoc(0, init, s[|s| - 1]);
    }
  }

  lemma {:induction false} DigitsValueBelow(s: string)
    requires AllDigits(s)
    ensures DigitsValue(s) < Pow10(|s|)
    decreases |s|
  {
    if s != [] {
      DigitsValueBelow(s[..|s| - 1]);
    }
  }

  lemma {:induction false} Pow10Monotone(a: nat, b: nat)
    requires a <= b
    ensures Pow10(a) <= Pow10(b)
    decreases b
  {
    if a < b {
      Pow10Monotone(a, b - 1);
    }
  }

  /** Fewer than 19 digits denote less than 10^18. */
  lemma ShortDigits(s: string)
    requires AllDigits(s) && |s| < 19
    ensures DigitsValue(s) < 1_000_000_000_000_000_000
  {
    DigitsValueBelow(s);
    Pow10Monotone(|s|, 18);
    assert Pow10(6) == 1_000_000;
    assert Pow10(12) == 1_000_000_000_000;
  }

  lemma LeadingDigitsOfDigits(s: string)
    requires AllDigits(s)
    ensures LeadingDigits(s) == s
  {
  }

  /** What Go's loop reports, stated without the loop: a range error exactly
      when the digits before the first non-digit already pass 2^64 - 1, a
      syntax error when a non-digit comes first, and otherwise the value. */
  lemma {:induction false} ScanUintMeaning(s: string, n: nat)
    requires n <= MaxUint64
    ensures ScanUint(s, n) == Failure(OutOfRange) <==> Horner(n, LeadingDigits(s)) > MaxUint64
    ensures ScanUint(s, n).Success? <==> AllDigits(s) && Horner(n, s) <= MaxUint64
    ensures ScanUint(s, n).Success? ==> ScanUint(s, n).value == Horner(n, s)
    decreases |s|
  {
    if s != [] && IsDigit(s[0]) {
      var next := n * 10 + (s[0] as int - '0' as int);
      var run := LeadingDigits(s);
      assert run[0] == s[0] && run[1..] == LeadingDigits(s[1..]);
      assert Horner(n, run) == Horner(next, LeadingDigits(s[1..]));
      HornerAtLeast(next, LeadingDigits(s[1..]));
      if AllDigits(s) {
        assert AllDigits(s[1..]);
        HornerAtLeast(next, s[1..]);
      }
      if n < MaxUint64 / 10 + 1 && next <= MaxUint64 {
        ScanUintMeaning(s[1..], next);
        assert AllDigits(s[1..]) ==> AllDigits(s);
      }
    }
  }

  /** The fast path of `Atoi` never reports a range error, and agrees with
      `Atoi`'s declarative reading. */
  lemma FastPathMeaning(s: string)
    requires 0 < |s| < 19
    ensures AtoiResult(s).Success? <==> Atoi(s).Some?
    ensures AtoiResult(s).Success? ==> AtoiResult(s).value == Atoi(s).value
    ensures AtoiResult(s) != Failure(OutOfRange)
    ensures DigitsValue(LeadingDigits(Unsigned(s))) <= MaxUint64
    ensures IsDecimal(s) ==> MinInt64 <= DecimalValue(s) <= MaxInt64
  {
    var u := Unsigned(s);
    ShortDigits(LeadingDigits(u));
    if IsDecimal(s) {
      HornerValue(u);
      ShortDigits(u);
    }
  }

  /** The slow path, through `ParseInt`, agrees with `Atoi`'s declarative
      reading and reports a range error exactly when the leading digits pass
      2^64 - 1 or the whole numeral is outside the signed range. */
  lemma SlowPathMeaning(s: string)
    requires |s| == 0 || |s| >= 19
    ensures AtoiResult(s).Success? <==> Atoi(s).Some?
    ensures AtoiResult(s).Success? ==> AtoiResult(s).value == Atoi(s).value
    ensures AtoiResult(s) == Failure(OutOfRange) <==>
      DigitsValue(LeadingDigits(Unsigned(s))) > MaxUint64
      || (IsDecimal(s) && !(MinInt64 <= DecimalValue(s) <= MaxInt64))
  {
    if s != [] {
      var u := Unsigned(s);
      if u != [] {
        ScanUintMeaning(u, 0);
        HornerValue(LeadingDigits(u));
        if AllDigits(u) {
          LeadingDigitsOfDigits(u);
        }
      }
    }
  }

  /** The model of Go's `Atoi`, fast path and slow path, succeeds exactly
      when `Text.Atoi` does, with the same value. */
  lemma AtoiResultAgrees(s: string)
    ensures AtoiResult(s).Success? <==> Atoi(s).Some?
    ensures AtoiResult(s).Success? ==> AtoiResult(s).value == Atoi(s).value
  {
    if 0 < |s| < 19 {
      FastPathMeaning(s);
    } else {
      SlowPathMeaning(s);
    }
  }

  /** `Atoi` reports "value out of range" exactly when the digits before the
      first non-digit already pass 2^64 - 1, or the input is a numeral
      outside the signed 64-bit range; any other failure is "invalid
      syntax". */
  lemma AtoiOutOfRangeIff(s: string)
    ensures AtoiResult(s) == Failure(OutOfRange) <==>
      DigitsValue(LeadingDigits(Unsigned(s))) > MaxUint64
      || (IsDecimal(s) && !(MinInt64 <= DecimalValue(s) <= MaxInt64))
  {
    if 0 < |s| < 19 {
      FastPathMeaning(s);
    } else {
      SlowPathMeaning(s);
    }
  }

  /** Digits that pass 2^64 - 1 make `Atoi` report a range error whatever
      follows them, a bad character included. */
  lemma OverflowBeforeBadCharacter(digits: string, rest: string)
    requires AllDigits(digits) && DigitsValue(digits) > MaxUint64
    ensures AtoiResult(digits + rest) == Failure(OutOfRange)
  {
    var s := digits + rest;
    var p := LeadingDigits(s);
    assert digits != [] && s[0] == digits[0];
    assert Unsigned(s) == s;
    assert p[..|digits|] == digits;
    assert p == digits + p[|digits|..];
    HornerValue(digits);
    HornerValue(p);
    HornerAppendAtLeast(0, digits, p[|digits|..]);
    AtoiOutOfRangeIff(s);
  }

  lemma {:induction false} HornerAppendAtLeast(n: nat, a: string, b: string)
    requires AllDigits(a) && AllDigits(b)
    ensures AllDigits(a + b) && Horner(n, a + b) >= Horner(n, a)
    decreases |a|
  {
    if a == [] {
      assert a + b == b;
      HornerAtLeast(n, b);
    } else {
      assert (a + b)[1..] == a[1..] + b;
      HornerAppendAtLeast(n * 10 + (a[0] as int - '0' as int), a[1..], b);
    }
  }

  /** One escaped character reads back as itself. */
  lemma UnescapeRune(c: char, rest: string)
    ensures Unescape(EscapeRune(c) + rest) == [c] + Unescape(rest)
  {
    var t := EscapeRune(c) + rest;
    var r := c as int;
    if c == '"' || c == '\\' {
      assert t[2..] == rest;
    } else if IsPrint(c) {
      assert t[1..] == rest;
    } else if r == 7 || r == 8 || r == 12 || r == 10 || r == 13 || r == 9 || r == 11 {
      assert t[2..] == rest;
    } else if r < 0x20 || r == 0x7F {
      assert t[4..] == rest;
      HexDigitValue(r / 16);
      HexDigitValue(r % 16);
    } else {
      assert r < 256;
      assert t[6..] == rest;
      HexDigitValue(r / 256 / 16);
      HexDigitValue(r / 256 % 16);
      HexDigitValue(r % 256 / 16);
      HexDigitValue(r % 256 % 16);
    }
  }

  /** The escaped text reads back as the original: `strconv.Quote` loses
      nothing, so the message names the input exactly. */
  lemma {:induction false} UnescapeEscapeAll(s: string)
    ensures Unescape(EscapeAll(s)) == s
    decreases |s|
  {
    if s != [] {
      UnescapeRune(s[0], EscapeAll(s[1..]));
      UnescapeEscapeAll(s[1..]);
    }
  }

  /** Printable ASCII without a quote or a backslash is quoted as it is. */
  lemma {:induction false} QuotePlain(s: string)
    requires forall i :: 0 <= i < |s| ==> ' ' <= s[i] <= '~' && s[i] != '"' && s[i] != '\\'
    ensures EscapeAll(s) == s && Quote(s) == "\"" + s + "\""
    decreases |s|
  {
    if s != [] {
      QuotePlain(s[1..]);
      assert EscapeAll(s) == [s[0]] + s[1..];
    }
  }

  /** A lone `"` is reported with its quote backslashed. */
  lemma QuoteMessageForQuote()
    ensures Atoi("\"").None?
    ensures AtoiErrorMessage("\"") == "strconv.Atoi: parsing \"\\\"\": invalid syntax"
  {
  }
}
