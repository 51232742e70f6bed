/** The pieces of Go's `strings`, `strconv` and `fmt` packages that the API
    relies on: `strings.Split` on a one-character separator, `strings.Join`,
    `%d` formatting and `strconv.Atoi` on a 64-bit platform. */
module Text {
  import opened Wrappers

  const MinInt64: int := -0x8000_0000_0000_0000
  const MaxInt64: int := 0x7FFF_FFFF_FFFF_FFFF

  /** The position of the first `c` in `s`. */
  function IndexOf(s: string, c: char): (i: nat)
    requires c in s
    ensures i < |s| && s[i] == c && c !in s[..i]
  {
    if s[0] == c then 0
    else
      assert c in s[1..] by { var j :| 0 <= j < |s| && s[j] == c; assert s[1..][j - 1] == c; }
      var k := IndexOf(s[1..], c);
      assert s[..k + 1] == [s[0]] + s[1..][..k];
      k + 1
  }

  /** `strings.Split(s, string(sep))`: the maximal separator-free pieces of `s`, in order. */
  function Split(s: string, sep: char): (parts: seq<string>)
    ensures |parts| >= 1
    ensures forall i :: 0 <= i < |parts| ==> sep !in parts[i]
    decreases |s|
  {
    if sep !in s then [s]
    else
      var i := IndexOf(s, sep);
      [s[..i]] + Split(s[i + 1..], sep)
  }

  /** `strings.Join(parts, sep)`. */
  function Join(parts: seq<string>, sep: string): string {
    if |parts| == 0 then ""
    else if |parts| == 1 then parts[0]
    else parts[0] + sep + Join(parts[1..], sep)
  }

  /** A character that is in none of the pieces and not in the separator
      is not in their join. */
  lemma {:induction false} JoinAvoids(parts: seq<string>, sep: string, c: char)
    requires forall i :: 0 <= i < |parts| ==> c !in parts[i]
    requires c !in sep
    ensures c !in Join(parts, sep)
    decreases |parts|
  {
    if |parts| > 1 {
      assert forall i :: 0 <= i < |parts[1..]| ==> parts[1..][i] == parts[i + 1];
      JoinAvoids(parts[1..], sep, c);
      assert c !in parts[0];
    }
  }

  /** Joining the pieces of a split with the separator gives back the input. */
  lemma {:induction false} JoinSplit(s: string, sep: char)
    ensures Join(Split(s, sep), [sep]) == s
    decreases |s|
  {
    if sep in s {
      var i := IndexOf(s, sep);
      var rest := s[i + 1..];
      JoinSplit(rest, sep);
      assert s == s[..i] + [sep] + rest;
      var tail := Split(rest, sep);
      assert Split(s, sep) == [s[..i]] + tail;
      assert ([s[..i]] + tail)[1..] == tail;
    }
  }

  /** Splitting `a + [sep] + b` where `a` holds no separator peels off `a`. */
  lemma SplitCons(a: string, sep: char, b: string)
    requires sep !in a
    ensures Split(a + [sep] + b, sep) == [a] + Split(b, sep)
  {
    var s := a + [sep] + b;
    assert s[|a|] == sep;
    var i := IndexOf(s, sep);
    assert i == |a|;
    assert s[..i] == a;
    assert s[i + 1..] == b;
  }

  /** A split yields exactly two pieces iff the separator occurs exactly once,
      and then the pieces are what lies before and after it. */
  lemma SplitTwo(s: string, sep: char)
    ensures |Split(s, sep)| == 2 <==>
      exists i :: 0 <= i < |s| && s[i] == sep && sep !in s[..i] && sep !in s[i + 1..]
    ensures forall i :: 0 <= i < |s| && s[i] == sep && sep !in s[..i] && sep !in s[i + 1..] ==>
      Split(s, sep) == [s[..i], s[i + 1..]]
  {
    forall i | 0 <= i < |s| && s[i] == sep && sep !in s[..i] && sep !in s[i + 1..]
      ensures Split(s, sep) == [s[..i], s[i + 1..]]
    {
      assert s == s[..i] + [sep] + s[i + 1..];
      SplitCons(s[..i], sep, s[i + 1..]);
    }
    if |Split(s, sep)| == 2 {
      assert sep in s;
      var i := IndexOf(s, sep);
      assert Split(s, sep) == [s[..i]] + Split(s[i + 1..], sep);
      assert |Split(s[i + 1..], sep)| == 1;
      assert sep !in s[i + 1..];
    }
  }

  predicate IsDigit(c: char) {
    '0' <= c <= '9'
  }

  predicate AllDigits(s: string) {
    forall i :: 0 <= i < |s| ==> IsDigit(s[i])
  }

  function DigitChar(d: nat): (c: char)
    requires d < 10
    ensures IsDigit(c) && c as int - '0' as int == d
  {
    (d + '0' as int) as char
  }

  /** The value of a run of decimal digits, most significant first. */
  function DigitsValue(s: string): nat
    requires AllDigits(s)
  {
    if s == [] then 0
    else DigitsValue(s[..|s| - 1]) * 10 + (s[|s| - 1] as int - '0' as int)
  }

  /** `%d` of a non-negative number: its shortest decimal digits. */
  function FormatNat(n: nat): (r: string)
    ensures |r| >= 1 && AllDigits(r)
  {
    if n < 10 then [DigitChar(n)]
    else FormatNat(n / 10) + [DigitChar(n % 10)]
  }

  /** `fmt.Sprintf("%d", n)`. */
  function FormatInt(n: int): (r: string)
    ensures |r| >= 1
    ensures forall i :: 0 <= i < |r| ==> r[i] == '-' || IsDigit(r[i])
  {
    if n < 0 then "-" + FormatNat(-n) else FormatNat(n)
  }

  lemma {:induction false} FormatNatValue(n: nat)
    ensures DigitsValue(FormatNat(n)) == n
  {
    if n >= 10 {
      FormatNatValue(n / 10);
      var s := FormatNat(n);
      assert s[..|s| - 1] == FormatNat(n / 10);
    }
  }

  /** The digits of a decimal numeral after its optional sign. */
  function Unsigned(s: string): string {
    if |s| > 0 && (s[0] == '-' || s[0] == '+') then s[1..] else s
  }

  /** The syntax `strconv.Atoi` accepts: an optional sign and at least one digit. */
  predicate IsDecimal(s: string) {
    |Unsigned(s)| > 0 && AllDigits(Unsigned(s))
  }

  /** The number an optionally signed run of digits denotes. */
  function DecimalValue(s: string): int
    requires IsDecimal(s)
  {
    var magnitude: int := DigitsValue(Unsigned(s));
    if s[0] == '-' then -magnitude else magnitude
  }

  /** `strconv.Atoi` with a 64-bit `int`: an optional sign, then one or more
      decimal digits, whose value must fit in 64 bits. */
  function Atoi(s: string): (r: Option<int>)
    ensures r.Some? <==> IsDecimal(s) && MinInt64 <= DecimalValue(s) <= MaxInt64
    ensures r.Some? ==> r.value == DecimalValue(s)
  {
    if |s| == 0 then None
    else
      var body := Unsigned(s);
      if |body| == 0 || !AllDigits(body) then None
      else
        var magnitude: int := DigitsValue(body);
        var v := if s[0] == '-' then -magnitude else magnitude;
        if MinInt64 <= v <= MaxInt64 then Some(v) else None
  }

  /** `strconv.Atoi` reads back what `%d` printed, for every 64-bit value. */
  lemma AtoiFormatInt(n: int)
    requires MinInt64 <= n <= MaxInt64
    ensures Atoi(FormatInt(n)) == Some(n)
  {
    if n < 0 {
      FormatNatValue(-n);
      assert FormatInt(n)[1..] == FormatNat(-n);
    } else {
      FormatNatValue(n);
      assert IsDigit(FormatNat(n)[0]);
    }
  }

  /** A leading zero does not change the value of a run of digits. */
  lemma {:induction false} LeadingZero(s: string)
    requires AllDigits(s)
    ensures AllDigits("0" + s) && DigitsValue("0" + s) == DigitsValue(s)
    decreases |s|
  {
    if s != [] {
      var init := s[..|s| - 1];
      LeadingZero(init);
      assert ("0" + s)[..|"0" + s| - 1] == "0" + init;
    }
  }

  /** `strconv.Atoi` reads a numeral with a leading `+`, which `%d` never prints. */
  lemma AtoiPlusSign(n: nat)
    requires n <= MaxInt64
    ensures Atoi("+" + FormatNat(n)) == Some(n)
  {
    FormatNatValue(n);
    assert Unsigned("+" + FormatNat(n)) == FormatNat(n);
  }

  /** `strconv.Atoi` reads a numeral with a leading zero, which `%d` never prints. */
  lemma AtoiLeadingZero(n: nat)
    requires n <= MaxInt64
    ensures Atoi("0" + FormatNat(n)) == Some(n)
  {
    FormatNatValue(n);
    LeadingZero(FormatNat(n));
    assert Unsigned("0" + FormatNat(n)) == "0" + FormatNat(n);
  }

  /** `strconv.Atoi` reads `-0`, which `%d` never prints. */
  lemma AtoiNegativeZero()
    ensures Atoi("-0") == Some(0)
  {
    assert Unsigned("-0") == "0";
    assert DigitsValue("0") == 0;
  }
}
