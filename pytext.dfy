/** The few pieces of Python's value semantics that the validator relies on:
    optional values, the truthiness of an optional `str`, `str(int)`,
    `str.split(sep)`, `str.isascii() and str.isdigit()`, and `int(s)` on
    a string of ASCII digits. */
module PyText {

  /** A value that may be Python's `None`. */
  datatype Option<+T> = None | Some(value: T)

  /** `bool(s)` for an optional string: `None` and `""` are false. */
  predicate Truthy(s: Option<string>) {
    s.Some? && s.value != ""
  }

  predicate IsAsciiDigit(c: char) {
    '0' <= c <= '9'
  }

  predicate AllDigits(s: string) {
    forall i | 0 <= i < |s| :: IsAsciiDigit(s[i])
  }

  /** `s.isascii() and s.isdigit()`: `isdigit` is false on the empty string. */
  predicate IsDecimal(s: string) {
    |s| > 0 && AllDigits(s)
  }

  function DigitValue(c: char): nat
    requires IsAsciiDigit(c)
  {
    c as int - '0' as int
  }

  function DigitChar(k: nat): (c: char)
    requires k < 10
    ensures IsAsciiDigit(c) && DigitValue(c) == k
  {
    (k + '0' as int) as char
  }

  /** `int(s)` for a string of ASCII digits (leading zeros allowed). */
  function DecimalValue(s: string): nat
    requires AllDigits(s)
  {
    if s == [] then 0 else DecimalValue(s[..|s| - 1]) * 10 + DigitValue(s[|s| - 1])
  }

  /** `str(n)` for a non-negative `int`: int(str(n)) == n. */
  function NatText(n: nat): (s: string)
    ensures IsDecimal(s)
    ensures DecimalValue(s) == n
  {
    if n < 10 then [DigitChar(n)]
    else
      var s := NatText(n / 10) + [DigitChar(n % 10)];
      assert s[..|s| - 1] == NatText(n / 10);
      s
  }

  /** `str(n)` for any `int`. */
  function IntText(n: int): string {
    if n < 0 then "-" + NatText(-n) else NatText(n)
  }

  /** `str(x)` (and so `f"{x}"`) for an optional string. */
  function StrText(x: Option<string>): string {
    match x
    case None => "None"
    case Some(s) => s
  }

  /** `str(x)` (and so `f"{x}"`) for an optional int. */
  function IntOptText(x: Option<int>): string {
    match x
    case None => "None"
    case Some(n) => IntText(n)
  }

  /** `sep.join(parts)` */
  function Join(parts: seq<string>, sep: char): string {
    if parts == [] then ""
    else if |parts| == 1 then parts[0]
    else parts[0] + [sep] + Join(parts[1..], sep)
  }

  /** `s.split(sep)`: the pieces between occurrences of `sep`. */
  function Split(s: string, sep: char): (parts: seq<string>)
    ensures |parts| >= 1
  {
    if s == [] then [""]
    else
      var rest := Split(s[1..], sep);
      if s[0] == sep then [""] + rest
      else [[s[0]] + rest[0]] + rest[1..]
  }

  // ----- lemmas about Split -----

  /** Joining the pieces of `s.split(sep)` with `sep` gives back `s`, and no
      piece holds `sep`. */
  lemma {:induction false} SplitJoin(s: string, sep: char)
    ensures Join(Split(s, sep), sep) == s
    ensures forall k | 0 <= k < |Split(s, sep)| :: sep !in Split(s, sep)[k]
    decreases |s|
  {
    if s != [] {
      var rest := Split(s[1..], sep);
      SplitJoin(s[1..], sep);
      var parts := Split(s, sep);
      if s[0] == sep {
        assert parts[1..] == rest;
      } else {
        assert forall k | 1 <= k < |parts| :: parts[k] == rest[k];
        assert |rest| > 1 ==> Join(rest, sep) == rest[0] + [sep] + Join(rest[1..], sep);
        assert [s[0]] + s[1..] == s;
      }
    }
  }

  lemma {:induction false} SplitWithoutSep(s: string, sep: char)
    requires sep !in s
    ensures Split(s, sep) == [s]
    decreases |s|
  {
    if s != [] {
      assert sep != s[0];
      assert sep !in s[1..] by {
        forall i | 0 <= i < |s[1..]| ensures s[1..][i] != sep {
          assert s[1..][i] == s[i + 1];
        }
      }
      SplitWithoutSep(s[1..], sep);
      assert [s[0]] + s[1..] == s;
    }
  }

  /** Splitting `s + sep + t`, where `t` holds no `sep`, yields the pieces of `s`
      followed by `t`. */
  lemma {:induction false} SplitAppend(s: string, sep: char, t: string)
    requires sep !in t
    ensures Split(s + [sep] + t, sep) == Split(s, sep) + [t]
    decreases |s|
  {
    var u := s + [sep] + t;
    if s == [] {
      assert u[0] == sep && u[1..] == t;
      SplitWithoutSep(t, sep);
    } else {
      assert u[0] == s[0] && u[1..] == s[1..] + [sep] + t;
      SplitAppend(s[1..], sep, t);
    }
  }

  /** A text with `sep` in it splits into at least two pieces. */
  lemma SplitWithSep(s: string, sep: char)
    requires sep in s
    ensures |Split(s, sep)| >= 2
  {
    var parts := Split(s, sep);
    SplitJoin(s, sep);
    if |parts| == 1 {
      assert false;
    }
  }

  // ----- lemmas about decimal text -----

  /** A digit string that starts with a non-zero digit has a positive value. */
  lemma {:induction false} LeadingDigitPositive(o: string)
    requires IsDecimal(o) && o[0] != '0'
    ensures DecimalValue(o) >= 1
    decreases |o|
  {
    if |o| > 1 {
      var p := o[..|o| - 1];
      assert p[0] == o[0];
      LeadingDigitPositive(p);
    }
  }

  /** A digit string without leading zeros is the `str` of its value. */
  lemma {:induction false} CanonicalDecimal(o: string)
    requires IsDecimal(o)
    requires o == "0" || o[0] != '0'
    ensures NatText(DecimalValue(o)) == o
    decreases |o|
  {
    var v := DecimalValue(o);
    if |o| == 1 {
      assert [DigitChar(DigitValue(o[0]))] == o;
    } else {
      var p := o[..|o| - 1];
      assert p[0] == o[0];
      LeadingDigitPositive(p);
      CanonicalDecimal(p);
      assert v / 10 == DecimalValue(p) && v % 10 == DigitValue(o[|o| - 1]);
      assert DigitChar(v % 10) == o[|o| - 1];
      assert p + [o[|o| - 1]] == o;
    }
  }

  /** `str(n)` starts with '0' only for zero. */
  lemma {:induction false} NatTextLeadingZero(n: nat)
    ensures NatText(n)[0] == '0' ==> n == 0
  {
    if n >= 10 {
      assert NatText(n) == NatText(n / 10) + [DigitChar(n % 10)];
      assert NatText(n)[0] == NatText(n / 10)[0];
      NatTextLeadingZero(n / 10);
    }
  }

  /** Numbers below 1000 have at most three digits. */
  lemma {:induction false} NatTextShort(n: nat)
    requires n < 1000
    ensures |NatText(n)| <= 3
  {
    if n >= 10 {
      NatTextShort(n / 10);
      if n >= 100 {
        assert |NatText(n / 10)| <= 2 by { NatTextShort(n / 100); }
      }
    }
  }
}
