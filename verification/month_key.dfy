/** The string key `${year}-${month}` the previous-month archiver groups, flags and
    selects months by (components/previous-month-archiver.tsx), and the way it is read
    back with `split('-').map(Number)`. */
module MonthKeys {
  import opened Collections

  predicate IsDigit(c: char) {
    '0' <= c <= '9'
  }

  predicate AllDigits(s: string) {
    forall i :: 0 <= i < |s| ==> IsDigit(s[i])
  }

  function DigitChar(d: nat): (c: char)
    requires d < 10
    ensures IsDigit(c)
  {
    (('0' as int) + d) as char
  }

  function DigitValue(c: char): nat
    requires IsDigit(c)
  {
    (c as int) - ('0' as int)
  }

  /** `${n}` for a non-negative integer: its decimal digits, no padding. */
  function Decimal(n: nat): (s: string)
    ensures |s| >= 1 && AllDigits(s)
  {
    if n < 10 then [DigitChar(n)] else Decimal(n / 10) + [DigitChar(n % 10)]
  }

  /** The value of a string of decimal digits (0 for the empty string). */
  function DigitsValue(s: string): nat
    requires AllDigits(s)
  {
    if s == [] then 0 else DigitsValue(s[..|s| - 1]) * 10 + DigitValue(s[|s| - 1])
  }

  /** `Number(s)`, read on digit strings only: the empty string reads as 0, as in
      JavaScript, and everything else that is not all digits is taken as NaN (None).
      JavaScript also accepts surrounding spaces, a sign, a fraction or an exponent;
      keys built by `${year}-${month}` never hold those. */
  function Number(s: string): (r: Option<nat>)
    ensures r.Some? <==> AllDigits(s)
    ensures s == [] ==> r == Some(0)
  {
    if AllDigits(s) then Some(DigitsValue(s)) else None
  }

  /** `s.split(sep)`: the pieces between separators, always at least one. */
  function Split(s: string, sep: char): (parts: seq<string>)
    ensures |parts| >= 1
  {
    if s == [] then [""]
    else
      var rest := Split(s[1..], sep);
      if s[0] == sep then [""] + rest else [[s[0]] + rest[0]] + rest[1..]
  }

  /** `${year}-${month}`: a key that splits at its one dash into exactly the two
      decimal renderings. */
  function FormatKey(year: nat, month: nat): (key: string)
    ensures Split(key, '-') == [Decimal(year), Decimal(month)]
  {
    NoDashInDecimal(year);
    NoDashInDecimal(month);
    SplitAroundDash(Decimal(year), Decimal(month));
    Decimal(year) + "-" + Decimal(month)
  }

  /** `const [year, month] = key.split('-').map(Number)`: None when either part is
      missing or NaN, in which case no month matches it. */
  function ParseKey(key: string): (r: Option<(nat, nat)>)
    ensures r.Some? <==> |Split(key, '-')| >= 2 && AllDigits(Split(key, '-')[0]) && AllDigits(Split(key, '-')[1])
  {
    var parts := Split(key, '-');
    if |parts| < 2 then None
    else match (Number(parts[0]), Number(parts[1]))
      case (Some(y), Some(m)) => Some((y, m))
      case _ => None
  }

  /** Splitting at a separator placed between two strings splits each side apart. */
  lemma {:induction false} SplitAppend(a: string, t: string, sep: char)
    ensures Split(a + [sep] + t, sep) == Split(a, sep) + Split(t, sep)
    decreases |a|
  {
    if a == [] {
      assert a + [sep] + t == [sep] + t;
      assert ([sep] + t)[1..] == t;
    } else {
      assert (a + [sep] + t)[0] == a[0];
      assert (a + [sep] + t)[1..] == a[1..] + [sep] + t;
      SplitAppend(a[1..], t, sep);
    }
  }

  /** Destructuring takes the first two pieces: text after a second dash is ignored. */
  lemma ParseKeyIgnoresRest(key: string, t: string)
    requires |Split(key, '-')| >= 2
    ensures ParseKey(key + "-" + t) == ParseKey(key)
  {
    SplitAppend(key, t, '-');
    assert key + "-" + t == key + ['-'] + t;
    var parts := Split(key, '-');
    assert Split(key + "-" + t, '-')[0] == parts[0] && Split(key + "-" + t, '-')[1] == parts[1];
  }

  lemma SplitAroundDash(y: string, m: string)
    requires '-' !in y && '-' !in m
    ensures Split(y + "-" + m, '-') == [y, m]
  {
    SplitNoSeparator(m, [], '-');
    assert m + [] == m;
    assert Split([], '-') == [""];
    assert Split(m, '-') == [m];
    assert Split("-" + m, '-') == [""] + [m];
    assert y + "-" + m == y + ("-" + m);
    SplitNoSeparator(y, "-" + m, '-');
    assert y + "" == y;
  }

  lemma {:induction false} DecimalRoundTrip(n: nat)
    ensures DigitsValue(Decimal(n)) == n
    decreases n
  {
    if n >= 10 {
      var s := Decimal(n);
      assert s[..|s| - 1] == Decimal(n / 10);
      DecimalRoundTrip(n / 10);
    }
  }

  lemma {:induction false} SplitNoSeparator(a: string, t: string, sep: char)
    requires sep !in a
    ensures Split(a + t, sep) == [a + Split(t, sep)[0]] + Split(t, sep)[1..]
    decreases |a|
  {
    if a == [] {
      assert a + t == t;
      assert a + Split(t, sep)[0] == Split(t, sep)[0];
      assert Split(t, sep) == [Split(t, sep)[0]] + Split(t, sep)[1..];
    } else {
      assert (a + t)[1..] == a[1..] + t;
      SplitNoSeparator(a[1..], t, sep);
      assert [a[0]] + (a[1..] + Split(t, sep)[0]) == a + Split(t, sep)[0];
    }
  }

  lemma NoDashInDecimal(n: nat)
    ensures '-' !in Decimal(n)
  {
  }

  /** Reading a key back gives the (year, month) it was formatted from. */
  lemma ParseFormatRoundTrip(year: nat, month: nat)
    ensures ParseKey(FormatKey(year, month)) == Some((year, month))
  {
    DecimalRoundTrip(year);
    DecimalRoundTrip(month);
  }

  /** Two months share a key only if they are the same month. */
  lemma FormatKeyInjective(y1: nat, m1: nat, y2: nat, m2: nat)
    ensures FormatKey(y1, m1) == FormatKey(y2, m2) <==> y1 == y2 && m1 == m2
  {
    if FormatKey(y1, m1) == FormatKey(y2, m2) {
      ParseFormatRoundTrip(y1, m1);
      ParseFormatRoundTrip(y2, m2);
    }
  }
}
