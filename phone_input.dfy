/** The browser's phone-number field formatter: the digits typed so far are
    laid out as `(ddd) ddd-dddd`, and anything with more than ten digits is
    left as typed. */
module PhoneInput {
  import opened Common

  /** `replace(/\D/g, '')`: the ASCII digits of `s`, in order. */
  function Digits(s: string): (d: string)
    ensures |d| <= |s|
    ensures forall i :: 0 <= i < |d| ==> IsDigit(d[i])
  {
    var d := Filter(s, IsDigit);
    assert forall i :: 0 <= i < |d| ==> d[i] in d;
    d
  }

  /** The three groups of `^(\d{0,3})(\d{0,3})(\d{0,4})$` for at most ten
      digits, joined as the three template parts join them: an empty group
      contributes nothing, except that a lone first group is closed with `)`. */
  function Layout(d: string): (r: string)
    requires |d| <= 10
  {
    var g1 := d[..Min(3, |d|)];
    var g2 := d[Min(3, |d|)..Min(6, |d|)];
    var g3 := d[Min(6, |d|)..];
    (if g1 != "" then "(" + g1 else "")
    + (if g2 != "" then ") " + g2 else if g1 != "" then ")" else "")
    + (if g3 != "" then "-" + g3 else "")
  }

  /** `formatPhoneNumber(input)` */
  function FormatPhoneNumber(input: string): (r: string)
    ensures |Digits(input)| > 10 ==> r == input
    ensures var d := Digits(input);
      && (|d| == 0 ==> r == "")
      && (1 <= |d| <= 3 ==> r == "(" + d + ")")
      && (4 <= |d| <= 6 ==> r == "(" + d[..3] + ") " + d[3..])
      && (7 <= |d| <= 10 ==> r == "(" + d[..3] + ") " + d[3..6] + "-" + d[6..])
  {
    var d := Digits(input);
    if |d| > 10 then input else Layout(d)
  }

  lemma DigitsOfDigits(d: string)
    requires AllDigits(d)
    ensures Filter(d, IsDigit) == d
  {
    FilterAll(d, IsDigit);
  }

  /** The punctuation the layout adds holds no digit. */
  lemma DigitsOfPunctuated(p: string, d: string)
    requires forall i :: 0 <= i < |p| ==> !IsDigit(p[i])
    requires AllDigits(d)
    ensures Filter(p + d, IsDigit) == d
  {
    FilterConcat(p, d, IsDigit);
    NoDigits(p);
    DigitsOfDigits(d);
  }

  lemma {:induction false} NoDigits(p: string)
    requires forall i :: 0 <= i < |p| ==> !IsDigit(p[i])
    ensures Filter(p, IsDigit) == []
    decreases |p|
  {
    if p != [] {
      NoDigits(p[1..]);
    }
  }

  predicate AllDigits(d: string)
  {
    forall i :: 0 <= i < |d| ==> IsDigit(d[i])
  }

  /** `"(" + a + ")"` keeps just the digits of `a`. */
  lemma DigitsOfShort(a: string)
    requires AllDigits(a)
    ensures Filter("(" + a + ")", IsDigit) == a
  {
    FilterConcat("(" + a, ")", IsDigit);
    DigitsOfPunctuated("(", a);
    NoDigits(")");
  }

  /** `"(" + a + ") " + b` keeps the digits `a + b`. */
  lemma DigitsOfMedium(a: string, b: string)
    requires AllDigits(a) && AllDigits(b)
    ensures Filter("(" + a + ") " + b, IsDigit) == a + b
  {
    assert "(" + a + ") " + b == ("(" + a) + (") " + b);
    FilterConcat("(" + a, ") " + b, IsDigit);
    DigitsOfPunctuated("(", a);
    DigitsOfPunctuated(") ", b);
  }

  /** `"(" + a + ") " + b + "-" + c` keeps the digits `a + b + c`. */
  lemma DigitsOfLong(a: string, b: string, c: string)
    requires AllDigits(a) && AllDigits(b) && AllDigits(c)
    ensures Filter("(" + a + ") " + b + "-" + c, IsDigit) == a + b + c
  {
    assert "(" + a + ") " + b + "-" + c == ("(" + a + ") " + b) + ("-" + c);
    FilterConcat("(" + a + ") " + b, "-" + c, IsDigit);
    DigitsOfMedium(a, b);
    DigitsOfPunctuated("-", c);
  }

  /** Stripping the formatting gives back the digits that were typed: the
      formatter never adds, drops or reorders a digit. */
  lemma FormatKeepsDigits(input: string)
    requires |Digits(input)| <= 10
    ensures Digits(FormatPhoneNumber(input)) == Digits(input)
  {
    var d := Digits(input);
    var r := FormatPhoneNumber(input);
    if |d| == 0 {
      assert r == [];
    } else if |d| <= 3 {
      DigitsOfShort(d);
    } else if |d| <= 6 {
      DigitsOfMedium(d[..3], d[3..]);
      assert d[..3] + d[3..] == d;
    } else {
      DigitsOfLong(d[..3], d[3..6], d[6..]);
      assert d[..3] + d[3..6] + d[6..] == d;
    }
  }

  /** Formatting what is already formatted changes nothing, so re-running the
      formatter on every keystroke is stable. */
  lemma FormatIdempotent(input: string)
    ensures FormatPhoneNumber(FormatPhoneNumber(input)) == FormatPhoneNumber(input)
  {
    if |Digits(input)| <= 10 {
      FormatKeepsDigits(input);
    }
  }
}
