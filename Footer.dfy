/** The footer's copyright line: once the document is loaded, the first
    occurrence of the placeholder year "2026" in the first footer
    paragraph is replaced by the current year written in decimal. */
module Footer {
  import opened Wrappers
  import opened Strings

  /** The year the markup was written with. */
  const PLACEHOLDER: string := "2026"

  predicate IsDigit(c: char) { '0' <= c <= '9' }

  predicate AllDigits(s: string)
  {
    forall i :: 0 <= i < |s| ==> IsDigit(s[i])
  }

  function DigitChar(d: nat): (c: char)
    requires d < 10
    ensures IsDigit(c) && c as int - '0' as int == d
  {
    ('0' as int + d) as char
  }

  /** The decimal numeral of a natural number, as number-to-string
      conversion writes it: digits only, and no leading zero except in
      "0" itself. */
  function NatString(n: nat): (s: string)
    ensures |s| > 0 && AllDigits(s)
    ensures s[0] == '0' ==> n == 0 && s == "0"
    decreases n
  {
    if n < 10 then [DigitChar(n)] else NatString(n / 10) + [DigitChar(n % 10)]
  }

  /** The value of a string of decimal digits, most significant first. */
  function DigitsValue(s: string): nat
    requires AllDigits(s)
  {
    if s == [] then 0
    else DigitsValue(s[..|s| - 1]) * 10 + (s[|s| - 1] as int - '0' as int)
  }

  /** Reading a numeral back gives the number it was written from. */
  lemma {:induction false} NatStringRoundTrip(n: nat)
    ensures DigitsValue(NatString(n)) == n
    decreases n
  {
    if n >= 10 {
      var s := NatString(n);
      var prefix := NatString(n / 10);
      assert s == prefix + [DigitChar(n % 10)];
      assert s[..|s| - 1] == prefix;
      NatStringRoundTrip(n / 10);
      assert DigitsValue(s) == (n / 10) * 10 + n % 10;
    }
  }

  /** Distinct numbers have distinct numerals. */
  lemma NatStringInjective(m: nat, n: nat)
    requires NatString(m) == NatString(n)
    ensures m == n
  {
    NatStringRoundTrip(m);
    NatStringRoundTrip(n);
  }

  /** A year as number-to-string conversion writes it: its numeral, with a
      leading minus sign before year zero. */
  function YearString(year: int): (s: string)
    ensures |s| > 0
    ensures year >= 0 ==> AllDigits(s)
    ensures year < 0 ==> s[0] == '-' && |s| > 1 && AllDigits(s[1..])
  {
    if year < 0 then "-" + NatString(-year) else NatString(year)
  }

  /** Reads a year back: an optional minus sign followed by at least one
      digit. */
  function ParseYear(s: string): (r: Option<int>)
    ensures r.Some? && r.value < 0 ==> |s| > 1 && s[0] == '-'
  {
    if |s| > 1 && s[0] == '-' && AllDigits(s[1..]) then Some(-(DigitsValue(s[1..]) as int))
    else if |s| > 0 && AllDigits(s) then Some(DigitsValue(s))
    else None
  }

  /** Writing a year and reading it back gives that year. */
  lemma {:induction false} YearStringRoundTrip(year: int)
    ensures ParseYear(YearString(year)) == Some(year)
  {
    if year < 0 {
      var s := YearString(year);
      assert s[1..] == NatString(-year);
      NatStringRoundTrip(-year);
    } else {
      NatStringRoundTrip(year);
      var s := NatString(year);
      assert s[0] != '-';
    }
  }

  /** The load handler: with no footer paragraph nothing happens;
      otherwise its markup has the first "2026" replaced by the year. */
  function UpdateFooter(footer: Option<string>, year: int): (r: Option<string>)
    ensures r.Some? <==> footer.Some?
  {
    match footer
    case None => None
    case Some(html) => Some(ReplaceFirst(html, PLACEHOLDER, YearString(year)))
  }

  /** Markup without the placeholder is left as it is. */
  lemma NoPlaceholderUnchanged(html: string, year: int)
    requires !Contains(html, PLACEHOLDER)
    ensures UpdateFooter(Some(html), year) == Some(html)
  {
  }

  /** With the placeholder present, the text before its first occurrence
      and everything after that occurrence are kept, the year stands in
      its place, and so the updated markup contains the year. */
  lemma {:induction false} PlaceholderReplaced(html: string, year: int, i: nat)
    requires FirstOccurrence(html, PLACEHOLDER, i)
    ensures UpdateFooter(Some(html), year) ==
              Some(html[..i] + YearString(year) + html[i + |PLACEHOLDER|..])
    ensures Contains(UpdateFooter(Some(html), year).value, YearString(year))
  {
    var y := YearString(year);
    var r := html[..i] + y + html[i + |PLACEHOLDER|..];
    assert ReplaceFirst(html, PLACEHOLDER, y) == r;
    assert r[i..i + |y|] == y;
    assert OccursAt(r, y, i);
  }

  /** In the year the markup was written the handler changes nothing. */
  lemma {:induction false} SameYearUnchanged(footer: Option<string>)
    ensures UpdateFooter(footer, 2026) == footer
  {
    assert YearString(2026) == PLACEHOLDER by {
      assert NatString(2026) == NatString(202) + ['6'];
      assert NatString(202) == NatString(20) + ['2'];
      assert NatString(20) == NatString(2) + ['0'];
    }
    if footer.Some? {
      var html := footer.value;
      var found := IndexOf(html, PLACEHOLDER);
      if found.Some? {
        var i := found.value;
        assert html[..i] + PLACEHOLDER + html[i + |PLACEHOLDER|..] == html by {
          assert html[i..i + |PLACEHOLDER|] == PLACEHOLDER;
          assert html == html[..i] + html[i..i + |PLACEHOLDER|] + html[i + |PLACEHOLDER|..];
        }
      }
    }
  }
}
