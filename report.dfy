/**
 * The result file `save_results` writes: a fixed header, then one line
 * "rank<TAB>ticker<TAB>price" per match, the price written as Python's
 * `f"{x:.2f}"` does (nearest hundredth, ties to even). Reading a line back
 * recovers the rank, the ticker and the price to the hundredth.
 */
module Report {
  import opened Wrappers
  import opened Text

  /** A screening match: its rank, the ticker and the reference price (Open of the first bar). */
  datatype Match = Match(rank: nat, ticker: string, open: real)

  /** The first line of the file. */
  const Header: string := "Num\tTicker\tOpen16hDay-1\n"

  // ---------------------------------------------------------------------
  // Decimal numerals

  predicate IsDigit(c: char) {
    '0' <= c <= '9'
  }

  function DigitChar(d: nat): (c: char)
    requires d < 10
    ensures IsDigit(c)
  {
    ('0' as int + d) as char
  }

  function DigitValue(c: char): (d: nat)
    requires IsDigit(c)
    ensures d < 10 && DigitChar(d) == c
  {
    (c as int - '0' as int) as nat
  }

  /** `str(n)`: the decimal numeral of `n`, with no leading zero. */
  function NatToString(n: nat): (s: string)
    ensures s != [] && forall i :: 0 <= i < |s| ==> IsDigit(s[i])
    ensures s[0] == '0' ==> n == 0 && s == "0"
  {
    if n < 10 then [DigitChar(n)] else NatToString(n / 10) + [DigitChar(n % 10)]
  }

  /** The value of a string of digits (0 for the empty string). */
  function DigitsValue(s: string): nat
    requires forall i :: 0 <= i < |s| ==> IsDigit(s[i])
  {
    if s == [] then 0 else DigitsValue(s[..|s| - 1]) * 10 + DigitValue(s[|s| - 1])
  }

  /** Reading a numeral back gives the number. */
  lemma {:induction false} NatToStringValue(n: nat)
    ensures DigitsValue(NatToString(n)) == n
  {
    if n >= 10 {
      NatToStringValue(n / 10);
      var s := NatToString(n);
      assert s[..|s| - 1] == NatToString(n / 10);
    }
  }

  /** Two digits for a number of hundredths below 100. */
  function TwoDigits(c: nat): (s: string)
    requires c < 100
    ensures |s| == 2 && IsDigit(s[0]) && IsDigit(s[1])
  {
    [DigitChar(c / 10), DigitChar(c % 10)]
  }

  // ---------------------------------------------------------------------
  // Prices

  /**
   * The integer nearest to `x`, ties going to the even one: the rounding
   * Python's formatting applies to the exact value of a price.
   */
  function RoundHalfEven(x: real): (n: nat)
    requires x >= 0.0
    ensures x - 0.5 <= n as real <= x + 0.5
    ensures (n as real == x - 0.5 || n as real == x + 0.5) ==> n % 2 == 0
  {
    var f := x.Floor;
    var frac := x - f as real;
    if frac < 0.5 then f
    else if frac > 0.5 then f + 1
    else if f % 2 == 0 then f else f + 1
  }

  /** The number of hundredths `f"{p:.2f}"` writes for the magnitude of `p`. */
  function Hundredths(p: real): nat {
    RoundHalfEven(if p < 0.0 then -p * 100.0 else p * 100.0)
  }

  /** `h` hundredths written with two decimals: the whole part, a point and two digits. */
  function Decimals(h: nat): (s: string)
    ensures '\t' !in s && '\n' !in s && '-' !in s && s != []
  {
    var digits := NatToString(h / 100) + "." + TwoDigits(h % 100);
    assert forall i :: 0 <= i < |digits| ==> IsDigit(digits[i]) || digits[i] == '.';
    digits
  }

  /** `f"{p:.2f}"`: a minus sign for a negative price, then its rounded magnitude. */
  function FormatPrice(p: real): (s: string)
    ensures '\t' !in s && '\n' !in s
  {
    (if p < 0.0 then "-" else "") + Decimals(Hundredths(p))
  }

  /** Reads a price written as `FormatPrice` writes it. */
  function ParsePrice(s: string): Option<real> {
    var negative := s != [] && s[0] == '-';
    match ParseDecimals(if negative then s[1..] else s)
    case None => None
    case Some(h) => Some(if negative then -(h as real) / 100.0 else h as real / 100.0)
  }

  /** Reads the hundredths `Decimals` writes. */
  function ParseDecimals(s: string): Option<nat> {
    var parts := Split(s, '.');
    if |parts| != 2 || parts[0] == [] || |parts[1]| != 2 then None
    else if !(forall i :: 0 <= i < |parts[0]| ==> IsDigit(parts[0][i])) then None
    else if !(IsDigit(parts[1][0]) && IsDigit(parts[1][1])) then None
    else Some(DigitsValue(parts[0]) * 100 + DigitValue(parts[1][0]) * 10 + DigitValue(parts[1][1]))
  }

  /** Hundredths written with two decimals read back as themselves. */
  lemma DecimalsRoundTrip(h: nat)
    ensures ParseDecimals(Decimals(h)) == Some(h)
  {
    var whole, cents := NatToString(h / 100), TwoDigits(h % 100);
    assert '.' !in whole;
    assert '.' !in cents;
    SplitJoin([whole, cents], '.');
    assert Join([whole, cents], '.') == Decimals(h);
    var parts := Split(Decimals(h), '.');
    assert parts == [whole, cents];
    NatToStringValue(h / 100);
    assert DigitValue(cents[0]) == h % 100 / 10 && DigitValue(cents[1]) == h % 10;
  }

  /** The value a written price reads back as: the price rounded to the hundredth. */
  function Rounded(p: real): real {
    if p < 0.0 then -(Hundredths(p) as real) / 100.0 else Hundredths(p) as real / 100.0
  }

  /** Rounding to the hundredth moves a price by at most half a hundredth. */
  lemma RoundedIsNear(p: real)
    ensures -1.0 / 200.0 <= Rounded(p) - p <= 1.0 / 200.0
  {
  }

  /** A written price reads back as the price rounded to the nearest hundredth. */
  lemma PriceRoundTrip(p: real)
    ensures ParsePrice(FormatPrice(p)) == Some(Rounded(p))
  {
    var s := FormatPrice(p);
    DecimalsRoundTrip(Hundredths(p));
    if p < 0.0 {
      assert s[1..] == Decimals(Hundredths(p));
    } else {
      assert s == Decimals(Hundredths(p));
    }
  }

  /** A price given in whole hundredths is written and read back exactly. */
  lemma ExactHundredths(cents: int)
    ensures ParsePrice(FormatPrice(cents as real / 100.0)) == Some(cents as real / 100.0)
  {
    var p := cents as real / 100.0;
    PriceRoundTrip(p);
    assert (if p < 0.0 then -p * 100.0 else p * 100.0) == (if cents < 0 then -cents else cents) as real;
  }

  // ---------------------------------------------------------------------
  // Lines

  /** `f"{num}\t{ticker}\t{open_val:.2f}\n"`. */
  function FormatLine(m: Match): string {
    Join([NatToString(m.rank), m.ticker, FormatPrice(m.open)], '\t') + "\n"
  }

  /** Reads a line back into a rank, a ticker and a price. */
  function ParseLine(line: string): Option<Match> {
    if line == [] || line[|line| - 1] != '\n' then None
    else
      var fields := Split(line[..|line| - 1], '\t');
      if |fields| != 3 || fields[0] == [] || !(forall i :: 0 <= i < |fields[0]| ==> IsDigit(fields[0][i])) then None
      else match ParsePrice(fields[2])
        case None => None
        case Some(price) => Some(Match(DigitsValue(fields[0]), fields[1], price))
  }

  /**
   * A line reads back as its match, the price rounded to the hundredth,
   * when the ticker holds no tab and no line break.
   */
  lemma LineRoundTrip(m: Match)
    requires '\t' !in m.ticker && '\n' !in m.ticker
    ensures ParseLine(FormatLine(m)) == Some(Match(m.rank, m.ticker, Rounded(m.open)))
  {
    var fields := [NatToString(m.rank), m.ticker, FormatPrice(m.open)];
    var line := FormatLine(m);
    assert line[..|line| - 1] == Join(fields, '\t');
    assert '\t' !in fields[0];
    SplitJoin(fields, '\t');
    NatToStringValue(m.rank);
    PriceRoundTrip(m.open);
  }

  /** No line is the header: a line starts with a digit. */
  lemma LineIsNotHeader(m: Match)
    ensures FormatLine(m) != Header
  {
    var fields := [NatToString(m.rank), m.ticker, FormatPrice(m.open)];
    JoinStartsWithFirst(fields, '\t');
    assert FormatLine(m)[0] == NatToString(m.rank)[0];
  }

  /** The file's lines: the header, then one line per match in the order given. */
  function Render(matches: seq<Match>): (lines: seq<string>)
    ensures |lines| == |matches| + 1
  {
    if matches == [] then [Header]
    else Render(matches[..|matches| - 1]) + [FormatLine(matches[|matches| - 1])]
  }

  /** The first line is the header and line k + 1 is the line of match k. */
  lemma {:induction false} RenderLines(matches: seq<Match>)
    ensures Render(matches)[0] == Header
    ensures forall k :: 0 <= k < |matches| ==> Render(matches)[k + 1] == FormatLine(matches[k])
  {
    if matches != [] {
      var init := matches[..|matches| - 1];
      RenderLines(init);
      var r := Render(matches);
      assert r == Render(init) + [FormatLine(matches[|matches| - 1])];
      forall k | 0 <= k < |matches|
        ensures r[k + 1] == FormatLine(matches[k])
      {
        if k < |init| {
          assert init[k] == matches[k];
        }
      }
    }
  }
}
