/**
 * The display helpers of the auction pages: status label and colour, money
 * formatting, and the "time ago" text of a bid.
 */
module AuctionUtils {

  import opened Wrappers
  import opened JsText

  /** `getStatusLabel`: "SOLD" for a closed auction, "LIVE" for any other status. */
  function StatusLabel(status: string): (r: string)
    ensures r == "SOLD" <==> status == "closed"
    ensures r != "SOLD" ==> r == "LIVE"
  {
    if status == "closed" then "SOLD" else "LIVE"
  }

  /** `getStatusColor`: gold for a closed auction, green for any other status. */
  function StatusColor(status: string): (r: string)
    ensures r == "#c8a951" <==> status == "closed"
    ensures r != "#c8a951" ==> r == "#27ae60"
  {
    if status == "closed" then "#c8a951" else "#27ae60"
  }

  /** Label and colour always describe the same state. */
  lemma LabelMatchesColor(status: string)
    ensures StatusLabel(status) == "SOLD" <==> StatusColor(status) == "#c8a951"
  {
  }

  /** `x.toFixed(2)` for `x` = `cents` / 100: optional sign, whole part, point, two digits. */
  function FixedTwo(cents: int): (r: string)
    ensures |r| >= 4 && r[|r| - 3] == '.'
    ensures r[0] == '-' <==> cents < 0
  {
    var a := if cents < 0 then -cents else cents;
    (if cents < 0 then "-" else "") + NatToString(a / 100) + "."
      + [DigitChar(a % 100 / 10), DigitChar(a % 10)]
  }

  /** Reads a `FixedTwo` text back as cents. */
  function FixedTwoValue(s: string): int
    requires |s| >= 4
    requires var body := if s[0] == '-' then s[1..] else s;
      |body| >= 4 && IsDigits(body[..|body| - 3]) && IsDigits(body[|body| - 2..])
  {
    var body := if s[0] == '-' then s[1..] else s;
    var v := DigitsValue(body[..|body| - 3]) * 100 + DigitsValue(body[|body| - 2..]);
    if s[0] == '-' then -v else v
  }

  /** Two digit characters read back as the two-digit number. */
  lemma TwoDigitsValue(d1: nat, d2: nat)
    requires d1 < 10 && d2 < 10
    ensures IsDigits([DigitChar(d1), DigitChar(d2)])
    ensures DigitsValue([DigitChar(d1), DigitChar(d2)]) == d1 * 10 + d2
  {
    var s := [DigitChar(d1), DigitChar(d2)];
    var first := [DigitChar(d1)];
    assert first[..0] == [];
    assert DigitsValue(first) == d1;
    assert s[..1] == first;
    assert DigitsValue(s) == DigitsValue(first) * 10 + (s[1] as int - '0' as int);
  }

  /** The text after the sign: the whole part, a point, then the two-digit fraction. */
  lemma FixedTwoParts(cents: int)
    ensures var a := if cents < 0 then -cents else cents;
      var r := FixedTwo(cents);
      var body := if r[0] == '-' then r[1..] else r;
      && |body| >= 4
      && body[..|body| - 3] == NatToString(a / 100)
      && body[|body| - 2..] == [DigitChar(a % 100 / 10), DigitChar(a % 10)]
  {
    var a := if cents < 0 then -cents else cents;
    var whole := NatToString(a / 100);
    var frac := [DigitChar(a % 100 / 10), DigitChar(a % 10)];
    var body := whole + "." + frac;
    var r := FixedTwo(cents);
    assert r == (if cents < 0 then "-" else "") + body;
    SplitAtPoint(whole, frac);
    if cents < 0 {
      assert r[1..] == body;
    } else {
      assert whole[0] != '-';
    }
  }

  /** The whole part and the fraction are recovered from either side of the point. */
  lemma SplitAtPoint(whole: string, frac: string)
    requires |frac| == 2
    ensures var body := whole + "." + frac;
      body[..|body| - 3] == whole && body[|body| - 2..] == frac
  {
    var body := whole + "." + frac;
    assert body[..|body| - 3] == whole;
    assert body[|body| - 2..] == frac;
  }

  /** Formatting loses nothing: the text reads back as the amount. */
  lemma FixedTwoRoundTrip(cents: int)
    ensures var r := FixedTwo(cents);
      var body := if r[0] == '-' then r[1..] else r;
      && |body| >= 4 && IsDigits(body[..|body| - 3]) && IsDigits(body[|body| - 2..])
      && FixedTwoValue(r) == cents
  {
    var a := if cents < 0 then -cents else cents;
    FixedTwoParts(cents);
    NatToStringRoundTrip(a / 100);
    TwoDigitsValue(a % 100 / 10, a % 10);
    assert a == a / 100 * 100 + (a % 100 / 10) * 10 + a % 10;
  }

  /** `formatCurrency`: a dash for a missing amount, otherwise a dollar sign and two decimals. */
  function FormatCurrency(amount: Option<int>): (r: string)
    ensures r == "—" <==> amount.None?
    ensures amount.Some? ==> r == "$" + FixedTwo(amount.value)
  {
    match amount
    case None => "—"
    case Some(cents) => "$" + FixedTwo(cents)
  }

  /** Distinct amounts are shown differently. */
  lemma FormatCurrencyInjective(x: Option<int>, y: Option<int>)
    requires FormatCurrency(x) == FormatCurrency(y)
    ensures x == y
  {
    if x.Some? && y.Some? {
      assert FixedTwo(x.value) == FormatCurrency(x)[1..];
      assert FixedTwo(y.value) == FormatCurrency(y)[1..];
      FixedTwoRoundTrip(x.value);
      FixedTwoRoundTrip(y.value);
    }
  }

  /**
   * `timeAgo`, given the elapsed milliseconds and the text the locale
   * formatter gives for the date. Each threshold is tried only once the ones
   * before it have failed, so the buckets are the ranges below, in
   * milliseconds; a negative elapsed time reads "just now".
   */
  function TimeAgo(elapsedMs: int, localeDate: string): (r: string)
    ensures elapsedMs < 60000 ==> r == "just now"
    ensures 60000 <= elapsedMs < 3600000 ==> r == NatToString(elapsedMs / 60000) + "m ago"
    ensures 3600000 <= elapsedMs < 86400000 ==> r == NatToString(elapsedMs / 3600000) + "h ago"
    ensures 86400000 <= elapsedMs < 604800000 ==> r == NatToString(elapsedMs / 86400000) + "d ago"
    ensures 604800000 <= elapsedMs ==> r == localeDate
  {
    FloorSteps(elapsedMs);
    var mins := elapsedMs / 60000;
    if mins < 1 then "just now"
    else if mins < 60 then NatToString(mins) + "m ago"
    else
      var hours := mins / 60;
      if hours < 24 then NatToString(hours) + "h ago"
      else
        var days := hours / 24;
        if days < 7 then NatToString(days) + "d ago"
        else localeDate
  }

  /** Flooring minutes to hours and hours to days agrees with flooring the milliseconds directly. */
  lemma FloorSteps(ms: int)
    ensures ms / 60000 / 60 == ms / 3600000
    ensures ms / 3600000 / 24 == ms / 86400000
  {
  }
}
