/**
 * The decision of check_alert (src/notifier.py): read the history file, look at its last
 * row only, and send one alert mail when that row's mentions_growth is strictly above
 * 1.5. The mail itself goes through send_email, which is not part of this model: the
 * decision carries the mail that would be handed to it.
 */
module Notifier {
  import opened HistoryTable
  import opened HistoryFile
  import opened Optional

  /** The trigger level 1.5, in hundredths. */
  const Threshold: int := 150

  datatype Mail = Mail(subject: string, body: string)

  /**
   * What one check does. NoFile and TooFewRows are the two early returns, Raised is the
   * uncaught exception of reading a zero-byte or unreadable file, Normal is the
   * "within range" log line, Alert is the one mail sent.
   */
  datatype Check = NoFile | TooFewRows | Raised | Normal(growth: int) | Alert(mail: Mail)

  // ---------------------------------------------------------------------------
  // Text of the alert.

  function Digit(d: nat): char
    requires d < 10
  {
    "0123456789"[d]
  }

  /** Decimal digits of a natural number, without leading zeros. */
  function NatText(n: nat): (s: string)
    ensures 0 < |s| && AllDigits(s)
  {
    if n < 10 then [Digit(n)] else NatText(n / 10) + [Digit(n % 10)]
  }

  /**
   * How Python prints a float that holds a value rounded to two decimals: the integer
   * part, a point, then the fraction without trailing zeros but with at least one digit
   * (150 hundredths prints as 1.5, 200 as 2.0, 152 as 1.52).
   */
  function ShowHundredths(h: int): (s: string)
    ensures ReadHundredths(s) == Some(h)
  {
    var n: nat := if h < 0 then -h else h;
    var u := ShowUnsigned(n);
    UnsignedRoundTrip(n);
    assert '0' <= u[0] <= '9' by {
      assert u[0] == NatText(n / 100)[0];
    }
    if h < 0 then
      var s := "-" + u;
      assert s[0] == '-' && s[1..] == u;
      s
    else
      u
  }

  function ShowUnsigned(n: nat): string
  {
    NatText(n / 100) + "." + FractionText(n % 100)
  }

  /** The alert's subject line. */
  function Subject(ticker: string): (subject: string)
    ensures Occurs(ticker, subject)
  {
    OccursBetween("🚨 股票预警：", ticker, " 社交热度异常！");
    "🚨 股票预警：" + ticker + " 社交热度异常！"
  }

  /** The alert's body: three lines giving the ticker, the price and the growth. */
  function Body(ticker: string, priceText: string, growthText: string): (body: string)
    ensures Occurs(ticker, body) && Occurs(priceText, body) && Occurs(growthText, body)
  {
    var a, b, c := "股票代码: ", "\n当前价格: $", "\n热度增长: ";
    var body := a + ticker + b + priceText + c + growthText + "x";
    assert body == a + ticker + (b + priceText + c + growthText + "x");
    OccursBetween(a, ticker, b + priceText + c + growthText + "x");
    assert body == (a + ticker + b) + priceText + (c + growthText + "x");
    OccursBetween(a + ticker + b, priceText, c + growthText + "x");
    assert body == (a + ticker + b + priceText + c) + growthText + "x";
    OccursBetween(a + ticker + b + priceText + c, growthText, "x");
    body
  }

  // ---------------------------------------------------------------------------
  // The decision.

  /**
   * One run of check_alert on what is on disk. The printed form of the price (a float in
   * the source) is supplied by `showPrice`.
   */
  function CheckAlert(file: FileContent, showPrice: real -> string): (c: Check)
    ensures c == NoFile <==> file == Missing
    ensures c == Raised <==> file == Empty || file == Corrupt
    ensures c == TooFewRows <==> file == Csv([])
    ensures c.Alert? <==>
      file.Csv? && 0 < |file.rows| && file.rows[|file.rows| - 1].mentionsGrowth > Threshold
    ensures c.Normal? ==>
      file.Csv? && 0 < |file.rows| && c.growth == file.rows[|file.rows| - 1].mentionsGrowth &&
      c.growth <= Threshold
  {
    match file
    case Missing => NoFile
    case Empty => Raised
    case Corrupt => Raised
    case Csv(rows) =>
      if |rows| < 1 then TooFewRows
      else
        var last := rows[|rows| - 1];
        if last.mentionsGrowth > Threshold then
          Alert(Mail(Subject(last.ticker),
                     Body(last.ticker, showPrice(last.price), ShowHundredths(last.mentionsGrowth))))
        else
          Normal(last.mentionsGrowth)
  }

  /** The mails one check hands to send_email. */
  function MailsSent(file: FileContent, showPrice: real -> string): (sent: seq<Mail>)
    ensures |sent| <= 1
    ensures |sent| == 1 <==> file.Csv? && 0 < |file.rows| && file.rows[|file.rows| - 1].mentionsGrowth > Threshold
  {
    match CheckAlert(file, showPrice)
    case Alert(m) => [m]
    case _ => []
  }

  // ---------------------------------------------------------------------------
  // Properties of the decision.

  /** No history file: nothing is sent. */
  lemma MissingFileNoAlert(showPrice: real -> string)
    ensures CheckAlert(Missing, showPrice) == NoFile
    ensures MailsSent(Missing, showPrice) == []
  {
  }

  /** A table with no rows: nothing is sent. */
  lemma EmptyTableNoAlert(showPrice: real -> string)
    ensures CheckAlert(Csv([]), showPrice) == TooFewRows
    ensures MailsSent(Csv([]), showPrice) == []
  {
  }

  /** Rows before the last one never change the decision. */
  lemma OnlyLastRowMatters(earlier: seq<Row>, others: seq<Row>, last: Row, showPrice: real -> string)
    ensures CheckAlert(Csv(earlier + [last]), showPrice) == CheckAlert(Csv(others + [last]), showPrice)
  {
    assert (earlier + [last])[|earlier + [last]| - 1] == last;
    assert (others + [last])[|others + [last]| - 1] == last;
  }

  /**
   * On a non-empty table the alert fires if and only if the last row's growth is strictly
   * above the threshold; otherwise the check reports that growth as normal.
   */
  lemma AlertIffAboveThreshold(rows: seq<Row>, showPrice: real -> string)
    requires 0 < |rows|
    ensures CheckAlert(Csv(rows), showPrice).Alert? <==> rows[|rows| - 1].mentionsGrowth > Threshold
    ensures !CheckAlert(Csv(rows), showPrice).Alert? ==>
      CheckAlert(Csv(rows), showPrice) == Normal(rows[|rows| - 1].mentionsGrowth)
  {
  }

  /** Exactly 1.5 does not fire; 1.51 does. */
  lemma BoundaryExcluded(row: Row, showPrice: real -> string)
    ensures row.mentionsGrowth == 150 ==> CheckAlert(Csv([row]), showPrice) == Normal(150)
    ensures row.mentionsGrowth == 151 ==> CheckAlert(Csv([row]), showPrice).Alert?
  {
  }

  /** The alert's subject names the ticker; its body names the ticker, the price and the growth. */
  lemma AlertMailContents(rows: seq<Row>, showPrice: real -> string)
    requires CheckAlert(Csv(rows), showPrice).Alert?
    ensures var last := rows[|rows| - 1];
            var m := CheckAlert(Csv(rows), showPrice).mail;
            Occurs(last.ticker, m.subject) &&
            Occurs(last.ticker, m.body) &&
            Occurs(showPrice(last.price), m.body) &&
            Occurs(ShowHundredths(last.mentionsGrowth), m.body)
  {
  }

  /** `part` appears somewhere in `whole` as a contiguous piece. */
  ghost predicate Occurs(part: string, whole: string)
  {
    exists k: nat :: k + |part| <= |whole| && Window(whole, k, |part|) == part
  }

  /** The `n` characters of `whole` from index `k` on. */
  function Window(whole: string, k: nat, n: nat): string
  {
    if k + n <= |whole| then whole[k..k + n] else []
  }

  lemma OccursBetween(before: string, part: string, after: string)
    ensures Occurs(part, before + part + after)
  {
    var whole := before + part + after;
    assert Window(whole, |before|, |part|) == part;
  }

  // ---------------------------------------------------------------------------
  // The growth printed in the mail reads back as the stored value.

  predicate AllDigits(s: string)
  {
    forall i :: 0 <= i < |s| ==> '0' <= s[i] <= '9'
  }

  function DigitsValue(s: string): nat
    requires AllDigits(s)
  {
    if s == [] then 0 else DigitsValue(s[..|s| - 1]) * 10 + (s[|s| - 1] as int - '0' as int)
  }

  /**
   * Reads a number written as an optional minus, digits, a point and one or two digits,
   * in hundredths: the inverse of ShowHundredths.
   */
  function ReadHundredths(s: string): Option<int>
  {
    if 0 < |s| && s[0] == '-' then
      match ReadUnsigned(s[1..])
      case Some(n) => Some(-(n as int))
      case None => None
    else
      match ReadUnsigned(s)
      case Some(n) => Some(n)
      case None => None
  }

  function ReadUnsigned(t: string): Option<nat>
  {
    var k := PointIndex(t);
    if k < |t| then
      var whole, fraction := t[..k], t[k + 1..];
      if 0 < |whole| && 0 < |fraction| <= 2 && AllDigits(whole) && AllDigits(fraction) then
        var frac := if |fraction| == 1 then DigitsValue(fraction) * 10 else DigitsValue(fraction);
        Some(DigitsValue(whole) * 100 + frac)
      else
        None
    else
      None
  }

  /** Index of the first '.', or the length when there is none. */
  function PointIndex(s: string): (k: nat)
    ensures k <= |s|
    ensures forall i :: 0 <= i < k ==> s[i] != '.'
    ensures k < |s| ==> s[k] == '.'
  {
    if s == [] then 0 else if s[0] == '.' then 0 else 1 + PointIndex(s[1..])
  }

  lemma {:induction false} NatTextRoundTrip(n: nat)
    ensures DigitsValue(NatText(n)) == n
  {
    if n >= 10 {
      NatTextRoundTrip(n / 10);
      var s := NatText(n);
      assert s[..|s| - 1] == NatText(n / 10);
    }
  }

  function FractionText(frac: nat): string
    requires frac < 100
  {
    if frac % 10 == 0 then [Digit(frac / 10)] else [Digit(frac / 10), Digit(frac % 10)]
  }

  lemma FractionValue(frac: nat)
    requires frac < 100
    ensures AllDigits(FractionText(frac)) && 0 < |FractionText(frac)| <= 2
    ensures (if |FractionText(frac)| == 1 then DigitsValue(FractionText(frac)) * 10
             else DigitsValue(FractionText(frac))) == frac
  {
    var f := FractionText(frac);
    if frac % 10 == 0 {
      assert DigitsValue(f) == DigitsValue(f[..0]) * 10 + frac / 10;
    } else {
      assert f[..1] == [Digit(frac / 10)];
      assert DigitsValue(f[..1]) == DigitsValue(f[..0]) * 10 + frac / 10;
    }
  }

  lemma UnsignedRoundTrip(n: nat)
    ensures ReadUnsigned(ShowUnsigned(n)) == Some(n)
  {
    var w := NatText(n / 100);
    var f := FractionText(n % 100);
    var t := w + "." + f;
    assert ShowUnsigned(n) == t;
    assert t[|w|] == '.';
    assert PointIndex(t) == |w|;
    assert t[..|w|] == w;
    assert t[|w| + 1..] == f;
    NatTextRoundTrip(n / 100);
    FractionValue(n % 100);
  }
}
