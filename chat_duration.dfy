/**
 The human-readable length of a chat: a span in milliseconds broken into
 years, months (of 30 days), days, hours, minutes and seconds, of which the
 first two non-zero ones are shown, e.g. "2 months, 3 days".
 */
module ChatDuration {
  import opened Decimal

  // The unit lengths in seconds, written out so that the solver sees literal
  // divisors: a minute is 60, an hour 3600, a day 86400, a month (30 days)
  // 2592000 and a year (365 days) 31536000.

  datatype Duration = Duration(year: int, month: int, day: int, hour: int, minute: int, second: int)

  /** One `[unit, value]` pair of `Object.entries(duration)`. */
  datatype Part = Part(unit: string, value: int)

  /** JavaScript's `a % b` for a positive `b`: the remainder takes the sign of `a`. */
  function JsRem(a: int, b: int): (r: int)
    requires b > 0
    ensures a >= 0 ==> r == a % b
    ensures a < 0 ==> -b < r <= 0 && (a - r) % b == 0
  {
    if a >= 0 then a % b
    else
      var q := (-a) / b;
      assert -a == q * b + (-a) % b;
      ModUnique(a + (-a) % b, b, -q, 0);
      -((-a) % b)
  }

  /** The components as the source computes them from the whole seconds of the
      span (`Math.floor` is Dafny's division by a positive divisor). Days are
      counted from the seconds beyond whole 30-day months of the entire span, not
      from what remains after the years and months. A negative span, which the
      parser reports for a chat without messages, has no positive component. */
  function Breakdown(durationMs: int): (d: Duration)
    ensures durationMs >= 0 ==>
      0 <= d.year && 0 <= d.month <= 12 && 0 <= d.day < 30 && 0 <= d.hour < 24
      && 0 <= d.minute < 60 && 0 <= d.second < 60
    ensures durationMs >= 0 ==> d.year * 31536000 + d.month * 2592000 <= durationMs / 1000
    ensures durationMs >= 0 ==>
      durationMs / 1000 < (d.year + 1) * 31536000
      && durationMs / 1000 - d.year * 31536000 < (d.month + 1) * 2592000
    ensures durationMs >= 0 ==>
      ((d.day * 24 + d.hour) * 60 + d.minute) * 60 + d.second == (durationMs / 1000) % 2592000
    ensures durationMs < 0 ==>
      d.year < 0 && d.month <= 0 && d.day <= 0 && d.hour <= 0 && d.minute <= 0 && d.second <= 0
  {
    var s := durationMs / 1000;
    NestedRemainders(s);
    Duration(
      s / 31536000,
      JsRem(s, 31536000) / 2592000,
      JsRem(s, 2592000) / 86400,
      JsRem(s, 86400) / 3600,
      JsRem(s, 3600) / 60,
      JsRem(s, 60))
  }

  /** A day divides a 30-day month, an hour a day, a minute an hour. */
  lemma NestedRemainders(s: int)
    ensures (s % 2592000) % 86400 == s % 86400
    ensures (s % 86400) % 3600 == s % 3600
    ensures (s % 3600) % 60 == s % 60
  {
    ModOfMultiple(s, 30, 86400);
    ModOfMultiple(s, 24, 3600);
    ModOfMultiple(s, 60, 60);
  }

  /** Taking the remainder by a multiple of `b` first does not change the remainder by `b`. */
  lemma ModOfMultiple(s: int, a: nat, b: nat)
    requires a > 0 && b > 0
    ensures (s % (a * b)) % b == s % b
  {
    var r := s % (a * b);
    var q := s / (a * b);
    assert s == q * (a * b) + r;
    assert r == (r / b) * b + r % b;
    assert s == (q * a + r / b) * b + r % b;
    ModUnique(s, b, q * a + r / b, r % b);
  }

  /** The remainder is the only `r` in `[0, b)` with `x == q * b + r`. */
  lemma ModUnique(x: int, b: int, q: int, r: int)
    requires b > 0 && 0 <= r < b && x == q * b + r
    ensures x % b == r
  {
    var k := q - x / b;
    assert x == (x / b) * b + x % b;
    assert k * b == x % b - r;
  }

  /** `Object.entries(duration)`, in the order the record declares its fields. */
  function Entries(d: Duration): seq<Part>
  {
    [Part("year", d.year), Part("month", d.month), Part("day", d.day),
     Part("hour", d.hour), Part("minute", d.minute), Part("second", d.second)]
  }

  /** `.filter(([_, value]) => value > 0)` */
  function Positive(es: seq<Part>): (r: seq<Part>)
    ensures |r| <= |es|
    ensures forall k :: 0 <= k < |r| ==> r[k].value > 0
  {
    if es == [] then []
    else (if es[0].value > 0 then [es[0]] else []) + Positive(es[1..])
  }

  /** `.filter(...).slice(0, 2)`: at most two parts, all positive. */
  function Significant(es: seq<Part>): (r: seq<Part>)
    ensures |r| <= 2
    ensures forall k :: 0 <= k < |r| ==> r[k].value > 0
  {
    var p := Positive(es);
    if |p| <= 2 then p else p[..2]
  }

  /** `${value} ${unit}`, with an "s" unless the value is 1; only parts the
      filter kept, which are positive, are rendered. */
  function FormatPart(p: Part): string
    requires p.value >= 0
  {
    ShowNat(p.value) + " " + p.unit + (if p.value != 1 then "s" else "")
  }

  /** `.join(sep)` */
  function Join(parts: seq<string>, sep: string): string
  {
    if |parts| == 0 then ""
    else if |parts| == 1 then parts[0]
    else parts[0] + sep + Join(parts[1..], sep)
  }

  /** `calculateChatDuration` as written: "0 seconds" exactly for spans under a
      second (see also `ZeroSecondsIffUnderASecond` for the other spans). */
  function CalculateChatDuration(durationMs: int): (r: string)
    ensures r == "0 seconds" <==> durationMs < 1000
  {
    if durationMs == 0 then "0 seconds"
    else
      BreakdownZeroIffUnderASecond(durationMs);
      FormatZeroIffNonePositive(Breakdown(durationMs));
      FormatDuration(Breakdown(durationMs))
  }

  /** The part of `calculateChatDuration` that follows the breakdown. */
  function FormatDuration(d: Duration): string
  {
    var parts := Significant(Entries(d));
    if |parts| == 0 then "0 seconds"
    else Join(seq(|parts|, i requires 0 <= i < |parts| => FormatPart(parts[i])), ", ")
  }

  /** The filter is empty exactly when every part is zero. */
  lemma {:induction false} PositiveEmptyIff(es: seq<Part>)
    ensures Positive(es) == [] <==> forall j :: 0 <= j < |es| ==> es[j].value <= 0
  {
    if es != [] {
      PositiveEmptyIff(es[1..]);
      if es[0].value <= 0 && Positive(es[1..]) == [] {
        forall j | 0 <= j < |es| ensures es[j].value <= 0 {
          if j > 0 { assert es[j] == es[1..][j - 1]; }
        }
      }
    }
  }

  /** A non-empty filter starts with the first non-zero part, at the returned index. */
  lemma {:induction false} FirstPositive(es: seq<Part>) returns (i: nat)
    requires Positive(es) != []
    ensures i < |es| && es[i].value > 0 && Positive(es) == [es[i]] + Positive(es[i + 1..])
    ensures forall j :: 0 <= j < i ==> es[j].value <= 0
  {
    if es[0].value > 0 {
      i := 0;
    } else {
      assert Positive(es) == Positive(es[1..]);
      var i' := FirstPositive(es[1..]);
      i := i' + 1;
      assert es[1..][i' + 1..] == es[i + 1..];
      assert es[i] == es[1..][i'];
      forall j | 0 < j < i ensures es[j].value <= 0 {
        assert es[j] == es[1..][j - 1];
      }
    }
  }

  lemma {:induction false} AllZeroFilteredOut(es: seq<Part>)
    requires forall j :: 0 <= j < |es| ==> es[j].value <= 0
    ensures Positive(es) == []
  {
    if es != [] {
      AllZeroFilteredOut(es[1..]);
    }
  }

  /** A single kept part is the only non-zero part. */
  lemma PositiveOne(es: seq<Part>)
    requires |Positive(es)| == 1
    ensures exists i :: (0 <= i < |es| && Positive(es)[0] == es[i]
                         && forall j :: 0 <= j < |es| && j != i ==> es[j].value <= 0)
  {
    var i := FirstPositive(es);
    var rest := es[i + 1..];
    PositiveEmptyIff(rest);
    forall j | 0 <= j < |es| && j != i ensures es[j].value <= 0 {
      if j > i { assert es[j] == rest[j - i - 1]; }
    }
  }

  /** The first two kept parts are the first two non-zero parts. */
  lemma PositiveTwo(es: seq<Part>)
    requires |Positive(es)| >= 2
    ensures exists i, k :: (0 <= i < k < |es| && Positive(es)[0] == es[i] && Positive(es)[1] == es[k]
                            && forall j :: 0 <= j < k && j != i ==> es[j].value <= 0)
  {
    var i := FirstPositive(es);
    var k := SecondAfter(es, i);
    assert Positive(es)[1] == es[k] by {
      assert Positive(es)[1] == Positive(es[i + 1..])[0];
    }
    assert 0 <= i < k < |es| && Positive(es)[0] == es[i] && Positive(es)[1] == es[k]
      && forall j :: 0 <= j < k && j != i ==> es[j].value <= 0;
  }

  /** Past the non-zero part at `i`, the next non-zero part is at the returned
      index and heads the filter of what follows `i`. */
  lemma SecondAfter(es: seq<Part>, i: nat) returns (k: nat)
    requires i < |es| && Positive(es[i + 1..]) != []
    ensures i < k < |es| && Positive(es[i + 1..])[0] == es[k]
    ensures forall j :: i < j < k ==> es[j].value <= 0
  {
    var rest := es[i + 1..];
    var i' := FirstPositive(rest);
    k := i + 1 + i';
    forall j | i < j < k ensures es[j].value <= 0 {
      assert es[j] == rest[j - i - 1];
    }
  }

  /** The parts shown are the first two positive parts, in order: none when
      none is positive, one when exactly one is. */
  lemma SignificantAreFirstNonZero(es: seq<Part>)
    ensures Significant(es) == [] <==> forall j :: 0 <= j < |es| ==> es[j].value <= 0
    ensures |Significant(es)| == 1 ==> exists i :: (0 <= i < |es| && Significant(es)[0] == es[i]
                                                   && forall j :: 0 <= j < |es| && j != i ==> es[j].value <= 0)
    ensures |Significant(es)| == 2 ==> exists i, k :: (0 <= i < k < |es|
                                                      && Significant(es)[0] == es[i] && Significant(es)[1] == es[k]
                                                      && forall j :: 0 <= j < k && j != i ==> es[j].value <= 0)
  {
    var p := Positive(es);
    PositiveEmptyIff(es);
    if |p| == 1 {
      PositiveOne(es);
    } else if |p| >= 2 {
      PositiveTwo(es);
      assert Significant(es)[0] == p[0] && Significant(es)[1] == p[1];
    }
  }

  /** No component is positive exactly when the span is under a second,
      negative spans included. */
  lemma BreakdownZeroIffUnderASecond(durationMs: int)
    ensures (forall j :: 0 <= j < 6 ==> Entries(Breakdown(durationMs))[j].value <= 0)
      <==> durationMs < 1000
  {
    var d := Breakdown(durationMs);
    var s := durationMs / 1000;
    if durationMs >= 0 && d.year <= 0 && d.month <= 0 && d.day <= 0 && d.hour <= 0 && d.minute <= 0 && d.second <= 0 {
      assert s < 31536000;
      assert s % 31536000 == s;
      assert s < 2592000;
    }
    var es := Entries(d);
    if forall j :: 0 <= j < 6 ==> es[j].value <= 0 {
      assert es[0].value <= 0 && es[1].value <= 0 && es[2].value <= 0;
      assert es[3].value <= 0 && es[4].value <= 0 && es[5].value <= 0;
    }
  }

  /** The formatted text is "0 seconds" exactly when no component is positive. */
  lemma FormatZeroIffNonePositive(d: Duration)
    ensures FormatDuration(d) == "0 seconds" <==> forall j :: 0 <= j < 6 ==> Entries(d)[j].value <= 0
  {
    var es := Entries(d);
    SignificantAreFirstNonZero(es);
    if Significant(es) != [] {
      ShowsLeadingParts(Significant(es));
    }
  }

  lemma {:induction false} JoinStartsWithFirst(parts: seq<string>, sep: string)
    requires |parts| > 0
    ensures |parts[0]| <= |Join(parts, sep)| && Join(parts, sep)[..|parts[0]|] == parts[0]
  {
    if |parts| > 1 {
      var j := Join(parts, sep);
      assert j == parts[0] + (sep + Join(parts[1..], sep));
    }
  }

  /** The result is "0 seconds" exactly when the span is under a second
      (including a span of 0 and every negative span); otherwise it shows the
      first positive component, then the second if there is one. */
  lemma ZeroSecondsIffUnderASecond(durationMs: int)
    ensures CalculateChatDuration(durationMs) == "0 seconds" <==> durationMs < 1000
    ensures durationMs >= 1000 ==>
      var ps := Significant(Entries(Breakdown(durationMs)));
      1 <= |ps| <= 2 && CalculateChatDuration(durationMs) ==
        FormatPart(ps[0]) + (if |ps| == 2 then ", " + FormatPart(ps[1]) else "")
  {
    var es := Entries(Breakdown(durationMs));
    BreakdownZeroIffUnderASecond(durationMs);
    SignificantAreFirstNonZero(es);
    if durationMs >= 1000 {
      ShowsLeadingParts(Significant(es));
    }
  }

  /** One or two non-zero parts are shown joined by ", ", and the text then
      starts with a non-zero digit. */
  lemma ShowsLeadingParts(parts: seq<Part>)
    requires 1 <= |parts| <= 2 && forall k :: 0 <= k < |parts| ==> parts[k].value > 0
    ensures var t := Join(seq(|parts|, i requires 0 <= i < |parts| => FormatPart(parts[i])), ", ");
      t == FormatPart(parts[0]) + (if |parts| == 2 then ", " + FormatPart(parts[1]) else "")
      && t != "0 seconds"
  {
    var strs := seq(|parts|, i requires 0 <= i < |parts| => FormatPart(parts[i]));
    if |parts| == 2 {
      assert strs[1..] == [FormatPart(parts[1])];
    }
    JoinStartsWithFirst(strs, ", ");
    var lead := ShowNat(parts[0].value);
    assert strs[0][..|lead|] == lead;
    assert Join(strs, ", ")[0] == lead[0] != '0';
    assert "0 seconds"[0] == '0';
  }

  /** A rendered part starts with the value in decimal, which reads back as the
      value, followed by a space and the unit; for a unit not already ending in
      "s", the text ends in "s" exactly when the value is not 1. */
  lemma FormatPartReadsBack(p: Part)
    requires p.value >= 0 && p.unit != [] && p.unit[|p.unit| - 1] != 's'
    ensures var t := FormatPart(p); var n := |ShowNat(p.value)|;
      n < |t| && IsDecimal(t[..n]) && ParseDecimal(t[..n]) == p.value && t[n] == ' '
      && t[n + 1..] == p.unit + (if p.value != 1 then "s" else "")
      && (t[|t| - 1] == 's' <==> p.value != 1)
  {
    var t := FormatPart(p);
    var digits := ShowNat(p.value);
    assert t[..|digits|] == digits;
    ParseShow(p.value);
  }

  /** Exactly 365 days is shown as "1 year, 5 days": the days are the 5 days
      by which 365 exceeds twelve 30-day months, although nothing remains after
      the year. */
  lemma OneYearShowsFiveExtraDays()
    ensures Breakdown(31536000 * 1000) == Duration(1, 0, 5, 0, 0, 0)
    ensures CalculateChatDuration(31536000 * 1000) == "1 year, 5 days"
  {
    assert 31536000 * 1000 / 1000 == 31536000;
    assert 31536000 % 2592000 == 432000 && 432000 / 86400 == 5;
    assert 31536000 % 86400 == 0 && 31536000 % 3600 == 0 && 31536000 % 60 == 0;
    FormatsYearAndDays();
  }

  lemma FormatsYearAndDays()
    ensures FormatDuration(Duration(1, 0, 5, 0, 0, 0)) == "1 year, 5 days"
  {
    KeepsYearAndDays();
    ShowsTwo(Significant(Entries(Duration(1, 0, 5, 0, 0, 0))));
  }

  lemma KeepsYearAndDays()
    ensures Significant(Entries(Duration(1, 0, 5, 0, 0, 0))) == [Part("year", 1), Part("day", 5)]
  {
    var es := Entries(Duration(1, 0, 5, 0, 0, 0));
    AllZeroFilteredOut(es[3..]);
    assert Positive(es[2..]) == [es[2]] + Positive(es[3..]);
    assert Positive(es[1..]) == Positive(es[2..]);
  }

  /** Two parts with values 1 and 5 are shown as "1 <unit>, 5 <unit>s". */
  lemma ShowsTwo(parts: seq<Part>)
    requires |parts| == 2 && parts[0].value == 1 && parts[1].value == 5
    ensures Join(seq(|parts|, i requires 0 <= i < |parts| => FormatPart(parts[i])), ", ")
      == "1 " + parts[0].unit + ", 5 " + parts[1].unit + "s"
  {
    assert ShowNat(1) == "1" && ShowNat(5) == "5";
    var strs := seq(|parts|, i requires 0 <= i < |parts| => FormatPart(parts[i]));
    assert strs[1..] == [FormatPart(parts[1])];
  }

  /** The breakdown the source evidently intends: each component is taken from
      what remains after the larger ones. */
  function IntendedBreakdown(durationMs: nat): (d: Duration)
    ensures d.month <= 12 && d.day < 30 && d.hour < 24 && d.minute < 60 && d.second < 60
    ensures d.year * 31536000 + d.month * 2592000 + d.day * 86400
      + d.hour * 3600 + d.minute * 60 + d.second == durationMs / 1000
    ensures 0 <= d.year && 0 <= d.month && 0 <= d.day && 0 <= d.hour && 0 <= d.minute && 0 <= d.second
    ensures durationMs / 1000 < (d.year + 1) * 31536000
  {
    var s := durationMs / 1000;
    var r := (s % 31536000) % 2592000;
    IntendedSplit(s);
    Duration(
      s / 31536000,
      (s % 31536000) / 2592000,
      r / 86400,
      (r % 86400) / 3600,
      (r % 3600) / 60,
      r % 60)
  }

  lemma IntendedSplit(s: nat)
    ensures var r := (s % 31536000) % 2592000;
      s == (s / 31536000) * 31536000 + ((s % 31536000) / 2592000) * 2592000
        + (r / 86400) * 86400 + ((r % 86400) / 3600) * 3600
        + ((r % 3600) / 60) * 60 + r % 60
  {
    var r := (s % 31536000) % 2592000;
    NestedRemainders(r);
  }

  /** `calculateChatDuration` with the intended breakdown. */
  function IntendedChatDuration(durationMs: nat): string
  {
    if durationMs == 0 then "0 seconds"
    else FormatDuration(IntendedBreakdown(durationMs))
  }

  /** Below a year the two breakdowns agree. */
  lemma IntendedAgreesBelowAYear(durationMs: nat)
    requires durationMs / 1000 < 31536000
    ensures IntendedBreakdown(durationMs) == Breakdown(durationMs)
  {
    var s := durationMs / 1000;
    MonthRemainders(s);
  }

  lemma MonthRemainders(s: nat)
    ensures (s % 2592000) % 86400 == s % 86400
    ensures (s % 2592000) % 3600 == s % 3600
    ensures (s % 2592000) % 60 == s % 60
  {
    ModOfMultiple(s, 30, 86400);
    ModOfMultiple(s, 720, 3600);
    ModOfMultiple(s, 43200, 60);
  }

  /** With the intended breakdown, exactly 365 days is shown as "1 year". */
  lemma IntendedOneYear()
    ensures IntendedBreakdown(31536000 * 1000) == Duration(1, 0, 0, 0, 0, 0)
    ensures IntendedChatDuration(31536000 * 1000) == "1 year"
  {
    assert 31536000 * 1000 / 1000 == 31536000;
    assert 31536000 % 31536000 == 0;
    FormatsYear();
  }

  lemma FormatsYear()
    ensures FormatDuration(Duration(1, 0, 0, 0, 0, 0)) == "1 year"
  {
    KeepsYear();
    ShowsOne(Significant(Entries(Duration(1, 0, 0, 0, 0, 0))));
  }

  lemma KeepsYear()
    ensures Significant(Entries(Duration(1, 0, 0, 0, 0, 0))) == [Part("year", 1)]
  {
    var es := Entries(Duration(1, 0, 0, 0, 0, 0));
    AllZeroFilteredOut(es[1..]);
  }

  /** A single part with value 1 is shown as "1 <unit>". */
  lemma ShowsOne(parts: seq<Part>)
    requires |parts| == 1 && parts[0].value == 1
    ensures Join(seq(|parts|, i requires 0 <= i < |parts| => FormatPart(parts[i])), ", ")
      == "1 " + parts[0].unit
  {
    assert ShowNat(1) == "1";
  }
}
