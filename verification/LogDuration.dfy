/** Printed durations can be read: they say the duration rounded to milliseconds. */
module LogDuration {
  import opened Text
  import opened LogRecord
  import Timestamp

  function Added(ms: nat, more: Option<nat>): Option<nat> {
    match more
    case None => None
    case Some(n) => Some(ms + n)
  }

  function NumberOf(s: string): nat {
    if All(IsDigit, s) then DecimalValue(s) else 0
  }

  /** The milliseconds of a text such as `1h2m3.5s` or `250ms`. */
  function ReadMs(s: string): Option<nat> {
    var n := Span(IsDigit, s);
    if s == "" then Some(0)
    else if n == 0 || n == |s| then None
    else
      var v, unit := NumberOf(s[..n]), s[n..];
      if unit == "ms" then Some(v)
      else if unit[0] == 'h' then Added(v * 3600000, ReadMs(unit[1..]))
      else if unit[0] == 'm' then Added(v * 60000, ReadMs(unit[1..]))
      else if unit[0] == 's' then Added(v * 1000, ReadMs(unit[1..]))
      else if unit[0] == '.' then Added(v * 1000, ReadFraction(unit[1..]))
      else None
  }

  /** One to three digits of a second, and its unit. */
  function ReadFraction(s: string): Option<nat> {
    var n := Span(IsDigit, s);
    if 1 <= n <= 3 && s[n..] == "s" then Some(NumberOf(s[..n] + Timestamp.ZeroDigits(3 - n))) else None
  }

  /** A number and what follows it. */
  lemma ReadNumber(n: nat, unit: string)
    requires unit != "" && !IsDigit(unit[0])
    ensures var s := Decimal(n) + unit;
            Span(IsDigit, s) == |Decimal(n)| && 0 < |Decimal(n)| < |s| && NumberOf(s[..|Decimal(n)|]) == n && s[|Decimal(n)|..] == unit
  {
    SpanOfPrefix(IsDigit, Decimal(n), unit);
    DecimalRoundTrip(n);
    hide Decimal, DecimalValue, Span;
  }

  lemma ReadUnit(n: nat, unit: char, rest: string, scale: nat)
    requires (unit == 'h' && scale == 3600000) || (unit == 'm' && scale == 60000 && rest != "s") || (unit == 's' && scale == 1000)
    ensures ReadMs(Decimal(n) + ([unit] + rest)) == Added(n * scale, ReadMs(rest))
  {
    ReadNumber(n, [unit] + rest);
    hide Decimal, Span, NumberOf;
    assert ([unit] + rest)[1..] == rest;
  }

  lemma ReadWhole(n: nat)
    ensures ReadMs(Decimal(n) + "s") == Some(n * 1000)
  {
    ReadUnit(n, 's', "", 1000);
    assert ['s'] + "" == "s";
  }

  lemma ReadMillis(n: nat)
    ensures ReadMs(Decimal(n) + "ms") == Some(n)
  {
    ReadNumber(n, "ms");
    hide Decimal, Span, NumberOf;
  }

  lemma {:induction false} TrimmedZeros(s: string)
    ensures |TrimZeros(s)| <= |s| && s == TrimZeros(s) + Timestamp.ZeroDigits(|s| - |TrimZeros(s)|)
  {
    if s != "" && s[|s| - 1] == '0' {
      TrimmedZeros(s[..|s| - 1]);
    } else {
      assert s + "" == s;
    }
  }

  lemma {:induction false} ZerosValue(n: nat)
    ensures All(IsDigit, Timestamp.ZeroDigits(n)) && DecimalValue(Timestamp.ZeroDigits(n)) == 0
  {
    if n > 0 {
      ZerosValue(n - 1);
      assert Timestamp.ZeroDigits(n)[..n - 1] == Timestamp.ZeroDigits(n - 1);
    }
  }

  lemma FractionDigits(frac: nat)
    requires frac < 1000
    ensures var p := Timestamp.Padded(frac, 3); |p| == 3 && All(IsDigit, p) && DecimalValue(p) == frac
  {
    hide DecimalValue;
    Timestamp.Powers();
    Timestamp.PaddedIsFixed(frac, 3);
    Timestamp.FixedDigits(frac, 3);
  }

  lemma TrimmedDigits(p: string, frac: nat)
    requires |p| == 3 && All(IsDigit, p) && DecimalValue(p) == frac > 0
    ensures var t := TrimZeros(p);
            1 <= |t| <= 3 && All(IsDigit, t) && NumberOf(t + Timestamp.ZeroDigits(3 - |t|)) == frac
  {
    hide DecimalValue, TrimZeros, Timestamp.ZeroDigits;
    TrimmedZeros(p);
    var t := TrimZeros(p);
    var zeros := Timestamp.ZeroDigits(3 - |t|);
    ZerosValue(3 - |t|);
    assert "" + zeros == zeros;
    assert forall i :: 0 <= i < |t| ==> t[i] == p[i];
  }

  lemma TrimmedFraction(frac: nat)
    requires 0 < frac < 1000
    ensures var t := TrimZeros(Timestamp.Padded(frac, 3));
            && 1 <= |t| <= 3 && All(IsDigit, t) && NumberOf(t + Timestamp.ZeroDigits(3 - |t|)) == frac
  {
    hide Timestamp.Padded, DecimalValue, TrimZeros, All, NumberOf, Timestamp.ZeroDigits;
    FractionDigits(frac);
    TrimmedDigits(Timestamp.Padded(frac, 3), frac);
  }

  lemma ReadFractional(n: nat, frac: nat)
    requires 0 < frac < 1000
    ensures ReadMs(Decimal(n) + ("." + TrimZeros(Timestamp.Padded(frac, 3)) + "s")) == Some(n * 1000 + frac)
  {
    var t := TrimZeros(Timestamp.Padded(frac, 3));
    TrimmedFraction(frac);
    SpanOfPrefix(IsDigit, t, "s");
    var unit := "." + t + "s";
    ReadNumber(n, unit);
    hide Decimal, Span, NumberOf, TrimZeros, Timestamp.Padded, Timestamp.ZeroDigits;
    assert unit[1..] == t + "s";
  }

  /** Seconds and milliseconds. */
  function SecondsText(secs: nat, frac: nat): string {
    Decimal(secs) + ((if frac == 0 then "" else "." + TrimZeros(Timestamp.Padded(frac, 3))) + "s")
  }

  lemma ReadSeconds(secs: nat, frac: nat)
    requires frac < 1000
    ensures ReadMs(SecondsText(secs, frac)) == Some(secs * 1000 + frac)
    ensures SecondsText(secs, frac) != "s"
  {
    hide ReadMs, Decimal, TrimZeros, Timestamp.Padded;
    if frac == 0 {
      assert "" + "s" == "s";
      ReadWhole(secs);
    } else {
      ReadFractional(secs, frac);
    }
    assert |SecondsText(secs, frac)| > 1;
  }

  lemma ReadClock(hours: nat, minutes: nat, secs: nat, frac: nat)
    requires frac < 1000
    ensures ReadMs((if hours > 0 then Decimal(hours) + "h" else "")
                   + ((if hours > 0 || minutes > 0 then Decimal(minutes) + "m" else "") + SecondsText(secs, frac)))
            == Some(hours * 3600000 + minutes * 60000 + (secs * 1000 + frac))
  {
    hide ReadMs, Decimal, SecondsText;
    ReadSeconds(secs, frac);
    var s := SecondsText(secs, frac);
    var m := (if hours > 0 || minutes > 0 then Decimal(minutes) + "m" else "") + s;
    if hours > 0 || minutes > 0 {
      assert m == Decimal(minutes) + (['m'] + s);
      ReadUnit(minutes, 'm', s, 60000);
    } else {
      assert "" + s == s;
    }
    assert ReadMs(m) == Some(minutes * 60000 + (secs * 1000 + frac));
    if hours > 0 {
      assert (Decimal(hours) + "h") + m == Decimal(hours) + (['h'] + m);
      ReadUnit(hours, 'h', m, 3600000);
    } else {
      assert "" + m == m;
    }
  }

  lemma Clock(ms: nat)
    ensures var total := ms / 1000;
            total / 3600 * 3600000 + total % 3600 / 60 * 60000 + (total % 60 * 1000 + ms % 1000) == ms
  {
    var total := ms / 1000;
    assert total == total / 3600 * 3600 + total % 3600;
    assert total % 3600 == total % 3600 / 60 * 60 + total % 3600 % 60;
    assert total % 3600 % 60 == total % 60;
  }

  function ClockText(ms: nat): string {
    var total := ms / 1000;
    var hours, minutes := total / 3600, total % 3600 / 60;
    (if hours > 0 then Decimal(hours) + "h" else "")
    + ((if hours > 0 || minutes > 0 then Decimal(minutes) + "m" else "") + SecondsText(total % 60, ms % 1000))
  }

  lemma FormatIs(nanos: nat)
    ensures var ms := (nanos / 1000 + 500) / 1000;
            FormatDuration(nanos) == if ms == 0 then "0s" else if ms < 1000 then Decimal(ms) + "ms" else ClockText(ms)
  {
    hide Decimal, TrimZeros, Timestamp.Padded;
  }

  lemma ReadClockText(ms: nat)
    ensures ReadMs(ClockText(ms)) == Some(ms)
  {
    hide ReadMs, Decimal, SecondsText;
    var total := ms / 1000;
    ReadClock(total / 3600, total % 3600 / 60, total % 60, ms % 1000);
    Clock(ms);
  }

  /** A printed duration says the number of milliseconds nearest to it, halves rounded up. */
  lemma DurationReads(nanos: nat)
    ensures ReadMs(FormatDuration(nanos)) == Some((nanos / 1000 + 500) / 1000)
  {
    FormatIs(nanos);
    hide ReadMs, Decimal, ClockText, FormatDuration;
    var ms := (nanos / 1000 + 500) / 1000;
    if ms == 0 {
      ReadWhole(0);
      ZeroText();
    } else if ms < 1000 {
      ReadMillis(ms);
    } else {
      ReadClockText(ms);
    }
  }

  lemma ZeroText()
    ensures Decimal(0) + "s" == "0s"
  {
  }
}
