/** The printer and the parser as the program runs them (interval.rs): a byte buffer filled through a
    running length, and loops that advance a position. */
module IntervalCode {
  import opened Decimals
  import opened IntervalText
  import opened IntervalRoundTrip

  // ---------------------------------------------------------------- printer

  /** The output buffer with its running length; `text` is what has been written. */
  class Cursor {
    const buffer: array<char>
    var length: nat
    ghost var text: string

    ghost predicate Valid()
      reads this, buffer
    {
      length <= buffer.Length && buffer[..length] == text
    }

    constructor (size: nat)
      ensures Valid() && fresh(buffer) && buffer.Length == size && text == ""
    {
      buffer := new char[size](_ => '\0');
      length, text := 0, "";
    }

    method Put(s: string)
      requires Valid() && length + |s| <= buffer.Length
      modifies this, buffer
      ensures Valid() && text == old(text) + s
    {
      for i := 0 to |s|
        invariant length == old(length) && text == old(text) && buffer[..length + i] == text + s[..i]
      {
        buffer[length + i] := s[i];
      }
      length, text := length + |s|, text + s;
    }

    /** Takes back trailing zeros. */
    method Strip()
      requires Valid()
      modifies this
      ensures Valid() && text == StripZeros(old(text))
    {
      while length > 0 && buffer[length - 1] == '0'
        invariant Valid() && StripZeros(text) == StripZeros(old(text))
      {
        assert text[..length - 1] == buffer[..length - 1];
        length, text := length - 1, text[..length - 1];
      }
    }
  }

  lemma SignedLength(v: int, k: nat)
    requires k > 0 && 0 - Pow10(k) < v < Pow10(k)
    ensures |SignedNumber(v)| <= k + (if v < 0 then 1 else 0)
  {
    DigitsLength(if v < 0 then -v else v, k);
  }

  lemma RegroupUnit(a: string, sep: string, n: string, name: string, s: string)
    ensures a + sep + n + (" " + name) + s == a + sep + (n + " " + name + s)
    ensures s == "" ==> a + sep + n + (" " + name) == a + sep + (n + " " + name + s)
    ensures sep == "" ==> a + sep == a
  {
  }

  /** `format_interval_value`. */
  method FormatIntervalValue(out: Cursor, value: int, name: string)
    requires out.Valid() && (value != 0 ==> out.length + 1 + |UnitText(value, name)| <= out.buffer.Length)
    modifies out, out.buffer
    ensures out.Valid()
    ensures out.text == if value == 0 then old(out.text) else old(out.text) + (if old(out.text) != "" then " " else "") + UnitText(value, name)
  {
    if value == 0 {
      return;
    }
    ghost var a, sep := out.text, if out.length != 0 then " " else "";
    if out.length != 0 {
      out.Put(" ");
    }
    RegroupUnit(a, sep, SignedNumber(value), name, if value != 1 && value != -1 then "s" else "");
    out.Put(SignedNumber(value));
    out.Put(" " + name);
    if value != 1 && value != -1 {
      out.Put("s");
    }
  }

  lemma {:induction false} StripBehind(a: string, z: string)
    requires exists i :: 0 <= i < |z| && z[i] != '0'
    ensures StripZeros(a + z) == a + StripZeros(z)
    decreases |z|
  {
    if z[|z| - 1] == '0' {
      var t := z[..|z| - 1];
      assert (a + z)[..|a + z| - 1] == a + t;
      var i :| 0 <= i < |z| && z[i] != '0';
      assert t[i] == z[i];
      StripBehind(a, t);
    }
  }

  lemma {:induction false} NonZeroDigit(s: string)
    requires AllDigits(s) && Decimal(s) > 0
    ensures exists i :: 0 <= i < |s| && s[i] != '0'
  {
    if s[0] == '0' {
      NonZeroDigit(s[1..]);
      var i :| 0 <= i < |s| - 1 && s[1..][i] != '0';
      assert s[i + 1] != '0';
    }
  }

  /** `format_micros`: six digits, then trailing zeros are taken back. */
  method FormatMicros(out: Cursor, micros: nat)
    requires out.Valid() && 0 < micros < MICROS_PER_SEC && out.length + 6 <= out.buffer.Length
    modifies out, out.buffer
    ensures out.Valid() && out.text == old(out.text) + StripZeros(ZeroPad(micros, 6))
  {
    DigitsLength(micros, 6);
    PaddedLength(micros, 6);
    DecimalOfPadded(micros, 6);
    NonZeroDigit(ZeroPad(micros, 6));
    StripBehind(out.text, ZeroPad(micros, 6));
    out.Put(ZeroPad(micros, 6));
    out.Strip();
  }

  lemma RegroupClock(a: string, h: string, m: string, s: string, f: string)
    ensures a + h + ":" + m + ":" + s + f == a + (h + (":" + (m + (":" + (s + f)))))
  {
  }

  method PutClock(out: Cursor, h: string, m: string, s: string, ghost f: string)
    requires out.Valid() && out.length + |h| + |m| + |s| + 2 <= out.buffer.Length
    modifies out, out.buffer
    ensures out.Valid() && out.text + f == old(out.text) + (h + (":" + (m + (":" + (s + f)))))
    ensures |out.text| == |old(out.text)| + |h| + |m| + |s| + 2
  {
    RegroupClock(out.text, h, m, s, f);
    out.Put(h);
    out.Put(":");
    out.Put(m);
    out.Put(":");
    out.Put(s);
  }

  method FormatFraction(out: Cursor, micros: nat)
    requires out.Valid() && micros < MICROS_PER_SEC && out.length + 7 <= out.buffer.Length
    modifies out, out.buffer
    ensures out.Valid() && out.text == old(out.text) + FractionText(micros)
  {
    if micros != 0 {
      Assoc(out.text, ".", StripZeros(ZeroPad(micros, 6)));
      out.Put(".");
      FormatMicros(out, micros);
    }
  }

  lemma ClockLengths(c: Clock)
    requires c.hour <= I64_MAX / MICROS_PER_HOUR && c.min < 60 && c.sec < 60
    ensures |Digits(c.hour)| <= 10 && |ZeroPad(c.min, 2)| == 2 && |ZeroPad(c.sec, 2)| == 2
  {
    assert Pow10(2) == 100 && Pow10(10) == 10_000_000_000;
    DigitsLength(c.hour, 10);
    DigitsLength(c.min, 2);
    DigitsLength(c.sec, 2);
    PaddedLength(c.min, 2);
    PaddedLength(c.sec, 2);
  }

  method SplitClock(value: nat) returns (c: Clock)
    ensures c == ClockOf(value)
  {
    var micros := value;
    var hour := micros / MICROS_PER_HOUR;
    micros := micros - hour * MICROS_PER_HOUR;
    var min := micros / MICROS_PER_MINUTE;
    micros := micros - min * MICROS_PER_MINUTE;
    var sec := micros / MICROS_PER_SEC;
    micros := micros - sec * MICROS_PER_SEC;
    c := Clock(hour, min, sec, micros);
  }

  method FormatClock(out: Cursor, micros: nat)
    requires InI64(micros) && out.Valid() && out.length + 23 <= out.buffer.Length
    modifies out, out.buffer
    ensures out.Valid() && out.text == old(out.text) + ClockText(micros)
  {
    var c := SplitClock(micros);
    ClockLengths(c);
    PutClock(out, Digits(c.hour), ZeroPad(c.min, 2), ZeroPad(c.sec, 2), FractionText(c.micros));
    FormatFraction(out, c.micros);
  }

  /** The clock part of `format`. */
  method FormatTime(out: Cursor, value: int)
    requires value != 0 && InI64(value) && InI64(-value)
    requires out.Valid() && out.length + 24 <= out.buffer.Length
    modifies out, out.buffer
    ensures out.Valid() && out.text == old(out.text) + TimeText(value)
  {
    ghost var before := out.text;
    var micros := if value < 0 then -value else value;
    if value < 0 {
      out.Put("-");
    }
    FormatClock(out, micros);
    SignedClock(before, value);
  }

  lemma SignedClock(before: string, value: int)
    ensures value < 0 ==> before + "-" + ClockText(-value) == before + TimeText(value)
    ensures value >= 0 ==> before + ClockText(value) == before + TimeText(value)
  {
    if value < 0 { Assoc(before, "-", ClockText(-value)); }
  }

  lemma Assoc(a: string, b: string, c: string)
    ensures a + b + c == a + (b + c)
  {
  }

  lemma UnitLengths(iv: Interval)
    requires Valid(iv)
    ensures var years := Quotient(iv.months, 12);
      && |UnitText(years, "year")| <= 16
      && |UnitText(iv.months - years * 12, "month")| <= 10
      && |UnitText(iv.days, "day")| <= 16
  {
    var years := Quotient(iv.months, 12);
    assert Pow10(2) == 100 && Pow10(9) == 1_000_000_000 && Pow10(10) == 10_000_000_000;
    SignedLength(years, 9);
    SignedLength(iv.months - years * 12, 2);
    SignedLength(iv.days, 10);
  }

  lemma JoinLast(ts: seq<Token>, t: Token)
    ensures Join(ts + [t]) == Join(ts) + (if Join(ts) != "" then " " else "") + Text(t)
  {
    assert (ts + [t])[..|ts|] == ts;
  }

  /** Writing one unit appends its token. */
  method FormatUnit(out: Cursor, value: int, name: string, ghost ts: seq<Token>)
    requires out.Valid() && out.text == Join(ts) && (value != 0 ==> out.length + 1 + |UnitText(value, name)| <= out.buffer.Length)
    modifies out, out.buffer
    ensures out.Valid() && out.text == Join(ts + UnitTokens(value, name))
    ensures out.length <= old(out.length) + (if value == 0 then 0 else (if old(out.length) == 0 then 0 else 1) + |UnitText(value, name)|)
  {
    JoinLast(ts, Unit(value, name));
    assert ts + [] == ts;
    FormatIntervalValue(out, value, name);
  }

  /** Writing two units, whose texts have at most `i` and `j` bytes. */
  method FormatPair(out: Cursor, a: int, b: int, one: string, two: string, ghost i: nat, ghost j: nat)
    requires out.Valid() && out.text == "" && |UnitText(a, one)| <= i && |UnitText(b, two)| <= j
    requires i + j + 2 <= out.buffer.Length
    modifies out, out.buffer
    ensures out.Valid() && out.length <= i + j + 1 && out.text == Join(UnitTokens(a, one) + UnitTokens(b, two))
  {
    FormatUnit(out, a, one, []);
    assert [] + UnitTokens(a, one) == UnitTokens(a, one);
    FormatUnit(out, b, two, UnitTokens(a, one));
  }

  method FormatMonths(out: Cursor, iv: Interval)
    requires Valid(iv) && out.Valid() && out.text == "" && out.buffer.Length >= 45
    modifies out, out.buffer
    ensures out.Valid() && out.length <= 27 && out.text == Join(MonthTokens(iv.months))
  {
    UnitLengths(iv);
    if iv.months != 0 {
      var years := Quotient(iv.months, 12);
      FormatPair(out, years, iv.months - years * 12, "year", "month", 16, 10);
    }
  }

  /** The unit parts of `format`. */
  method FormatUnits(out: Cursor, iv: Interval)
    requires Valid(iv) && out.Valid() && out.text == "" && out.buffer.Length >= 45
    modifies out, out.buffer
    ensures out.Valid() && out.length <= 44 && out.text == Join(Units(iv))
  {
    UnitLengths(iv);
    FormatMonths(out, iv);
    if iv.days != 0 {
      FormatUnit(out, iv.days, "day", MonthTokens(iv.months));
    } else {
      assert MonthTokens(iv.months) + [] == MonthTokens(iv.months);
    }
  }

  /** `format`: the 70-byte buffer of `Display` is never overrun -- 69 bytes would do -- and the bytes
      up to the final length are the printed interval. */
  method Format(iv: Interval, out: Cursor)
    requires Valid(iv) && iv.micros != I64_MIN
    requires out.Valid() && out.text == "" && out.buffer.Length >= 69
    modifies out, out.buffer
    ensures out.Valid() && out.text == Print(iv)
  {
    FormatUnits(out, iv);
    if iv.micros != 0 {
      JoinLast(Units(iv), Time(iv.micros));
      if out.length != 0 {
        out.Put(" ");
      }
      FormatTime(out, iv.micros);
    } else if out.length == 0 {
      out.Put("00:00:00");
    }
    TokensSplit(iv);
    NoUnits(iv);
  }

  lemma NoUnits(iv: Interval)
    ensures Join(Units(iv)) == "" <==> Units(iv) == []
  {
  }
}
