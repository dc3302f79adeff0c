/** The text form of intervals (interval.rs): what the printer writes, and what the parser makes of
    a text.  Bytes are characters here; only ASCII occurs. */
module IntervalText {
  import opened Decimals

  datatype Interval = Interval(months: int, days: int, micros: int)

  const I32_MIN := -0x8000_0000
  const I32_MAX := 0x7FFF_FFFF
  const I64_MIN := -0x8000_0000_0000_0000
  const I64_MAX := 0x7FFF_FFFF_FFFF_FFFF
  const MICROS_PER_SEC := 1_000_000
  const MICROS_PER_MSEC := 1_000
  const MICROS_PER_MINUTE := 60_000_000
  const MICROS_PER_HOUR := 3_600_000_000

  predicate InI32(x: int) { I32_MIN <= x <= I32_MAX }
  predicate InI64(x: int) { I64_MIN <= x <= I64_MAX }

  predicate Valid(iv: Interval) { InI32(iv.months) && InI32(iv.days) && InI64(iv.micros) }

  // ---------------------------------------------------------------- numbers

  function SignedNumber(v: int): (s: string)
    ensures |s| > 0
  {
    if v < 0 then "-" + Digits(-v) else Digits(v)
  }

  /** Zero-padded on the left to at least `k` digits. */
  function ZeroPad(n: nat, k: nat): (s: string)
    ensures forall i :: 0 <= i < |s| ==> IsDigit(s[i])
    ensures |s| >= k && |s| > 0
  {
    if |Digits(n)| >= k then Digits(n) else ['0'] + ZeroPad(n, k - 1)
  }

  function StripZeros(s: string): string {
    if s != "" && s[|s| - 1] == '0' then StripZeros(s[..|s| - 1]) else s
  }

  // ---------------------------------------------------------------- printing

  /** One part of a printed interval. */
  datatype Token = Unit(value: int, name: string) | Time(micros: int)

  function UnitText(v: int, name: string): string {
    SignedNumber(v) + " " + name + (if v != 1 && v != -1 then "s" else "")
  }

  function TimeText(micros: int): (s: string)
    ensures |s| > 0
  {
    if micros < 0 then "-" + ClockText(-micros) else ClockText(micros)
  }

  /** A time of day split as the printer splits it. */
  datatype Clock = Clock(hour: nat, min: nat, sec: nat, micros: nat)

  function ClockOf(micros: nat): (c: Clock)
    ensures c.min < 60 && c.sec < 60 && c.micros < MICROS_PER_SEC
    ensures c.hour * MICROS_PER_HOUR + c.min * MICROS_PER_MINUTE + c.sec * MICROS_PER_SEC + c.micros == micros
  {
    var hour := micros / MICROS_PER_HOUR;
    var m1 := micros - hour * MICROS_PER_HOUR;
    var min := m1 / MICROS_PER_MINUTE;
    var m2 := m1 - min * MICROS_PER_MINUTE;
    var sec := m2 / MICROS_PER_SEC;
    Clock(hour, min, sec, m2 - sec * MICROS_PER_SEC)
  }

  function ClockText(micros: nat): (s: string)
    ensures |s| > 0
  {
    var c := ClockOf(micros);
    Digits(c.hour) + (":" + (ZeroPad(c.min, 2) + (":" + (ZeroPad(c.sec, 2) + FractionText(c.micros)))))
  }

  function FractionText(micros: nat): string {
    if micros == 0 then "" else "." + StripZeros(ZeroPad(micros, 6))
  }

  function Text(t: Token): (s: string)
    ensures |s| > 0
  {
    match t
    case Unit(v, name) => UnitText(v, name)
    case Time(micros) => TimeText(micros)
  }

  /** Division that truncates toward zero. */
  function Quotient(a: int, b: nat): int
    requires b > 0
  {
    if a < 0 then -((-a) / b) else a / b
  }

  function UnitTokens(v: int, name: string): seq<Token> {
    if v == 0 then [] else [Unit(v, name)]
  }

  function Tokens(iv: Interval): seq<Token> {
    var years := Quotient(iv.months, 12);
    UnitTokens(years, "year") + UnitTokens(iv.months - years * 12, "month") + UnitTokens(iv.days, "day") +
    (if iv.micros == 0 then [] else [Time(iv.micros)])
  }

  function Join(ts: seq<Token>): string {
    if ts == [] then "" else Join(ts[..|ts| - 1]) + (if |ts| > 1 then " " else "") + Text(ts[|ts| - 1])
  }

  /** The printed interval. */
  function Print(iv: Interval): string {
    if Tokens(iv) == [] then "00:00:00" else Join(Tokens(iv))
  }

  // ---------------------------------------------------------------- parsing

  /** `Err` is the parser's error; `Overflow` an unchecked addition or product that leaves the i64
      range, whose effect depends on how the program was built. */
  datatype Outcome<+T> = Ok(value: T) | Err | Overflow {
    predicate IsFailure() { !Ok? }
    function PropagateFailure<U>(): Outcome<U>
      requires IsFailure()
    {
      if Err? then Outcome<U>.Err else Outcome<U>.Overflow
    }
    function Extract(): T
      requires !IsFailure()
    {
      value
    }
  }

  function InRange(x: int): Outcome<int> { if InI64(x) then Ok(x) else Overflow }

  /** The digit loop of the parsers: the value read and the remaining text. */
  function ScanNumber(s: string, acc: nat): (r: Outcome<(nat, string)>)
    ensures r.Ok? ==> |r.value.1| <= |s|
    ensures r.Ok? && s != "" && IsDigit(s[0]) ==> |r.value.1| < |s|
  {
    if s == "" || !IsDigit(s[0]) then Ok((acc, s))
    else if !InI64(acc * 10) then Err
    else if !InI64(acc * 10 + Value(s[0])) then Overflow
    else ScanNumber(s[1..], acc * 10 + Value(s[0]))
  }

  /** The digit loop behind a decimal point; digits beyond the sixth are dropped. */
  function ScanFraction(s: string, mult: nat, fraction: nat): (r: (nat, string))
    ensures |r.1| <= |s|
  {
    if s == "" || !IsDigit(s[0]) then (fraction, s)
    else ScanFraction(s[1..], mult / 10, if mult > 0 then fraction + Value(s[0]) * mult else fraction)
  }

  function OptFraction(s: string): (r: (nat, string))
    ensures |r.1| <= |s|
  {
    if s != "" && s[0] == '.' then ScanFraction(s[1..], 100000, 0) else (0, s)
  }

  /** The loop over minutes in `parse_number`; it starts at the colon behind the hours. */
  function TimeLoop(s: string, total: int, colons: nat): (r: Outcome<(int, string)>)
    ensures r.Ok? ==> |r.value.1| <= |s|
    decreases |s|
  {
    if colons >= 2 || s == "" then Ok((total, s)) else
      var (minute, rest) :- ScanNumber(s, 0);
      var total' :- InRange(total + minute * MICROS_PER_MINUTE);
      if rest != "" && rest[0] == ':' then TimeLoop(rest[1..], total', colons + 1) else Ok((total', rest))
  }

  function ParseTime(number: nat, s: string): (r: Outcome<(int, string)>)
    ensures r.Ok? ==> |r.value.1| <= |s|
  {
    var hours :- InRange(number * MICROS_PER_HOUR);
    var (total, rest) :- TimeLoop(s, hours, 0);
    if rest == "" then Ok((total, rest)) else
      var (seconds, rest') :- ScanNumber(rest, 0);
      var (micros, rest'') := OptFraction(rest');
      var total' :- InRange(total + seconds * MICROS_PER_SEC + micros);
      Ok((total', rest''))
  }

  datatype Number = Number(number: int, fraction: int, rest: string)

  function ParseNumber(s: string): (r: Outcome<Number>)
    ensures r.Ok? ==> |r.value.rest| <= |s|
    ensures r.Ok? && s != "" && IsDigit(s[0]) ==> |r.value.rest| < |s|
  {
    var (number, rest) :- ScanNumber(s, 0);
    var (fraction, rest') := OptFraction(rest);
    if rest' != "" && rest'[0] == ':' then
      var (total, rest'') :- ParseTime(number, rest');
      Ok(Number(total, 0, rest''))
    else if rest' == s then Err
    else Ok(Number(number, fraction, rest'))
  }

  predicate IsSpace(c: char) { c == ' ' || c == '\t' || c == '\n' }
  predicate IsAlpha(c: char) { 'a' <= c <= 'z' || 'A' <= c <= 'Z' }

  function SkipSpaces(s: string): (r: string)
    ensures |r| <= |s|
  {
    if s != "" && IsSpace(s[0]) then SkipSpaces(s[1..]) else s
  }

  function AlphaPrefix(s: string): (r: string)
    ensures |r| <= |s| && s[..|r|] == r
  {
    if s != "" && IsAlpha(s[0]) then [s[0]] + AlphaPrefix(s[1..]) else ""
  }

  function ToLower(c: char): char {
    if 'A' <= c <= 'Z' then (c as int + 32) as char else c
  }

  function Lower(s: string): string {
    seq(|s|, i requires 0 <= i < |s| => ToLower(s[i]))
  }

  /** Adds `number * scale` to an i32 or i64 field; an overflow leaves the field as it was. */
  function AddI32(field: int, number: int, scale: int): int {
    if InI64(number * scale) && InI32(number * scale) && InI32(field + number * scale) then field + number * scale else field
  }

  function AddI64(field: int, number: int, scale: int): int {
    if InI64(number * scale) && InI64(field + number * scale) then field + number * scale else field
  }

  datatype DatePart =
    | Millennium | Century | Decade | Year | Quarter | Month | Day | Week
    | Microseconds | Milliseconds | Second | Minute | Hour
  datatype Specifier = Known(part: DatePart) | Unknown

  /** `try_get_date_part_specifier`, on a name in lower case. */
  function SpecifierOf(name: string): Specifier {
    if name == "millennium" || name == "millennia" then Known(Millennium)
    else if name == "century" || name == "centuries" then Known(Century)
    else if name == "decade" || name == "decades" then Known(Decade)
    else if name == "year" || name == "years" || name == "y" then Known(Year)
    else if name == "quarter" || name == "quarters" then Known(Quarter)
    else if name == "month" || name == "months" || name == "mon" then Known(Month)
    else if name == "day" || name == "days" || name == "d" then Known(Day)
    else if name == "week" || name == "weeks" || name == "w" then Known(Week)
    else if name == "microsecond" || name == "microseconds" || name == "us" then Known(Microseconds)
    else if name == "millisecond" || name == "milliseconds" || name == "ms" then Known(Milliseconds)
    else if name == "second" || name == "seconds" || name == "s" then Known(Second)
    else if name == "minute" || name == "minutes" || name == "m" then Known(Minute)
    else if name == "hour" || name == "hours" || name == "h" then Known(Hour)
    else Unknown
  }

  function ApplyPart(iv: Interval, number: int, part: DatePart): Interval {
    match part
    case Millennium => iv.(months := AddI32(iv.months, number, 12000))
    case Century => iv.(months := AddI32(iv.months, number, 1200))
    case Decade => iv.(months := AddI32(iv.months, number, 120))
    case Year => iv.(months := AddI32(iv.months, number, 12))
    case Quarter => iv.(months := AddI32(iv.months, number, 3))
    case Month => iv.(months := AddI32(iv.months, number, 1))
    case Day => iv.(days := AddI32(iv.days, number, 1))
    case Week => iv.(days := AddI32(iv.days, number, 7))
    case Microseconds => iv.(micros := AddI64(iv.micros, number, 1))
    case Milliseconds => iv.(micros := AddI64(iv.micros, number, MICROS_PER_MSEC))
    case Second => iv.(micros := AddI64(iv.micros, number, MICROS_PER_SEC))
    case Minute => iv.(micros := AddI64(iv.micros, number, MICROS_PER_MINUTE))
    case Hour => iv.(micros := AddI64(iv.micros, number, MICROS_PER_HOUR))
  }

  /** `apply_specifier`, whose error the caller ignores: the interval after the call. */
  function ApplySpecifier(iv: Interval, number: int, fraction: int, specifier: string): Interval {
    if specifier == "" then
      if !InI64(iv.micros + number) then iv
      else if !InI64(iv.micros + number + fraction) then iv.(micros := iv.micros + number)
      else iv.(micros := iv.micros + number + fraction)
    else
      match SpecifierOf(Lower(specifier))
      case Known(part) => ApplyPart(iv, number, part)
      case Unknown => iv
  }

  /** One number with its specifier, `sign` being what stands before it. */
  function ParseItem(s: string, sign: int, iv: Interval): (r: Outcome<(Interval, string)>)
    ensures r.Ok? ==> |r.value.1| <= |s|
    ensures r.Ok? && s != "" && IsDigit(s[0]) ==> |r.value.1| < |s|
  {
    var n :- ParseNumber(s);
    var text := SkipSpaces(n.rest);
    var specifier := AlphaPrefix(text);
    Ok((ApplySpecifier(iv, sign * n.number, sign * n.fraction, specifier), text[|specifier|..]))
  }

  predicate AllSpaces(s: string) { forall i :: 0 <= i < |s| ==> IsSpace(s[i]) }

  /** The word "ago" and what may follow it. */
  function ParseAgo(s: string, iv: Interval): Outcome<Interval> {
    if |s| < 3 || (s[1] != 'g' && s[1] != 'G') || (s[2] != 'o' && s[2] != 'O') || !AllSpaces(s[3..]) then Err
    else if iv.months == I32_MIN || iv.days == I32_MIN || iv.micros == I64_MIN then Overflow
    else Ok(Interval(-iv.months, -iv.days, -iv.micros))
  }

  /** The main loop of `from_cstring`. */
  function ParseFrom(s: string, iv: Interval, found: bool): Outcome<Interval>
    decreases |s|
  {
    if s == "" then if found then Ok(iv) else Err
    else if IsSpace(s[0]) then ParseFrom(s[1..], iv, found)
    else if IsDigit(s[0]) then
      var (iv', rest) :- ParseItem(s, 1, iv);
      ParseFrom(rest, iv', true)
    else if s[0] == '-' then
      var (iv', rest) :- ParseItem(s[1..], -1, iv);
      ParseFrom(rest, iv', true)
    else if s[0] == 'a' || s[0] == 'A' then ParseAgo(s, iv)
    else Err
  }

  const ZERO := Interval(0, 0, 0)

  /** `from_string`. */
  function Parse(s: string): Outcome<Interval> {
    if s == "" then Err
    else if s[0] == '@' then ParseFrom(s[1..], ZERO, false)
    else if s[0] == 'P' || s[0] == 'p' then Err
    else ParseFrom(s, ZERO, false)
  }
}
