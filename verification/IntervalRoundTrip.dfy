/** Parsing a printed interval gives the interval back (interval.rs). */
module IntervalRoundTrip {
  import opened Decimals
  import opened IntervalText

  // ---------------------------------------------------------------- whole numbers

  /** Scanning printed digits leaves the number in the accumulator. */
  lemma ScanStep(c: char, rest: string, acc: nat)
    requires IsDigit(c) && InI64(acc * 10 + Value(c))
    ensures ScanNumber([c] + rest, acc) == ScanNumber(rest, acc * 10 + Value(c))
  {
    assert ([c] + rest)[1..] == rest;
  }

  lemma {:induction false} ScanDigits(n: nat, post: string)
    requires InI64(n)
    ensures ScanNumber(Digits(n) + post, 0) == ScanNumber(post, n)
  {
    var c := Digit(n % 10);
    ScanStep(c, post, n / 10);
    if n >= 10 {
      ScanDigits(n / 10, [c] + post);
      assert Digits(n) + post == Digits(n / 10) + ([c] + post);
    }
  }

  lemma {:induction false} ScanPadded(n: nat, k: nat, post: string)
    requires InI64(n)
    ensures ScanNumber(ZeroPad(n, k) + post, 0) == ScanNumber(post, n)
    decreases k
  {
    if |Digits(n)| >= k {
      ScanDigits(n, post);
    } else {
      ScanPadded(n, k - 1, post);
      assert ZeroPad(n, k) + post == ['0'] + (ZeroPad(n, k - 1) + post);
      ScanStep('0', ZeroPad(n, k - 1) + post, 0);
    }
  }

  // ---------------------------------------------------------------- fractions

  lemma LeadingZero(s: string)
    requires AllDigits(s)
    ensures AllDigits(['0'] + s) && Decimal(['0'] + s) == Decimal(s)
  {
    assert (['0'] + s)[1..] == s && Value('0') == 0;
  }

  lemma {:induction false} DecimalOfPadded(n: nat, k: nat)
    ensures Decimal(ZeroPad(n, k)) == n
    decreases k
  {
    if |Digits(n)| >= k {
      DecimalOfDigits(n);
    } else {
      DecimalOfPadded(n, k - 1);
      LeadingZero(ZeroPad(n, k - 1));
    }
  }

  lemma {:induction false} DigitsLength(n: nat, k: nat)
    requires k > 0 && n < Pow10(k)
    ensures |Digits(n)| <= k
    decreases k
  {
    if n >= 10 { DigitsLength(n / 10, k - 1); }
  }

  lemma {:induction false} PaddedLength(n: nat, k: nat)
    requires |Digits(n)| <= k
    ensures |ZeroPad(n, k)| == k
    decreases k
  {
    if |Digits(n)| < k { PaddedLength(n, k - 1); }
  }

  lemma {:induction false} ScanFractionValue(s: string, f: nat)
    requires AllDigits(s) && s != ""
    ensures ScanFraction(s, Pow10(|s| - 1), f) == (f + Decimal(s), "")
    decreases |s|
  {
    if |s| > 1 {
      ScanFractionValue(s[1..], f + Value(s[0]) * Pow10(|s| - 1));
    } else {
      assert s[1..] == "";
    }
  }

  lemma {:induction false} ScanFractionZero(s: string, mult: nat, f: nat)
    requires AllDigits(s)
    ensures ScanFraction(s + ['0'], mult, f) == ScanFraction(s, mult, f)
    decreases |s|
  {
    if s == "" {
      assert s + ['0'] == ['0'] && ['0'][1..] == "";
    } else {
      assert (s + ['0'])[1..] == s[1..] + ['0'];
      ScanFractionZero(s[1..], mult / 10, if mult > 0 then f + Value(s[0]) * mult else f);
    }
  }

  /** Stripping trailing zeros does not change a fraction. */
  lemma {:induction false} ScanFractionStripped(s: string, mult: nat, f: nat)
    requires AllDigits(s)
    ensures ScanFraction(StripZeros(s), mult, f) == ScanFraction(s, mult, f)
    decreases |s|
  {
    if s != "" && s[|s| - 1] == '0' {
      var t := s[..|s| - 1];
      assert s == t + ['0'];
      ScanFractionStripped(t, mult, f);
      ScanFractionZero(t, mult, f);
    }
  }

  lemma FractionBack(micros: nat)
    requires micros < MICROS_PER_SEC
    ensures OptFraction(FractionText(micros)) == (micros, "")
  {
    if micros > 0 {
      var s := ZeroPad(micros, 6);
      assert Pow10(5) == 100000;
      DigitsLength(micros, 6);
      PaddedLength(micros, 6);
      DecimalOfPadded(micros, 6);
      ScanFractionValue(s, 0);
      ScanFractionStripped(s, 100000, 0);
      assert FractionText(micros)[1..] == StripZeros(s);
    }
  }

  // ---------------------------------------------------------------- clock times

  lemma MinutesBack(mm: string, min: nat, tail: string, total: nat)
    requires mm != "" && ScanNumber(mm + (":" + tail), 0) == Ok((min, ":" + tail)) && InI64(total + min * MICROS_PER_MINUTE) && InI64(total)
    ensures TimeLoop(":" + (mm + (":" + tail)), total, 0) == Ok((total + min * MICROS_PER_MINUTE, tail))
  {
    var s2 := ":" + tail;
    var s1 := mm + s2;
    var s := ":" + s1;
    assert ScanNumber(s, 0) == Ok((0, s));
    assert s[1..] == s1 && s2[1..] == tail;
    assert TimeLoop(tail, total + min * MICROS_PER_MINUTE, 2) == Ok((total + min * MICROS_PER_MINUTE, tail));
    assert TimeLoop(s1, total, 1) == TimeLoop(tail, total + min * MICROS_PER_MINUTE, 2);
  }

  lemma ClockTailBack(h: nat, m: nat, s: nat, f: nat, total: nat)
    requires m < 60 && s < 60 && f < MICROS_PER_SEC && InI64(total)
    requires total == h * MICROS_PER_HOUR + m * MICROS_PER_MINUTE + s * MICROS_PER_SEC + f
    ensures ParseTime(h, ":" + (ZeroPad(m, 2) + (":" + (ZeroPad(s, 2) + FractionText(f))))) == Ok((total, ""))
  {
    var ff := FractionText(f);
    FractionBack(f);
    FractionStart(f);
    ScanPadded(s, 2, ff);
    ScanPadded(m, 2, ":" + (ZeroPad(s, 2) + ff));
    TimeOfPieces(h, m, s, f, total, ZeroPad(m, 2), ZeroPad(s, 2), ff);
  }

  lemma FractionStart(f: nat)
    ensures FractionText(f) == "" || FractionText(f)[0] == '.'
  {
  }

  lemma TimeOfPieces(h: nat, m: nat, s: nat, f: nat, total: nat, mm: string, ss: string, ff: string)
    requires InI64(total) && total == h * MICROS_PER_HOUR + m * MICROS_PER_MINUTE + s * MICROS_PER_SEC + f
    requires mm != "" && ScanNumber(mm + (":" + (ss + ff)), 0) == ScanNumber(":" + (ss + ff), m)
    requires ss != "" && ScanNumber(ss + ff, 0) == ScanNumber(ff, s)
    requires (ff == "" || ff[0] == '.') && OptFraction(ff) == (f, "")
    ensures ParseTime(h, ":" + (mm + (":" + (ss + ff)))) == Ok((total, ""))
  {
    MinutesBack(mm, m, ss + ff, h * MICROS_PER_HOUR);
    TimeOfParts(h, ":" + (mm + (":" + (ss + ff))), h * MICROS_PER_HOUR + m * MICROS_PER_MINUTE, ss + ff, s, ff, f, "");
  }

  /** The steps of `ParseTime`, given what each of its scans returns. */
  lemma TimeOfParts(h: nat, s: string, total: nat, rest: string, seconds: nat, rest': string, micros: nat, rest'': string)
    requires InI64(h * MICROS_PER_HOUR) && TimeLoop(s, h * MICROS_PER_HOUR, 0) == Ok((total, rest)) && rest != ""
    requires ScanNumber(rest, 0) == Ok((seconds, rest')) && OptFraction(rest') == (micros, rest'')
    requires InI64(total + seconds * MICROS_PER_SEC + micros)
    ensures ParseTime(h, s) == Ok((total + seconds * MICROS_PER_SEC + micros, rest''))
  {
  }

  lemma ClockBack(micros: nat)
    requires InI64(micros)
    ensures ParseNumber(ClockText(micros)) == Ok(Number(micros, 0, ""))
  {
    var c := ClockOf(micros);
    ClockTailBack(c.hour, c.min, c.sec, c.micros, micros);
    ScanDigits(c.hour, ":" + (ZeroPad(c.min, 2) + (":" + (ZeroPad(c.sec, 2) + FractionText(c.micros)))));
  }

  // ---------------------------------------------------------------- numbers with a unit

  predicate IsWord(w: string) { w != "" && forall i :: 0 <= i < |w| ==> 'a' <= w[i] <= 'z' }

  /** The next part, if any, is separated by a space. */
  predicate EndsPart(rest: string) { rest == "" || rest[0] == ' ' }

  lemma {:induction false} WordPrefix(w: string, rest: string)
    requires (forall i :: 0 <= i < |w| ==> 'a' <= w[i] <= 'z') && EndsPart(rest)
    ensures AlphaPrefix(w + rest) == w
    decreases |w|
  {
    if w == "" {
      assert w + rest == rest;
    } else {
      WordPrefix(w[1..], rest);
      assert (w + rest)[1..] == w[1..] + rest;
    }
  }

  lemma NumberBack(n: nat, tail: string)
    requires InI64(n) && tail != "" && tail[0] == ' '
    ensures ParseNumber(Digits(n) + tail) == Ok(Number(n, 0, tail))
  {
    ScanDigits(n, tail);
  }

  /** A number that has been read, and its unit. */
  lemma WordBack(s: string, number: Number, w: string, rest: string, sign: int, iv: Interval)
    requires IsWord(w) && EndsPart(rest) && ParseNumber(s) == Ok(number) && number.rest == " " + (w + rest)
    ensures ParseItem(s, sign, iv) == Ok((ApplySpecifier(iv, sign * number.number, sign * number.fraction, w), rest))
  {
    assert number.rest[1..] == w + rest;
    assert SkipSpaces(number.rest) == w + rest;
    WordPrefix(w, rest);
    assert (w + rest)[|w|..] == rest;
  }

  lemma ItemBack(n: nat, w: string, rest: string, sign: int, iv: Interval)
    requires InI64(n) && IsWord(w) && EndsPart(rest)
    ensures ParseItem(Digits(n) + (" " + (w + rest)), sign, iv) == Ok((ApplySpecifier(iv, sign * n, 0, w), rest))
  {
    var tail := " " + (w + rest);
    NumberBack(n, tail);
    WordBack(Digits(n) + tail, Number(n, 0, tail), w, rest, sign, iv);
  }

  lemma LowerWord(w: string)
    requires IsWord(w)
    ensures Lower(w) == w
  {
  }

  function Word(t: Token): string
    requires t.Unit?
  {
    t.name + (if t.value != 1 && t.value != -1 then "s" else "")
  }

  /** What a part contributes to the interval. */
  function Effect(t: Token, iv: Interval): Interval {
    match t
    case Unit(v, _) => ApplySpecifier(iv, v, 0, Word(t))
    case Time(micros) => ApplySpecifier(iv, micros, 0, "")
  }

  lemma FromSpace(s: string, iv: Interval, found: bool)
    ensures ParseFrom(" " + s, iv, found) == ParseFrom(s, iv, found)
  {
    assert (" " + s)[1..] == s;
  }

  lemma FromItem(s: string, sign: int, iv: Interval, found: bool, iv': Interval, rest: string)
    requires s != "" && IsDigit(s[0]) && (sign == 1 || sign == -1)
    requires ParseItem(s, sign, iv) == Ok((iv', rest))
    ensures ParseFrom(if sign == 1 then s else "-" + s, iv, found) == ParseFrom(rest, iv', true)
  {
    assert ("-" + s)[1..] == s;
  }

  lemma UnitSplit(t: Token, rest: string)
    requires t.Unit?
    ensures var n := if t.value < 0 then -t.value else t.value;
      Text(t) + rest == (if t.value < 0 then "-" else "") + (Digits(n) + (" " + (Word(t) + rest)))
  {
  }

  lemma UnitBack(t: Token, rest: string, iv: Interval, found: bool)
    requires t.Unit? && InI64(t.value) && InI64(-t.value) && IsWord(Word(t)) && EndsPart(rest)
    ensures ParseFrom(Text(t) + rest, iv, found) == ParseFrom(rest, Effect(t, iv), true)
  {
    var n, sign := if t.value < 0 then -t.value else t.value, if t.value < 0 then -1 else 1;
    var body := Digits(n) + (" " + (Word(t) + rest));
    UnitSplit(t, rest);
    ItemBack(n, Word(t), rest, sign, iv);
    FromItem(body, sign, iv, found, Effect(t, iv), rest);
    assert "" + body == body;
  }

  /** A number with nothing behind it counts as microseconds. */
  lemma BareNumber(s: string, n: int, sign: int, iv: Interval, found: bool)
    requires s != "" && IsDigit(s[0]) && (sign == 1 || sign == -1) && ParseNumber(s) == Ok(Number(n, 0, ""))
    ensures ParseFrom(if sign == 1 then s else "-" + s, iv, found) == Ok(ApplySpecifier(iv, sign * n, 0, ""))
  {
    var iv' := ApplySpecifier(iv, sign * n, 0, "");
    assert ParseItem(s, sign, iv) == Ok((iv', ""));
    FromItem(s, sign, iv, found, iv', "");
  }

  lemma ClockStart(micros: nat)
    ensures ClockText(micros) != "" && IsDigit(ClockText(micros)[0])
  {
    var h := Digits(ClockOf(micros).hour);
    assert ClockText(micros)[0] == h[0];
  }

  lemma TimeBack(micros: int, iv: Interval, found: bool)
    requires InI64(micros) && InI64(-micros)
    ensures ParseFrom(Text(Time(micros)), iv, found) == Ok(Effect(Time(micros), iv))
  {
    var n, sign := if micros < 0 then -micros else micros, if micros < 0 then -1 else 1;
    ClockStart(n);
    ClockBack(n);
    BareNumber(ClockText(n), n, sign, iv, found);
  }

  // ---------------------------------------------------------------- whole texts

  ghost predicate GoodUnits(ts: seq<Token>) {
    forall i :: 0 <= i < |ts| ==> ts[i].Unit? && InI64(ts[i].value) && InI64(-ts[i].value) && IsWord(Word(ts[i]))
  }

  function Effects(ts: seq<Token>, iv: Interval): Interval {
    if ts == [] then iv else Effect(ts[|ts| - 1], Effects(ts[..|ts| - 1], iv))
  }

  lemma JoinSplit(ts: seq<Token>, rest: string)
    requires ts != []
    ensures var init, tail := ts[..|ts| - 1], Text(ts[|ts| - 1]) + rest;
      Join(ts) + rest == if init == [] then tail else Join(init) + (" " + tail)
  {
    var init, last := ts[..|ts| - 1], Text(ts[|ts| - 1]);
    Regroup(Join(init), if |ts| > 1 then " " else "", last, rest);
  }

  lemma Regroup(a: string, b: string, c: string, d: string)
    ensures a + b + c + d == a + (b + (c + d))
    ensures a == "" && b == "" ==> a + b + c + d == c + d
  {
  }

  lemma {:induction false} UnitsBack(ts: seq<Token>, rest: string, iv: Interval, found: bool)
    requires GoodUnits(ts) && EndsPart(rest)
    ensures ParseFrom(Join(ts) + rest, iv, found) == ParseFrom(rest, Effects(ts, iv), found || ts != [])
    decreases |ts|
  {
    if ts == [] {
      assert Join(ts) + rest == rest;
    } else {
      var init, last := ts[..|ts| - 1], ts[|ts| - 1];
      JoinSplit(ts, rest);
      if init == [] {
        UnitBack(last, rest, iv, found);
      } else {
        UnitsBack(init, " " + (Text(last) + rest), iv, found);
        SpacedUnit(last, rest, Effects(init, iv));
      }
    }
  }

  lemma SpacedUnit(t: Token, rest: string, iv: Interval)
    requires t.Unit? && InI64(t.value) && InI64(-t.value) && IsWord(Word(t)) && EndsPart(rest)
    ensures ParseFrom(" " + (Text(t) + rest), iv, true) == ParseFrom(rest, Effect(t, iv), true)
  {
    UnitBack(t, rest, iv, true);
    FromSpace(Text(t) + rest, iv, true);
  }

  lemma QuotientParts(a: int)
    requires InI32(a)
    ensures var q := Quotient(a, 12); -12 < a - q * 12 < 12 && InI32(q * 12) && InI32(q) && (a == 0 ==> q == 0)
  {
  }

  lemma Names()
    ensures IsWord("year") && IsWord("years") && IsWord("month") && IsWord("months") && IsWord("day") && IsWord("days")
    ensures "year" + "s" == "years" && "month" + "s" == "months" && "day" + "s" == "days"
    ensures "year" + "" == "year" && "month" + "" == "month" && "day" + "" == "day"
  {
  }

  ghost function MonthTokens(months: int): seq<Token> {
    var years := Quotient(months, 12);
    UnitTokens(years, "year") + UnitTokens(months - years * 12, "month")
  }

  ghost function Units(iv: Interval): seq<Token> {
    MonthTokens(iv.months) + UnitTokens(iv.days, "day")
  }

  lemma SingleEffect(v: int, name: string, iv: Interval)
    requires v != 0 && IsWord(Word(Unit(v, name)))
    ensures Effects(UnitTokens(v, name), iv) == ApplySpecifier(iv, v, 0, Word(Unit(v, name)))
    ensures Lower(Word(Unit(v, name))) == Word(Unit(v, name))
  {
    LowerWord(Word(Unit(v, name)));
    assert [Unit(v, name)][..0] == [];
  }

  lemma YearsEffect(v: int, iv: Interval)
    requires InI32(v * 12) && InI32(iv.months + v * 12)
    ensures Effects(UnitTokens(v, "year"), iv) == iv.(months := iv.months + v * 12)
  {
    Names();
    if v != 0 { SingleEffect(v, "year", iv); }
  }

  lemma MonthsEffect(v: int, iv: Interval)
    requires InI32(v) && InI32(iv.months + v)
    ensures Effects(UnitTokens(v, "month"), iv) == iv.(months := iv.months + v)
  {
    Names();
    if v != 0 { SingleEffect(v, "month", iv); }
  }

  lemma DaysEffect(v: int, iv: Interval)
    requires InI32(v) && InI32(iv.days + v)
    ensures Effects(UnitTokens(v, "day"), iv) == iv.(days := iv.days + v)
  {
    Names();
    if v != 0 { SingleEffect(v, "day", iv); }
  }

  lemma {:induction false} EffectsAppend(a: seq<Token>, b: seq<Token>, iv: Interval)
    ensures Effects(a + b, iv) == Effects(b, Effects(a, iv))
    decreases |b|
  {
    if b == [] {
      assert a + b == a;
    } else {
      EffectsAppend(a, b[..|b| - 1], iv);
      assert (a + b)[..|a + b| - 1] == a + b[..|b| - 1];
    }
  }

  /** The units of an interval rebuild its months and days. */
  lemma YearMonthEffect(years: int, months: int)
    requires InI32(years * 12) && InI32(months) && InI32(years * 12 + months)
    ensures Effects(UnitTokens(years, "year") + UnitTokens(months, "month"), ZERO) == Interval(years * 12 + months, 0, 0)
  {
    YearsEffect(years, ZERO);
    MonthsEffect(months, Interval(years * 12, 0, 0));
    EffectsAppend(UnitTokens(years, "year"), UnitTokens(months, "month"), ZERO);
  }

  lemma MonthTokensEffect(m: int)
    requires InI32(m)
    ensures Effects(MonthTokens(m), ZERO) == Interval(m, 0, 0)
  {
    var years := Quotient(m, 12);
    QuotientParts(m);
    YearMonthEffect(years, m - years * 12);
  }

  lemma UnitEffects(iv: Interval)
    requires Valid(iv)
    ensures Effects(Units(iv), ZERO) == Interval(iv.months, iv.days, 0)
  {
    MonthTokensEffect(iv.months);
    DaysEffect(iv.days, Interval(iv.months, 0, 0));
    EffectsAppend(MonthTokens(iv.months), UnitTokens(iv.days, "day"), ZERO);
  }

  lemma UnitsAreGood(iv: Interval)
    requires Valid(iv)
    ensures GoodUnits(Units(iv))
  {
    QuotientParts(iv.months);
    Names();
  }

  predicate StartsNumber(s: string) { s != "" && (s[0] == '-' || IsDigit(s[0])) }

  lemma TextStart(t: Token)
    ensures StartsNumber(Text(t))
  {
    match t
    case Unit(v, name) => assert UnitText(v, name)[0] == SignedNumber(v)[0];
    case Time(micros) => ClockStart(if micros < 0 then -micros else micros);
  }

  lemma {:induction false} JoinStart(ts: seq<Token>)
    requires ts != []
    ensures StartsNumber(Join(ts))
    decreases |ts|
  {
    if |ts| == 1 {
      TextStart(ts[0]);
      assert Join(ts[..0]) + "" + Text(ts[0]) == Text(ts[0]);
    } else {
      JoinStart(ts[..|ts| - 1]);
    }
  }

  lemma ParseFirst(s: string)
    requires StartsNumber(s)
    ensures Parse(s) == ParseFrom(s, ZERO, false)
  {
  }

  lemma ZeroBack()
    ensures Parse("00:00:00") == Ok(ZERO)
  {
    var z, tail := ZeroPad(0, 2), ZeroPad(0, 2) + FractionText(0);
    var rest := ":" + (z + (":" + tail));
    assert z == "00";
    assert z + rest == "00:00:00";
    ScanPadded(0, 2, rest);
    ClockTailBack(0, 0, 0, 0, 0);
    assert ParseNumber(z + rest) == Ok(Number(0, 0, ""));
    FromItem(z + rest, 1, ZERO, false, ZERO, "");
  }

  lemma TimeAfterUnits(us: seq<Token>, micros: int, iv: Interval)
    requires GoodUnits(us) && InI64(micros) && InI64(-micros)
    ensures ParseFrom(Join(us + [Time(micros)]), iv, false) == Ok(Effect(Time(micros), Effects(us, iv)))
  {
    var ts, t := us + [Time(micros)], Text(Time(micros));
    JoinSplit(ts, "");
    assert ts[..|ts| - 1] == us && t + "" == t && Join(ts) + "" == Join(ts);
    TimeBack(micros, Effects(us, iv), us != []);
    if us != [] {
      UnitsBack(us, " " + t, iv, false);
      FromSpace(t, Effects(us, iv), true);
    }
  }

  lemma UnitsOnlyBack(us: seq<Token>)
    requires GoodUnits(us) && us != []
    ensures Parse(Join(us)) == Ok(Effects(us, ZERO))
  {
    JoinStart(us);
    ParseFirst(Join(us));
    UnitsBack(us, "", ZERO, false);
    assert Join(us) + "" == Join(us);
  }

  lemma UnitsAndTimeBack(us: seq<Token>, micros: int)
    requires GoodUnits(us) && InI64(micros) && InI64(-micros)
    ensures Parse(Join(us + [Time(micros)])) == Ok(Effect(Time(micros), Effects(us, ZERO)))
  {
    JoinStart(us + [Time(micros)]);
    ParseFirst(Join(us + [Time(micros)]));
    TimeAfterUnits(us, micros, ZERO);
  }

  lemma TokensSplit(iv: Interval)
    ensures Tokens(iv) == Units(iv) + (if iv.micros == 0 then [] else [Time(iv.micros)])
    ensures iv.micros == 0 ==> Tokens(iv) == Units(iv)
  {
  }

  lemma WithTimeBack(iv: Interval)
    requires Valid(iv) && iv.micros != I64_MIN && iv.micros != 0
    ensures Parse(Print(iv)) == Ok(iv)
  {
    TokensSplit(iv);
    UnitsAreGood(iv);
    UnitsAndTimeBack(Units(iv), iv.micros);
    UnitEffects(iv);
  }

  lemma WithoutTimeBack(iv: Interval)
    requires Valid(iv) && iv.micros == 0
    ensures Parse(Print(iv)) == Ok(iv)
  {
    TokensSplit(iv);
    UnitsAreGood(iv);
    if Units(iv) == [] {
      ZeroBack();
    } else {
      UnitsOnlyBack(Units(iv));
    }
    UnitEffects(iv);
  }

  /** Every interval that can be printed is read back unchanged. */
  lemma RoundTrip(iv: Interval)
    requires Valid(iv) && iv.micros != I64_MIN
    ensures Parse(Print(iv)) == Ok(iv)
  {
    if iv.micros != 0 {
      WithTimeBack(iv);
    } else {
      WithoutTimeBack(iv);
    }
  }
}
