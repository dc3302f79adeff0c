/** What a number with a unit adds to an interval (`apply_specifier` of interval.rs, whose errors the
    parser ignores). */
module IntervalUnits {
  import opened Decimals
  import opened IntervalRoundTrip
  import opened IntervalText

  datatype Field = Months | Days | Micros

  /** The field a part is counted in, and how many of it make one. */
  function FieldOf(part: DatePart): Field {
    if part in {Millennium, Century, Decade, Year, Quarter, Month} then Months
    else if part in {Week, Day} then Days
    else Micros
  }

  function ScaleOf(part: DatePart): (n: nat)
    ensures n > 0
  {
    match part
    case Millennium => 1000 * 12
    case Century => 100 * 12
    case Decade => 10 * 12
    case Year => 12
    case Quarter => 3
    case Week => 7
    case Hour => 60 * 60 * 1_000_000
    case Minute => 60 * 1_000_000
    case Second => 1_000_000
    case Milliseconds => 1_000
    case _ => 1
  }

  function Get(iv: Interval, field: Field): int {
    match field
    case Months => iv.months
    case Days => iv.days
    case Micros => iv.micros
  }

  function Plus(iv: Interval, field: Field, amount: int): Interval {
    match field
    case Months => iv.(months := iv.months + amount)
    case Days => iv.(days := iv.days + amount)
    case Micros => iv.(micros := iv.micros + amount)
  }

  predicate InField(field: Field, x: int) {
    if field.Micros? then InI64(x) else InI32(x)
  }

  /** The product and the new sum are in the range of the field. */
  predicate Fits(iv: Interval, part: DatePart, number: int) {
    var amount := number * ScaleOf(part);
    InField(FieldOf(part), amount) && InField(FieldOf(part), Get(iv, FieldOf(part)) + amount)
  }

  /** A number with a part adds `number * scale` exactly when the product and the sum are in range. */
  lemma PartExact(iv: Interval, number: int, part: DatePart)
    ensures ApplyPart(iv, number, part) ==
      if Fits(iv, part, number) then Plus(iv, FieldOf(part), number * ScaleOf(part)) else iv
  {
  }

  /** The interval changes exactly for a known unit, a number other than zero, and product and sum in
      range, and then by `number * scale`; the fraction never counts. */
  lemma SpecifierExact(iv: Interval, number: int, fraction: int, specifier: string)
    requires specifier != ""
    ensures var r, s := ApplySpecifier(iv, number, fraction, specifier), SpecifierOf(Lower(specifier));
      && (r != iv <==> s.Known? && number != 0 && Fits(iv, s.part, number))
      && (r != iv ==> r == Plus(iv, FieldOf(s.part), number * ScaleOf(s.part)))
      && r == ApplySpecifier(iv, number, 0, specifier)
  {
    var s := SpecifierOf(Lower(specifier));
    if s.Known? {
      PartExact(iv, number, s.part);
      NonZeroProduct(number, ScaleOf(s.part));
    }
  }

  lemma NonZeroProduct(a: int, b: nat)
    requires b > 0
    ensures a * b == 0 <==> a == 0
  {
  }

  /** A bare number with its fraction is microseconds: all of it is added exactly when the sum is in
      range. */
  lemma BareExact(iv: Interval, number: int, fraction: int)
    requires Valid(iv) && ((number >= 0 && fraction >= 0) || (number <= 0 && fraction <= 0))
    ensures ApplySpecifier(iv, number, fraction, "") == Plus(iv, Micros, number + fraction) <==>
      InI64(iv.micros + number + fraction)
  {
  }

  // ---------------------------------------------------------------- whole texts

  /** A text that is one number and one word. */
  lemma NumberAndWord(n: nat, w: string)
    requires InI64(n) && IsWord(w)
    ensures Parse(Digits(n) + (" " + w)) == Ok(ApplySpecifier(ZERO, n, 0, w))
  {
    var s := Digits(n) + (" " + w);
    assert w + "" == w;
    ItemBack(n, w, "", 1, ZERO);
    FromItem(s, 1, ZERO, false, ApplySpecifier(ZERO, n, 0, w), "");
    ParseFirst(s);
  }

  /** An unknown unit is not an error: the number is dropped. */
  lemma UnknownUnit(n: nat, w: string)
    requires InI64(n) && IsWord(w) && SpecifierOf(w).Unknown?
    ensures Parse(Digits(n) + (" " + w)) == Ok(ZERO)
  {
    NumberAndWord(n, w);
    LowerWord(w);
    SpecifierExact(ZERO, n, 0, w);
  }

  lemma UnknownUnitExample()
    ensures Parse("5 foo") == Ok(ZERO)
  {
    assert "5 foo" == Digits(5) + (" " + "foo");
    UnknownUnit(5, "foo");
  }

  lemma {:induction false} ScanFractionRest(ds: string, mult: nat, f: nat, rest: string)
    requires AllDigits(ds) && (rest == "" || !IsDigit(rest[0]))
    ensures ScanFraction(ds + rest, mult, f).1 == rest
    decreases |ds|
  {
    if ds == "" {
      assert ds + rest == rest;
    } else {
      assert (ds + rest)[1..] == ds[1..] + rest;
      ScanFractionRest(ds[1..], mult / 10, if mult > 0 then f + Value(ds[0]) * mult else f, rest);
    }
  }

  /** `1.5 day` is `1 day`: a fraction before a unit is dropped. */
  lemma FractionDropped(n: nat, ds: string, w: string)
    requires InI64(n) && AllDigits(ds) && IsWord(w)
    ensures Parse(Digits(n) + ("." + (ds + (" " + w)))) == Parse(Digits(n) + (" " + w))
  {
    var tail := " " + w;
    var rest := "." + (ds + tail);
    var s := Digits(n) + rest;
    ScanDigits(n, rest);
    assert rest[1..] == ds + tail;
    ScanFractionRest(ds, 100000, 0, tail);
    var f := OptFraction(rest).0;
    assert ParseNumber(s) == Ok(Number(n, f, tail));
    assert w + "" == w;
    WordBack(s, Number(n, f, tail), w, "", 1, ZERO);
    SpecifierExact(ZERO, n, f, w);
    FromItem(s, 1, ZERO, false, ApplySpecifier(ZERO, n, 0, w), "");
    ParseFirst(s);
    NumberAndWord(n, w);
  }
}
