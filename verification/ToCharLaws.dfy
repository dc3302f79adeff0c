/** What the picture machine promises: fixed width, `#` on overflow only, and a text that can be read
    back (number.rs). */
module ToCharLaws {
  import opened Decimals
  import opened Sequences
  import opened ToChar

  // ---------------------------------------------------------------- width

  /** Calls beyond the last character of the number write nothing. */
  function Silent(x: Setup, n: nat): nat {
    if n > x.lead + |x.number| then n - (x.lead + |x.number|) else 0
  }

  lemma {:induction false} RenderLength(x: Setup, ts: seq<Token>)
    ensures |Render(x, ts)| + Silent(x, Calls(ts)) == |ts| + if SignCall(x) < Calls(ts) then 1 else 0
  {
    if ts != [] {
      RenderLength(x, Init(ts));
    }
  }

  lemma PartLengths(value: int, pre: nat, post: nat)
    ensures var p := NumberPart(value, pre, post);
      p.lead + |p.number| == if Overflows(value, pre) then pre + 1 + post else if post > 0 then pre + 1 + post else pre
    ensures NumberPart(value, pre, post).lead < pre || NumberPart(value, pre, post).lead == 0
  {
  }

  /** The sign always finds a call to precede. */
  lemma SignIsWritten(value: int, ts: seq<Token>)
    requires OneDot(ts) && Pre(ts) + Post(ts) > 0
    ensures SignCall(PictureSetup(value, ts)) < Calls(ts)
  {
    PartLengths(value, Pre(ts), Post(ts));
    CallsSplit(ts);
  }

  /** One character per token and one for the sign; the only exception is a decimal point with no
      place behind it, which shows nothing unless the value overflows the picture. */
  lemma FixedWidth(value: int, ts: seq<Token>)
    requires OneDot(ts) && Pre(ts) + Post(ts) > 0
    ensures |Render(PictureSetup(value, ts), ts)| == |ts| + 1 <==>
      (Dec in ts ==> Post(ts) > 0 || Overflows(value, Pre(ts)))
    ensures |Render(PictureSetup(value, ts), ts)| >= |ts|
  {
    RenderLength(PictureSetup(value, ts), ts);
    PartLengths(value, Pre(ts), Post(ts));
    SignIsWritten(value, ts);
    CallsSplit(ts);
  }

  // ---------------------------------------------------------------- where each token lands

  /** The position in the output of the character of token `k`. */
  ghost function PositionOf(x: Setup, ts: seq<Token>, k: nat): nat
    requires k < |ts|
  {
    k + if SignCall(x) < Calls(ts[..k + 1]) then 1 else 0
  }

  lemma {:induction false} RenderAt(x: Setup, ts: seq<Token>, k: nat)
    requires k < |ts| && Calls(ts) <= x.lead + |x.number|
    ensures var s, p := Render(x, ts), PositionOf(x, ts, k);
      p < |s| && [s[p]] == TokenText(x, ts[k], Calls(ts[..k]))
    decreases |ts|
  {
    RenderLength(x, Init(ts));
    if k == |ts| - 1 {
      assert ts[..k + 1] == ts && ts[..k] == Init(ts);
      assert |TokenText(x, Last(ts), Calls(Init(ts)))| == 1;
    } else {
      RenderAt(x, Init(ts), k);
      assert Init(ts)[..k + 1] == ts[..k + 1] && Init(ts)[..k] == ts[..k];
    }
  }

  // ---------------------------------------------------------------- overflow

  lemma {:induction false} CallOfPlace(ts: seq<Token>, k: nat)
    requires OneDot(ts) && k < |ts| && IsPlace(ts[k])
    ensures var c := Calls(ts[..k]); c < Calls(ts) && (Dec in ts ==> c != Pre(ts))
    decreases |ts|
  {
    var init := Init(ts);
    CallsSplit(init);
    CallsSplit(ts);
    if k < |ts| - 1 {
      assert init[..k] == ts[..k];
      CallOfPlace(init, k);
    } else {
      assert ts[..k] == init;
    }
  }

  lemma PlaceText(value: int, ts: seq<Token>, k: nat)
    requires OneDot(ts) && Pre(ts) + Post(ts) > 0 && k < |ts| && IsPlace(ts[k])
    ensures TokenText(PictureSetup(value, ts), ts[k], Calls(ts[..k])) == "#" <==> Overflows(value, Pre(ts))
  {
    CallOfPlace(ts, k);
    CallsSplit(ts);
    PlaceHash(value, Pre(ts), Post(ts), HasZero(ts), ZeroStart(ts), Calls(ts[..k]));
  }

  lemma PlaceHash(value: int, pre: nat, post: nat, zero: bool, zeroStart: nat, c: nat)
    requires c < pre + (if post > 0 then 1 else 0) + post && (c == pre ==> post == 0)
    ensures CallText(SetupOf(value, pre, post, zero, zeroStart), c) == "#" <==> Overflows(value, pre)
  {
    PartLengths(value, pre, post);
    if Overflows(value, pre) {
      HashNumber(pre, post, c);
    } else {
      NoHash(value, pre, post);
    }
  }

  lemma HashNumber(pre: nat, post: nat, c: nat)
    requires c != pre && c < pre + 1 + post
    ensures (Repeat('#', pre) + "." + Repeat('#', post))[c] == '#'
  {
  }

  lemma NoHash(value: int, pre: nat, post: nat)
    requires !Overflows(value, pre)
    ensures '#' !in NumberPart(value, pre, post).number
  {
  }

  /** For every picture whose decimal point, if any, has a place behind it: the output has one
      character per token and one for the sign, and a digit place shows `#` exactly when the value
      has more digits than the picture has places before the point. */
  lemma FixedPicture(value: int, ts: seq<Token>)
    requires OneDot(ts) && Pre(ts) + Post(ts) > 0 && (Dec in ts ==> Post(ts) > 0)
    ensures var x := PictureSetup(value, ts); var s := Render(x, ts);
      && |s| == |ts| + 1
      && forall k :: 0 <= k < |ts| && IsPlace(ts[k]) ==>
           PositionOf(x, ts, k) < |s| && (s[PositionOf(x, ts, k)] == '#' <==> Overflows(value, Pre(ts)))
  {
    var x := PictureSetup(value, ts);
    var s := Render(x, ts);
    FixedWidth(value, ts);
    CallsSplit(ts);
    PartLengths(value, Pre(ts), Post(ts));
    forall k | 0 <= k < |ts| && IsPlace(ts[k])
      ensures PositionOf(x, ts, k) < |s| && (s[PositionOf(x, ts, k)] == '#' <==> Overflows(value, Pre(ts)))
    {
      RenderAt(x, ts, k);
      PlaceText(value, ts, k);
    }
  }

  /** `9.` is such a picture: it shows 5 in two characters, not three. */
  lemma TrailingDot()
    ensures |Render(PictureSetup(5, [Nine, Dec]), [Nine, Dec])| == 2
  {
    var ts := [Nine, Dec];
    assert Init(ts) == [Nine] && Init([Nine]) == [];
    assert Pre(ts) == 1 && Post(ts) == 0 && OneDot(ts) && Calls(ts) == 2;
    RenderLength(PictureSetup(5, ts), ts);
  }

  // ---------------------------------------------------------------- reading the text back

  /** The whole number a text shows: its digits before the first point, anything else skipped. */
  function Shown(s: string): nat {
    if s == "" then 0 else
      var init, c := s[..|s| - 1], s[|s| - 1];
      if IsDigit(c) && '.' !in init then 10 * Shown(init) + Value(c) else Shown(init)
  }

  lemma ShownAppend(s: string, c: char)
    ensures Shown(s + [c]) == if IsDigit(c) && '.' !in s then 10 * Shown(s) + Value(c) else Shown(s)
  {
    assert (s + [c])[..|s|] == s;
  }

  /** The digits of the number the first `n` calls have reached. */
  function Reached(x: Setup, digits: string, n: nat): string {
    if n <= x.lead then "" else if n - x.lead <= |digits| then digits[..n - x.lead] else digits
  }

  /** The number of a value that fits its picture: its digits, and zeros behind the point. */
  ghost predicate Fits(x: Setup, digits: string) {
    AllDigits(digits) && digits != "" && x.number == digits + if x.post > 0 then "." + Repeat('0', x.post) else ""
  }

  lemma SignKeepsShown(x: Setup, s: string)
    ensures Shown(s + SignText(x)) == Shown(s) && ('.' in s + SignText(x) <==> '.' in s)
    ensures '-' in s + SignText(x) <==> '-' in s || !x.sign
  {
    ShownAppend(s, SignText(x)[0]);
  }

  /** Before the number starts: blanks and zeros show nothing. */
  lemma LeadShown(x: Setup, s: string, c: nat)
    requires c < x.lead && Shown(s) == 0
    ensures Shown(s + CallText(x, c)) == 0
  {
    ShownAppend(s, ' ');
    ShownAppend(s, '0');
  }

  /** Inside the number: one more digit is shown, except a lone zero before the point. */
  lemma DigitRead(x: Setup, digits: string, s: string, p: nat)
    requires AllDigits(digits) && p < |digits| <= |x.number| && x.number[p] == digits[p] && x.number[0] == digits[0]
    requires Shown(s) == Decimal(digits[..p]) && '.' !in s
    ensures Shown(s + CallText(x, x.lead + p)) == Decimal(digits[..p + 1])
  {
    assert digits[..p + 1] == digits[..p] + [digits[p]];
    DecimalAppend(digits[..p], digits[p]);
    ShownAppend(s, digits[p]);
    ShownAppend(s, ' ');
  }

  /** From the point on: nothing more is read. */
  lemma TailRead(x: Setup, s: string, c: nat)
    requires x.lead < c && ('.' in s || x.number == "" || c - x.lead >= |x.number| || x.number[c - x.lead] == '.')
    ensures Shown(s + CallText(x, c)) == Shown(s)
  {
    if c - x.lead < |x.number| {
      ShownAppend(s, x.number[c - x.lead]);
    } else {
      assert s + "" == s;
    }
  }

  /** The characters a call can write. */
  lemma CallChars(x: Setup, digits: string, s: string, c: nat)
    requires Fits(x, digits)
    ensures '-' in s + CallText(x, c) <==> '-' in s
    ensures '.' in s + CallText(x, c) <==> '.' in s || (x.post > 0 && c == x.lead + |digits|)
  {
    var p := c - x.lead;
    if 0 <= p < |x.number| {
      NumberChars(digits, x.post, p);
    } else {
      assert CallText(x, c) == "" || CallText(x, c) == "0" || CallText(x, c) == " ";
    }
  }

  lemma NumberChars(digits: string, post: nat, p: nat)
    requires AllDigits(digits)
    requires p < |digits + if post > 0 then "." + Repeat('0', post) else ""|
    ensures var c := (digits + if post > 0 then "." + Repeat('0', post) else "")[p];
      (c == '.' <==> p == |digits|) && c != '-' && (p < |digits| ==> c == digits[p])
  {
  }

  lemma CallShown(x: Setup, digits: string, s: string, c: nat)
    requires Fits(x, digits) && Shown(s) == Decimal(Reached(x, digits, c))
    requires '.' in s <==> x.post > 0 && c > x.lead + |digits|
    ensures Shown(s + CallText(x, c)) == Decimal(Reached(x, digits, c + 1))
  {
    if c < x.lead {
      LeadShown(x, s, c);
    } else if c < x.lead + |digits| {
      DigitShownAt(x, digits, s, c);
    } else {
      TailShown(x, digits, s, c);
    }
  }

  lemma DigitShownAt(x: Setup, digits: string, s: string, c: nat)
    requires Fits(x, digits) && Shown(s) == Decimal(Reached(x, digits, c)) && '.' !in s && x.lead <= c < x.lead + |digits|
    ensures Shown(s + CallText(x, c)) == Decimal(Reached(x, digits, c + 1))
  {
    NumberChars(digits, x.post, c - x.lead);
    NumberChars(digits, x.post, 0);
    assert digits[..0] == "";
    DigitRead(x, digits, s, c - x.lead);
  }

  lemma TailShown(x: Setup, digits: string, s: string, c: nat)
    requires Fits(x, digits) && Shown(s) == Decimal(Reached(x, digits, c)) && c >= x.lead + |digits|
    requires '.' in s <==> x.post > 0 && c > x.lead + |digits|
    ensures Shown(s + CallText(x, c)) == Decimal(Reached(x, digits, c + 1))
  {
    assert digits[..|digits|] == digits;
    if c - x.lead < |x.number| { NumberChars(digits, x.post, c - x.lead); }
    TailRead(x, s, c);
  }

  /** What the text after `n` calls shows, and whether it has a point and a minus sign. */
  ghost predicate Reads(x: Setup, digits: string, s: string, n: nat)
    requires AllDigits(digits)
  {
    && Shown(s) == Decimal(Reached(x, digits, n))
    && ('.' in s <==> x.post > 0 && n > x.lead + |digits|)
    && ('-' in s <==> !x.sign && n > SignCall(x))
  }

  lemma ReadsText(x: Setup, digits: string, s: string, n: nat)
    requires Fits(x, digits) && Reads(x, digits, s, n)
    ensures Reads(x, digits, s + (if n == SignCall(x) then SignText(x) else "") + CallText(x, n), n + 1)
  {
    var signed := s + if n == SignCall(x) then SignText(x) else "";
    SignKeepsShown(x, s);
    assert n != SignCall(x) ==> signed == s;
    CallShown(x, digits, signed, n);
    CallChars(x, digits, signed, n);
  }

  lemma ReadsCall(x: Setup, digits: string, ts: seq<Token>)
    requires Fits(x, digits) && ts != [] && IsCall(Last(ts))
    requires Reads(x, digits, Render(x, Init(ts)), Calls(Init(ts)))
    ensures Reads(x, digits, Render(x, ts), Calls(ts))
  {
    var s, n := Render(x, Init(ts)), Calls(Init(ts));
    ReadsText(x, digits, s, n);
    RenderCall(x, ts);
  }

  lemma RenderCall(x: Setup, ts: seq<Token>)
    requires ts != [] && IsCall(Last(ts))
    ensures var n := Calls(Init(ts));
      && Calls(ts) == n + 1
      && Render(x, ts) == Render(x, Init(ts)) + (if n == SignCall(x) then SignText(x) else "") + CallText(x, n)
  {
  }

  lemma ReadsChar(x: Setup, digits: string, s: string, n: nat, c: char)
    requires AllDigits(digits) && Reads(x, digits, s, n) && !IsDigit(c) && c != '.' && c != '-'
    ensures Reads(x, digits, s + [c], n)
  {
    ShownAppend(s, c);
  }

  lemma ReadsOther(x: Setup, digits: string, ts: seq<Token>)
    requires Fits(x, digits) && ts != [] && !IsCall(Last(ts))
    requires Reads(x, digits, Render(x, Init(ts)), Calls(Init(ts)))
    ensures Reads(x, digits, Render(x, ts), Calls(ts))
  {
    var s, n := Render(x, Init(ts)), Calls(Init(ts));
    assert s + "" == s;
    if TokenText(x, Last(ts), n) == " " {
      ReadsChar(x, digits, s, n, ' ');
    } else {
      ReadsChar(x, digits, s, n, ',');
    }
  }

  lemma {:induction false} RenderReads(x: Setup, digits: string, ts: seq<Token>)
    requires Fits(x, digits)
    ensures Reads(x, digits, Render(x, ts), Calls(ts))
  {
    if ts != [] {
      RenderReads(x, digits, Init(ts));
      if IsCall(Last(ts)) { ReadsCall(x, digits, ts); } else { ReadsOther(x, digits, ts); }
    }
  }

  /** A value that fits its picture can be read back: the digits shown before the point are its
      magnitude, whatever blanks, zeros and commas surround them, and `-` is there for negatives only. */
  lemma ReadBack(value: int, ts: seq<Token>)
    requires OneDot(ts) && Pre(ts) + Post(ts) > 0 && !Overflows(value, Pre(ts))
    ensures var s := Render(PictureSetup(value, ts), ts);
      Shown(s) == Abs(value) && ('-' in s <==> value < 0)
  {
    var x := PictureSetup(value, ts);
    var digits := Digits(Abs(value));
    RenderReads(x, digits, ts);
    SignIsWritten(value, ts);
    PartLengths(value, Pre(ts), Post(ts));
    CallsSplit(ts);
    DecimalOfDigits(Abs(value));
    assert Reached(x, digits, Calls(ts)) == digits;
  }
}
