/** The picture machine of `to_char` (number.rs) for pictures of digit places, commas, blanks and a
    decimal point. */
module ToChar {
  import opened Decimals
  import opened Sequences

  datatype Token = Nine | Zero | Comma | Dec | Space

  predicate IsPlace(t: Token) { t.Nine? || t.Zero? }

  /** The tokens handed to `numpart_to_char`. */
  predicate IsCall(t: Token) { IsPlace(t) || t.Dec? }

  // ---------------------------------------------------------------- what a picture describes

  function Init(ts: seq<Token>): seq<Token>
    requires ts != []
  {
    ts[..|ts| - 1]
  }

  function Last(ts: seq<Token>): Token
    requires ts != []
  {
    ts[|ts| - 1]
  }

  function Calls(ts: seq<Token>): nat {
    if ts == [] then 0 else Calls(Init(ts)) + if IsCall(Last(ts)) then 1 else 0
  }

  /** Digit places before the decimal point, and after it. */
  function Pre(ts: seq<Token>): nat {
    if ts == [] then 0 else Pre(Init(ts)) + if IsPlace(Last(ts)) && Dec !in Init(ts) then 1 else 0
  }

  function Post(ts: seq<Token>): nat {
    if ts == [] then 0 else Post(Init(ts)) + if IsPlace(Last(ts)) && Dec in Init(ts) then 1 else 0
  }

  /** A `0` place before the decimal point; leading zeros are shown from the first one on. */
  predicate HasZero(ts: seq<Token>) {
    ts != [] && (HasZero(Init(ts)) || (Last(ts).Zero? && Dec !in Init(ts)))
  }

  /** The number of digit places up to and including the first such `0`. */
  function ZeroStart(ts: seq<Token>): nat {
    if !HasZero(ts) then 0 else if HasZero(Init(ts)) then ZeroStart(Init(ts)) else Pre(Init(ts)) + 1
  }

  /** At most one decimal point. */
  predicate OneDot(ts: seq<Token>) {
    ts == [] || (OneDot(Init(ts)) && !(Last(ts).Dec? && Dec in Init(ts)))
  }

  lemma {:induction false} CallsSplit(ts: seq<Token>)
    requires OneDot(ts)
    ensures Calls(ts) == Pre(ts) + Post(ts) + if Dec in ts then 1 else 0
    ensures Dec !in ts ==> Post(ts) == 0
  {
    if ts != [] {
      CallsSplit(Init(ts));
      assert ts == Init(ts) + [Last(ts)];
    }
  }

  class NumDesc {
    var pre: nat
    var post: nat
    var zero: bool
    var decimal: bool
    var zeroStart: nat

    ghost predicate Describes(ts: seq<Token>)
      reads this
    {
      && pre == Pre(ts) && post == Post(ts) && decimal == (Dec in ts)
      && zero == HasZero(ts) && zeroStart == ZeroStart(ts)
    }

    constructor ()
      ensures Describes([])
    {
      pre, post, zero, decimal, zeroStart := 0, 0, false, false, 0;
    }

    /** `prepare`: fails on a second decimal point. */
    method Prepare(t: Token, ghost ts: seq<Token>) returns (ok: bool)
      requires Describes(ts)
      modifies this
      ensures ok <==> !(t.Dec? && Dec in ts)
      ensures Describes(if ok then ts + [t] else ts)
    {
      assert Init(ts + [t]) == ts && Last(ts + [t]) == t;
      ok := true;
      match t
      case Nine =>
        if decimal { post := post + 1; } else { pre := pre + 1; }
      case Zero =>
        if !zero && !decimal {
          zero, zeroStart := true, pre + 1;
        }
        if !decimal { pre := pre + 1; } else { post := post + 1; }
      case Dec =>
        if decimal { return false; }
        decimal := true;
      case Comma =>
      case Space =>
    }
  }

  function TokenOf(c: char): Token
    requires c in "90,. "
  {
    if c == '9' then Nine else if c == '0' then Zero else if c == ',' then Comma else if c == '.' then Dec else Space
  }

  function TokensOf(s: string): (ts: seq<Token>)
    requires forall i :: 0 <= i < |s| ==> s[i] in "90,. "
    ensures |ts| == |s|
  {
    if s == "" then [] else TokensOf(s[..|s| - 1]) + [TokenOf(s[|s| - 1])]
  }

  /** `parse_format` on these pictures. */
  method ParseFormat(s: string) returns (ok: bool, ts: seq<Token>, desc: NumDesc)
    requires forall i :: 0 <= i < |s| ==> s[i] in "90,. "
    ensures fresh(desc) && (ok <==> OneDot(TokensOf(s)))
    ensures ok ==> ts == TokensOf(s) && desc.Describes(ts)
  {
    ts, ok := [], true;
    desc := new NumDesc();
    for i := 0 to |s|
      invariant fresh(desc) && desc.Describes(ts)
      invariant ts == TokensOf(s[..i]) && OneDot(ts)
    {
      assert s[..i + 1][..i] == s[..i];
      var t := TokenOf(s[i]);
      ghost var before := ts;
      ok := desc.Prepare(t, ts);
      ts := ts + [t];
      assert Init(ts) == before && Last(ts) == t;
      if !ok {
        NoSecondDot(TokensOf(s), i + 1);
        assert s[..i + 1] <= s;
        PrefixTokens(s, i + 1);
        return;
      }
    }
    assert s[..|s|] == s;
  }

  lemma {:induction false} PrefixTokens(s: string, n: nat)
    requires n <= |s| && forall i :: 0 <= i < |s| ==> s[i] in "90,. "
    ensures TokensOf(s)[..n] == TokensOf(s[..n])
    decreases |s|
  {
    if n < |s| {
      PrefixTokens(s[..|s| - 1], n);
      assert s[..|s| - 1][..n] == s[..n];
    } else {
      assert s[..n] == s;
    }
  }

  lemma {:induction false} NoSecondDot(ts: seq<Token>, n: nat)
    requires n <= |ts|
    ensures OneDot(ts) ==> OneDot(ts[..n])
    decreases |ts|
  {
    if n < |ts| {
      NoSecondDot(Init(ts), n);
      assert Init(ts)[..n] == ts[..n];
    } else {
      assert ts[..n] == ts;
    }
  }

  // ---------------------------------------------------------------- the number to be shown

  datatype NumPart = NumPart(sign: bool, number: string, lead: nat)

  function Abs(v: int): nat { if v < 0 then -v else v }

  /** More digits than the picture has places for. */
  predicate Overflows(value: int, pre: nat) {
    |Digits(Abs(value))| > pre
  }

  /** `i64_to_num_part`. */
  function NumberPart(value: int, pre: nat, post: nat): NumPart {
    var digits := Digits(Abs(value));
    var padded := digits + if post > 0 then "." + Repeat('0', post) else "";
    if |digits| < pre then NumPart(value >= 0, padded, pre - |digits|)
    else if |digits| > pre then NumPart(value >= 0, Repeat('#', pre) + "." + Repeat('#', post), 0)
    else NumPart(value >= 0, padded, 0)
  }

  // ---------------------------------------------------------------- what each token shows

  /** Everything the machine knows before the first token. */
  datatype Setup = Setup(zero: bool, zeroStart: nat, post: nat, sign: bool, number: string, lead: nat)

  /** A lone zero before the point is not shown. */
  predicate Predec(x: Setup) {
    !x.zero && x.number != "" && x.number[0] == '0' && x.post != 0
  }

  /** The call that writes the sign. */
  function SignCall(x: Setup): nat {
    if x.zero && x.zeroStart < x.lead then x.zeroStart else if Predec(x) then x.lead + 1 else x.lead
  }

  function CallText(x: Setup, c: nat): string {
    if c < x.lead then
      if x.zero && x.zeroStart <= c then "0" else " "
    else if c - x.lead >= |x.number| then ""
    else if c == x.lead && Predec(x) then " "
    else [x.number[c - x.lead]]
  }

  predicate ShowsDigit(x: Setup, c: nat) {
    if c < x.lead then x.zero && x.zeroStart <= c
    else c - x.lead < |x.number| && x.number[c - x.lead] != '.' && !(c == x.lead && Predec(x))
  }

  ghost predicate DigitShown(x: Setup, n: nat) {
    exists c :: 0 <= c < n && ShowsDigit(x, c)
  }

  ghost function TokenText(x: Setup, t: Token, n: nat): string {
    match t
    case Space => " "
    case Comma => if DigitShown(x, n) then "," else " "
    case _ => CallText(x, n)
  }

  function SignText(x: Setup): string { if x.sign then " " else "-" }

  /** The picture `ts` filled in, call by call. */
  ghost function Render(x: Setup, ts: seq<Token>): string {
    if ts == [] then "" else
      var n := Calls(Init(ts));
      Render(x, Init(ts)) + (if IsCall(Last(ts)) && n == SignCall(x) then SignText(x) else "") + TokenText(x, Last(ts), n)
  }

  // ---------------------------------------------------------------- the machine

  class NumProc {
    const x: Setup
    var signWrote: bool
    var numIn: bool
    var numCurr: nat
    var numberP: nat
    var inout: string

    /** The state after the tokens `ts`. */
    ghost predicate After(ts: seq<Token>)
      reads this
    {
      && x.number != "" && numCurr == Calls(ts) && inout == Render(x, ts)
      && signWrote == (numCurr > SignCall(x)) && numIn == DigitShown(x, numCurr)
      && numberP == (if numCurr <= x.lead then 0 else if numCurr - x.lead < |x.number| then numCurr - x.lead else |x.number|)
    }

    constructor (x: Setup)
      requires x.number != ""
      ensures this.x == x && After([])
    {
      this.x := x;
      signWrote, numIn, numCurr, numberP, inout := false, false, 0, 0, "";
    }

    method IsPredecSpace() returns (b: bool)
      requires x.number != ""
      ensures b == (Predec(x) && numberP == 0)
    {
      b := !x.zero && numberP == 0 && x.number[0] == '0' && x.post != 0;
    }

    /** The first half of `numpart_to_char`: the sign, once, before the first shown digit. */
    method WriteSign(ghost ts: seq<Token>)
      requires After(ts)
      modifies this`signWrote, this`inout
      ensures signWrote == (numCurr >= SignCall(x))
      ensures inout == Render(x, ts) + if numCurr == SignCall(x) then SignText(x) else ""
    {
      var predec := IsPredecSpace();
      if !signWrote && (numCurr >= x.lead || (x.zero && x.zeroStart == numCurr)) && !predec {
        inout := inout + (if x.sign then " " else "-");
        signWrote := true;
      }
    }

    /** The second half: a blank, a leading zero, the point or a digit. */
    method WriteDigit()
      requires x.number != "" && numIn == DigitShown(x, numCurr)
      requires numberP == if numCurr <= x.lead then 0 else if numCurr - x.lead < |x.number| then numCurr - x.lead else |x.number|
      modifies this`inout, this`numIn, this`numberP, this`numCurr
      ensures inout == old(inout) + CallText(x, old(numCurr)) && numCurr == old(numCurr) + 1
      ensures numIn == DigitShown(x, numCurr)
      ensures numberP == if numCurr <= x.lead then 0 else if numCurr - x.lead < |x.number| then numCurr - x.lead else |x.number|
    {
      ShownNext(x, numCurr);
      if numCurr < x.lead && (x.zeroStart > numCurr || !x.zero) {
        inout := inout + " ";
      } else if x.zero && numCurr < x.lead && x.zeroStart <= numCurr {
        inout := inout + "0";
        numIn := true;
      } else {
        var predec := IsPredecSpace();
        if numberP < |x.number| && x.number[numberP] == '.' {
          inout := inout + ".";
        } else if predec {
          inout := inout + " ";
        } else if numberP < |x.number| {
          inout := inout + [x.number[numberP]];
          numIn := true;
        }
        if numberP < |x.number| {
          numberP := numberP + 1;
        }
      }
      numCurr := numCurr + 1;
    }

    /** `numpart_to_char`. */
    method NumpartToChar(t: Token, ghost ts: seq<Token>)
      requires After(ts) && IsCall(t)
      modifies this
      ensures After(ts + [t])
    {
      assert Init(ts + [t]) == ts && Last(ts + [t]) == t;
      WriteSign(ts);
      WriteDigit();
    }

    /** One turn of the loop of `num_processor`. */
    method Process(t: Token, ghost ts: seq<Token>)
      requires After(ts)
      modifies this
      ensures After(ts + [t])
    {
      assert Init(ts + [t]) == ts && Last(ts + [t]) == t;
      match t
      case Comma =>
        inout := inout + if numIn then "," else " ";
      case Space =>
        inout := inout + " ";
      case _ =>
        NumpartToChar(t, ts);
    }
  }

  lemma ShownNext(x: Setup, n: nat)
    ensures DigitShown(x, n + 1) <==> DigitShown(x, n) || ShowsDigit(x, n)
  {
  }

  /** What `num_processor` starts from. */
  function SetupOf(value: int, pre: nat, post: nat, zero: bool, zeroStart: nat): (x: Setup)
    ensures x.number != ""
  {
    var part := NumberPart(value, pre, post);
    Setup(zero, if zeroStart > 0 then zeroStart - 1 else 0, post, part.sign, part.number, part.lead)
  }

  ghost function PictureSetup(value: int, ts: seq<Token>): Setup {
    SetupOf(value, Pre(ts), Post(ts), HasZero(ts), ZeroStart(ts))
  }

  /** `process_i64`. */
  method ProcessI64(ts: seq<Token>, desc: NumDesc, value: int) returns (s: string)
    requires desc.Describes(ts) && Pre(ts) + Post(ts) > 0
    ensures s == Render(PictureSetup(value, ts), ts)
  {
    var np := new NumProc(SetupOf(value, desc.pre, desc.post, desc.zero, desc.zeroStart));
    for i := 0 to |ts|
      invariant fresh(np) && np.x == PictureSetup(value, ts) && np.After(ts[..i])
    {
      assert ts[..i + 1] == ts[..i] + [ts[i]];
      np.Process(ts[i], ts[..i]);
    }
    assert ts[..|ts|] == ts;
    s := np.inout;
  }
}
