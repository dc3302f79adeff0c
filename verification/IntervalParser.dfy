/** The parser's loops (interval.rs), which advance a position through the text. */
module IntervalParser {
  import opened Decimals
  import opened IntervalText

  /** A result that carries a position agrees with one that carries the remaining text. */
  ghost predicate Agrees<T>(r: Outcome<(T, nat)>, spec: Outcome<(T, string)>, s: string) {
    match spec
    case Ok(p) => r.Ok? && r.value.0 == p.0 && r.value.1 <= |s| && s[r.value.1..] == p.1
    case Err => r.Err?
    case Overflow => r.Overflow?
  }

  method ReadNumber(s: string, start: nat) returns (r: Outcome<(nat, nat)>)
    requires start <= |s|
    ensures Agrees(r, ScanNumber(s[start..], 0), s)
  {
    var number: nat, pos := 0, start;
    while pos < |s| && IsDigit(s[pos])
      invariant start <= pos <= |s|
      invariant ScanNumber(s[pos..], number) == ScanNumber(s[start..], 0)
    {
      assert s[pos..][1..] == s[pos + 1..];
      if !InI64(number * 10) {
        return Err;
      }
      if !InI64(number * 10 + Value(s[pos])) {
        return Overflow;
      }
      number := number * 10 + Value(s[pos]);
      pos := pos + 1;
    }
    return Ok((number, pos));
  }

  method ReadFraction(s: string, start: nat) returns (fraction: nat, pos: nat)
    requires start <= |s|
    ensures pos <= |s| && (fraction, s[pos..]) == OptFraction(s[start..])
  {
    fraction, pos := 0, start;
    if pos < |s| && s[pos] == '.' {
      pos := pos + 1;
      var mult: nat := 100000;
      assert s[start..][1..] == s[pos..];
      while pos < |s| && IsDigit(s[pos])
        invariant start < pos <= |s|
        invariant ScanFraction(s[pos..], mult, fraction) == OptFraction(s[start..])
      {
        assert s[pos..][1..] == s[pos + 1..];
        if mult > 0 {
          fraction := fraction + Value(s[pos]) * mult;
        }
        mult := mult / 10;
        pos := pos + 1;
      }
    }
  }

  method ReadMinutes(s: string, start: nat, hours: int) returns (r: Outcome<(int, nat)>)
    requires start <= |s|
    ensures Agrees(r, TimeLoop(s[start..], hours, 0), s)
  {
    var total, pos, colons := hours, start, 0;
    while colons < 2 && pos < |s|
      invariant start <= pos <= |s|
      invariant TimeLoop(s[pos..], total, colons) == TimeLoop(s[start..], hours, 0)
      decreases 2 - colons
    {
      var n := ReadNumber(s, pos);
      if n.IsFailure() {
        return n.PropagateFailure();
      }
      var (minute, next) := n.value;
      if !InI64(total + minute * MICROS_PER_MINUTE) {
        return Overflow;
      }
      total := total + minute * MICROS_PER_MINUTE;
      if next < |s| && s[next] == ':' {
        assert s[next..][1..] == s[next + 1..];
        pos, colons := next + 1, colons + 1;
      } else {
        return Ok((total, next));
      }
    }
    return Ok((total, pos));
  }

  method ReadTime(s: string, start: nat, number: nat) returns (r: Outcome<(int, nat)>)
    requires start <= |s|
    ensures Agrees(r, ParseTime(number, s[start..]), s)
  {
    if !InI64(number * MICROS_PER_HOUR) {
      return Overflow;
    }
    var m := ReadMinutes(s, start, number * MICROS_PER_HOUR);
    if m.IsFailure() {
      return m.PropagateFailure();
    }
    var (total, pos) := m.value;
    if pos == |s| {
      return Ok((total, pos));
    }
    var n := ReadNumber(s, pos);
    if n.IsFailure() {
      return n.PropagateFailure();
    }
    var (seconds, next) := n.value;
    var micros, last := ReadFraction(s, next);
    if !InI64(total + seconds * MICROS_PER_SEC + micros) {
      return Overflow;
    }
    return Ok((total + seconds * MICROS_PER_SEC + micros, last));
  }

  function Pair(r: Outcome<Number>): Outcome<((int, int), string)> {
    match r
    case Ok(n) => Ok(((n.number, n.fraction), n.rest))
    case Err => Err
    case Overflow => Overflow
  }

  /** `parse_number`. */
  method ReadItemNumber(s: string, start: nat) returns (r: Outcome<((int, int), nat)>)
    requires start <= |s|
    ensures Agrees(r, Pair(ParseNumber(s[start..])), s)
  {
    var n := ReadNumber(s, start);
    if n.IsFailure() {
      return n.PropagateFailure();
    }
    var (number, next) := n.value;
    var fraction, pos := ReadFraction(s, next);
    if pos < |s| && s[pos] == ':' {
      var t := ReadTime(s, pos, number);
      if t.IsFailure() {
        return t.PropagateFailure();
      }
      return Ok(((t.value.0, 0), t.value.1));
    }
    if pos == start {
      return Err;
    }
    assert |s[pos..]| != |s[start..]|;
    return Ok(((number, fraction), pos));
  }

  method SkipBlanks(s: string, start: nat) returns (pos: nat)
    requires start <= |s|
    ensures start <= pos <= |s| && s[pos..] == SkipSpaces(s[start..])
  {
    pos := start;
    while pos < |s| && IsSpace(s[pos])
      invariant start <= pos <= |s| && SkipSpaces(s[pos..]) == SkipSpaces(s[start..])
    {
      assert s[pos..][1..] == s[pos + 1..];
      pos := pos + 1;
    }
  }

  lemma {:induction false} LettersRun(s: string, start: nat, pos: nat)
    requires start <= pos <= |s| && (forall i :: start <= i < pos ==> IsAlpha(s[i])) && (pos < |s| ==> !IsAlpha(s[pos]))
    ensures AlphaPrefix(s[start..]) == s[start..pos]
    decreases pos - start
  {
    if start < pos {
      LettersRun(s, start + 1, pos);
      assert s[start..][1..] == s[start + 1..];
      assert s[start..pos] == [s[start]] + s[start + 1..pos];
    }
  }

  method ReadLetters(s: string, start: nat) returns (pos: nat)
    requires start <= |s|
    ensures start <= pos <= |s| && s[start..pos] == AlphaPrefix(s[start..])
  {
    pos := start;
    while pos < |s| && IsAlpha(s[pos])
      invariant start <= pos <= |s| && forall i :: start <= i < pos ==> IsAlpha(s[i])
    {
      pos := pos + 1;
    }
    LettersRun(s, start, pos);
  }

  /** `parse_identifier`. */
  method ReadIdentifier(s: string, start: nat) returns (identifier: string, pos: nat)
    requires start <= |s|
    ensures pos <= |s|
    ensures var text := SkipSpaces(s[start..]); identifier == AlphaPrefix(text) && s[pos..] == text[|identifier|..]
  {
    var first := SkipBlanks(s, start);
    pos := ReadLetters(s, first);
    identifier := s[first..pos];
    assert s[first..][|identifier|..] == s[pos..];
  }

  /** One number with its unit. */
  method ReadItem(s: string, start: nat, sign: int, iv: Interval) returns (r: Outcome<(Interval, nat)>)
    requires start <= |s|
    ensures Agrees(r, ParseItem(s[start..], sign, iv), s)
  {
    var n := ReadItemNumber(s, start);
    if n.IsFailure() {
      return n.PropagateFailure();
    }
    var ((number, fraction), next) := n.value;
    var specifier, pos := ReadIdentifier(s, next);
    return Ok((ApplySpecifier(iv, sign * number, sign * fraction, specifier), pos));
  }

  method ReadAgo(s: string, start: nat, iv: Interval) returns (r: Outcome<Interval>)
    requires start < |s|
    ensures r == ParseAgo(s[start..], iv)
  {
    if |s| - start < 3 || (s[start + 1] != 'g' && s[start + 1] != 'G') || (s[start + 2] != 'o' && s[start + 2] != 'O') {
      return Err;
    }
    ghost var tail := s[start..][3..];
    var pos := start + 3;
    while pos < |s|
      invariant start + 3 <= pos <= |s|
      invariant forall i :: start + 3 <= i < pos ==> IsSpace(s[i])
    {
      if !IsSpace(s[pos]) {
        assert !IsSpace(tail[pos - start - 3]);
        return Err;
      }
      pos := pos + 1;
    }
    if iv.months == I32_MIN || iv.days == I32_MIN || iv.micros == I64_MIN {
      return Overflow;
    }
    return Ok(Interval(-iv.months, -iv.days, -iv.micros));
  }

  /** `from_cstring`. */
  method FromString(s: string) returns (r: Outcome<Interval>)
    ensures r == Parse(s)
  {
    if |s| == 0 {
      return Err;
    }
    var iv, pos, found := ZERO, 0, false;
    if s[0] == '@' {
      pos := 1;
    } else if s[0] == 'P' || s[0] == 'p' {
      return Err;
    }
    assert s[0..] == s;
    while pos < |s|
      invariant pos <= |s| && ParseFrom(s[pos..], iv, found) == Parse(s)
    {
      var c := s[pos];
      assert s[pos..][1..] == s[pos + 1..];
      if IsSpace(c) {
        pos := pos + 1;
      } else if IsDigit(c) || c == '-' {
        var item := ReadItem(s, if c == '-' then pos + 1 else pos, if c == '-' then -1 else 1, iv);
        if item.IsFailure() {
          return item.PropagateFailure();
        }
        assert |s[item.value.1..]| < |s[pos..]|;
        iv, pos, found := item.value.0, item.value.1, true;
      } else if c == 'a' || c == 'A' {
        r := ReadAgo(s, pos, iv);
        return;
      } else {
        return Err;
      }
    }
    r := if found then Ok(iv) else Err;
  }
}
