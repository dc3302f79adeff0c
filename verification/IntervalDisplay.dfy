/** Printing an interval and parsing what was printed, with the code of both (interval.rs). */
module IntervalDisplay {
  import opened IntervalCode
  import opened IntervalParser
  import opened IntervalRoundTrip
  import opened IntervalText

  /** End to end: the bytes written into the 70-byte buffer parse back to the interval. */
  method DisplayThenParse(iv: Interval) returns (r: Outcome<Interval>)
    requires Valid(iv) && iv.micros != I64_MIN
    ensures r == Ok(iv)
  {
    var out := new Cursor(70);
    Format(iv, out);
    r := FromString(out.buffer[..out.length]);
    RoundTrip(iv);
  }
}
