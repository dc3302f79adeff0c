/** The block index of merge-into (`MergeIntoBlockInfoIndex` of utils.rs): which blocks had every
    row hit, which unhit rows lie in blocks with a hit, and their grouping by chunk. */
module BlockIndex {
  import opened Sequences

  type Interval = (nat, nat)
  /** An interval of rows with the prefix of its block. */
  type Piece = (Interval, nat)

  // ---------------------------------------------------------------- blocks

  /** Blocks are non-empty, contiguous from row 0, and have distinct prefixes. */
  ghost predicate Layout(intervals: seq<Interval>, prefixes: seq<nat>) {
    && |intervals| == |prefixes|
    && (|intervals| > 0 ==> intervals[0].0 == 0)
    && (forall i :: 0 <= i < |intervals| ==> intervals[i].0 <= intervals[i].1)
    && (forall i :: 0 < i < |intervals| ==> Adjacent(intervals, i))
    && (forall i, j :: 0 <= i < j < |prefixes| ==> prefixes[i] != prefixes[j])
  }

  ghost predicate Adjacent(intervals: seq<Interval>, i: nat)
    requires 0 < i < |intervals|
  {
    intervals[i].0 == intervals[i - 1].1 + 1
  }

  ghost predicate In(iv: Interval, row: nat) {
    iv.0 <= row <= iv.1
  }

  lemma {:induction false} Ordered(intervals: seq<Interval>, prefixes: seq<nat>, i: nat, j: nat)
    requires Layout(intervals, prefixes) && i < j < |intervals|
    ensures intervals[i].1 < intervals[j].0
    decreases j
  {
    assert Adjacent(intervals, j);
    if i < j - 1 {
      Ordered(intervals, prefixes, i, j - 1);
    }
  }

  lemma BlockUnique(intervals: seq<Interval>, prefixes: seq<nat>, row: nat, i: nat, j: nat)
    requires Layout(intervals, prefixes) && i < |intervals| && j < |intervals|
    requires In(intervals[i], row) && In(intervals[j], row)
    ensures i == j
  {
    if i < j { Ordered(intervals, prefixes, i, j); }
    if j < i { Ordered(intervals, prefixes, j, i); }
  }

  class MergeIntoBlockInfoIndex {
    var intervals: seq<Interval>
    var prefixes: seq<nat>

    ghost predicate Valid()
      reads this
    {
      Layout(intervals, prefixes)
    }

    ghost function Rows(): nat
      reads this
    {
      if intervals == [] then 0 else intervals[|intervals| - 1].1 + 1
    }

    constructor ()
      ensures Valid() && intervals == [] && prefixes == []
    {
      intervals, prefixes := [], [];
    }

    /** Blocks arrive in row order, each with a prefix of its own. */
    method InsertBlockOffsets(interval: Interval, prefix: nat)
      requires Valid() && interval.0 == Rows() && interval.0 <= interval.1 && prefix !in prefixes
      modifies this
      ensures Valid() && Rows() == interval.1 + 1
      ensures intervals == old(intervals) + [interval] && prefixes == old(prefixes) + [prefix]
    {
      intervals := intervals + [interval];
      assert forall i :: 0 < i < |old(intervals)| ==> Adjacent(old(intervals), i) && Adjacent(intervals, i);
      prefixes := prefixes + [prefix];
    }

    /** `search_idx`: the block that contains a row. */
    method SearchIdx(row: nat) returns (l: nat)
      requires Valid() && row < Rows()
      ensures l < |intervals| && In(intervals[l], row)
    {
      l := 0;
      var r := |intervals| - 1;
      while l < r
        invariant 0 <= l <= r < |intervals|
        invariant intervals[l].0 <= row && (r + 1 < |intervals| ==> row < intervals[r + 1].0)
      {
        var mid := (l + r + 1) / 2;
        if intervals[mid].0 <= row {
          l := mid;
        } else {
          r := mid - 1;
        }
      }
      if r + 1 < |intervals| { assert Adjacent(intervals, r + 1); }
    }

    /** `get_block_info`: the parts of `lo..hi` in blocks that `lo..hi` does not cover entirely. */
    method GetBlockInfo(lo: nat, hi: nat) returns (res: seq<Piece>)
      requires Valid() && lo <= hi < Rows()
      ensures PiecesOf(intervals, prefixes, lo, hi, res)
    {
      var left := SearchIdx(lo);
      var right := SearchIdx(hi);
      ghost var ivs, ps := intervals, prefixes;
      if right < left { Ordered(ivs, ps, right, left); }
      res := [];
      if intervals[left].0 == lo && intervals[right].1 == hi {
        WholeBlocks(ivs, ps, lo, hi, left, right);
        return;
      }
      if prefixes[left] == prefixes[right] {
        res := [((lo, hi), prefixes[left])];
        OneBlock(ivs, ps, lo, hi, left);
        return;
      }
      if intervals[left].0 < lo {
        res := res + [((lo, intervals[left].1), prefixes[left])];
      }
      if intervals[right].1 > hi {
        res := res + [((intervals[right].0, hi), prefixes[right])];
      }
      assert res == TwoPieces(ivs, ps, lo, hi, left, right);
      TwoBlocks(ivs, ps, lo, hi, left, right);
    }

    /** The blocks a run of hit rows `start..end` covers entirely. */
    method MatchedInRun(start: nat, end: nat) returns (res: seq<nat>, ghost left: nat, ghost right: nat)
      requires Valid() && start < end <= Rows()
      ensures left <= right < |intervals| && In(intervals[left], start) && In(intervals[right], end - 1)
      ensures res == RunBlocks(intervals, prefixes, start, end, left, right)
    {
      var l := SearchIdx(start);
      var r := SearchIdx(end - 1);
      if r < l { Ordered(intervals, prefixes, r, l); }
      res := [];
      if l == r {
        if intervals[l].0 == start && intervals[r].1 == end - 1 {
          res := res + [prefixes[l]];
        }
      } else {
        if intervals[l].0 == start {
          res := res + [prefixes[l]];
        }
        ghost var first := res;
        for i := l + 1 to r
          invariant res == first + prefixes[l + 1..i]
        {
          res := res + [prefixes[i]];
          assert prefixes[l + 1..i + 1] == prefixes[l + 1..i] + [prefixes[i]];
        }
        if intervals[r].1 == end - 1 {
          res := res + [prefixes[r]];
        }
      }
      left, right := l, r;
    }

    /** One run of hit rows and the unhit rows after it. */
    method MatchedStep(hits: seq<nat>, ghost full: seq<seq<nat>>, start: nat, ghost b: nat)
      returns (more: seq<nat>, next: nat, ghost c: nat)
      requires Valid() && |hits| == Rows() && Bits(hits) && IsFull(full, intervals, prefixes, hits)
      requires start < |hits| && StartsRun(hits, start, 1) && Boundary(intervals, start, b)
      ensures start < next <= |hits| && StartsRun(hits, next, 1)
      ensures b <= c && Boundary(intervals, next, c)
      ensures more == Flatten(full[b..c])
    {
      var end := Skip(hits, start, 1);
      ghost var left, right;
      more, left, right := MatchedInRun(start, end);
      next := Skip(hits, end, 0);
      InRows(intervals, prefixes, hits, left);
      BlockUnique(intervals, prefixes, start, left, b);
      BeforeBlock(intervals, prefixes, next, b);
      c := BlockFrom(intervals, prefixes, next, b);
      RunStep(full, intervals, prefixes, hits, start, end, next, left, right, c);
    }

    method CollectMatched(hits: seq<nat>, ghost full: seq<seq<nat>>) returns (res: seq<nat>)
      requires Valid() && |hits| == Rows() && Bits(hits) && IsFull(full, intervals, prefixes, hits)
      ensures res == Flatten(full)
    {
      res := [];
      var start := Skip(hits, 0, 0);
      ghost var b: nat := BlockFrom(intervals, prefixes, start, 0);
      FirstBlocks(full, intervals, prefixes, hits, start, b);
      while start < |hits|
        invariant start <= |hits| && StartsRun(hits, start, 1) && Boundary(intervals, start, b)
        invariant res == Flatten(full[0..b])
        decreases |hits| - start
      {
        var more, next, c := MatchedStep(hits, full, start, b);
        FlattenSplit(full, 0, b, c);
        res, start, b := res + more, next, c;
      }
      if b < |intervals| { InRows(intervals, prefixes, hits, b); }
      assert full[0..b] == full;
    }

    /** `gather_matched_all_blocks`: in order, exactly the blocks with every row hit. */
    method GatherMatchedAllBlocks(hits: seq<nat>) returns (res: seq<nat>)
      requires Valid() && |hits| == Rows() && Bits(hits)
      ensures res == Flatten(Full(intervals, prefixes, hits))
    {
      res := CollectMatched(hits, Full(intervals, prefixes, hits));
    }

    /** `gather_all_partial_block_offsets`: a row is in a piece exactly when it is not hit and its
        block has a row that is; every piece carries the prefix of its block. */
    method GatherAllPartialBlockOffsets(hits: seq<nat>) returns (res: seq<Piece>)
      requires Valid() && |hits| == Rows() && Bits(hits)
      ensures Exact(intervals, prefixes, hits, res, |hits|)
    {
      res := [];
      var start := Skip(hits, 0, 1);
      while start < |hits|
        invariant start <= |hits| && StartsRun(hits, start, 0)
        invariant Exact(intervals, prefixes, hits, res, start)
        decreases |hits| - start
      {
        var end := Skip(hits, start, 0);
        var more := GetBlockInfo(start, end - 1);
        var next := Skip(hits, end, 1);
        PartialStep(intervals, prefixes, hits, res, start, end, next, more);
        res, start := res + more, next;
      }
    }
  }

  // ---------------------------------------------------------------- one run of unhit rows

  ghost predicate Covered(res: seq<Piece>, row: nat) {
    exists i :: 0 <= i < |res| && In(res[i].0, row)
  }

  /** Each piece stays inside the block whose prefix it carries; pieces are in row order. */
  ghost predicate WellPlaced(intervals: seq<Interval>, prefixes: seq<nat>, res: seq<Piece>) {
    && |intervals| == |prefixes|
    && (forall i :: 0 <= i < |res| ==> InOneBlock(intervals, prefixes, res[i]))
    && (forall i, j :: 0 <= i < j < |res| ==> res[i].0.1 < res[j].0.0)
  }

  ghost predicate InOneBlock(intervals: seq<Interval>, prefixes: seq<nat>, p: Piece) {
    exists b :: 0 <= b < |intervals| && Placed(intervals, prefixes, p, b)
  }

  ghost predicate Placed(intervals: seq<Interval>, prefixes: seq<nat>, p: Piece, b: nat) {
    && b < |intervals| && b < |prefixes| && p.1 == prefixes[b]
    && intervals[b].0 <= p.0.0 <= p.0.1 <= intervals[b].1
  }

  ghost predicate Inside(iv: Interval, lo: nat, hi: nat) {
    lo <= iv.0 && iv.1 <= hi
  }

  ghost predicate PiecesOf(intervals: seq<Interval>, prefixes: seq<nat>, lo: nat, hi: nat, res: seq<Piece>) {
    && WellPlaced(intervals, prefixes, res)
    && (forall i :: 0 <= i < |res| ==> lo <= res[i].0.0 && res[i].0.1 <= hi)
    && (forall row, b :: lo <= row <= hi && 0 <= b < |intervals| && In(intervals[b], row) ==>
          (Covered(res, row) <==> !Inside(intervals[b], lo, hi)))
  }

  lemma WholeBlocks(intervals: seq<Interval>, prefixes: seq<nat>, lo: nat, hi: nat, left: nat, right: nat)
    requires Layout(intervals, prefixes) && left <= right < |intervals|
    requires intervals[left].0 == lo && intervals[right].1 == hi
    ensures PiecesOf(intervals, prefixes, lo, hi, [])
  {
    forall row, b | lo <= row <= hi && 0 <= b < |intervals| && In(intervals[b], row)
      ensures Inside(intervals[b], lo, hi)
    {
      if b < left { Ordered(intervals, prefixes, b, left); }
      if left < b { Ordered(intervals, prefixes, left, b); }
      if b < right { Ordered(intervals, prefixes, b, right); }
      if right < b { Ordered(intervals, prefixes, right, b); }
    }
  }

  lemma OneBlock(intervals: seq<Interval>, prefixes: seq<nat>, lo: nat, hi: nat, b: nat)
    requires Layout(intervals, prefixes) && b < |intervals| && intervals[b].0 <= lo <= hi <= intervals[b].1
    requires !Inside(intervals[b], lo, hi)
    ensures PiecesOf(intervals, prefixes, lo, hi, [((lo, hi), prefixes[b])])
  {
    var res := [((lo, hi), prefixes[b])];
    assert Placed(intervals, prefixes, res[0], b);
    forall row, c | lo <= row <= hi && 0 <= c < |intervals| && In(intervals[c], row)
      ensures Covered(res, row) <==> !Inside(intervals[c], lo, hi)
    {
      BlockUnique(intervals, prefixes, row, b, c);
      assert In(res[0].0, row);
    }
  }

  function TwoPieces(intervals: seq<Interval>, prefixes: seq<nat>, lo: nat, hi: nat, left: nat, right: nat): seq<Piece>
    requires left < |intervals| == |prefixes| && right < |intervals|
  {
    (if intervals[left].0 < lo then [((lo, intervals[left].1), prefixes[left])] else []) +
    (if intervals[right].1 > hi then [((intervals[right].0, hi), prefixes[right])] else [])
  }

  lemma TwoPlaced(intervals: seq<Interval>, prefixes: seq<nat>, lo: nat, hi: nat, left: nat, right: nat)
    requires Layout(intervals, prefixes) && left < right < |intervals|
    requires In(intervals[left], lo) && In(intervals[right], hi)
    ensures WellPlaced(intervals, prefixes, TwoPieces(intervals, prefixes, lo, hi, left, right))
  {
    var res := TwoPieces(intervals, prefixes, lo, hi, left, right);
    Ordered(intervals, prefixes, left, right);
    assert |res| == 2 ==> res[0].0.1 == intervals[left].1 && res[1].0.0 == intervals[right].0;
    forall i | 0 <= i < |res| ensures InOneBlock(intervals, prefixes, res[i]) {
      assert Placed(intervals, prefixes, res[i], left) || Placed(intervals, prefixes, res[i], right);
    }
  }

  lemma TwoBlocks(intervals: seq<Interval>, prefixes: seq<nat>, lo: nat, hi: nat, left: nat, right: nat)
    requires Layout(intervals, prefixes) && left < right < |intervals|
    requires In(intervals[left], lo) && In(intervals[right], hi)
    ensures PiecesOf(intervals, prefixes, lo, hi, TwoPieces(intervals, prefixes, lo, hi, left, right))
  {
    var res := TwoPieces(intervals, prefixes, lo, hi, left, right);
    TwoPlaced(intervals, prefixes, lo, hi, left, right);
    Ordered(intervals, prefixes, left, right);
    forall row, b | lo <= row <= hi && 0 <= b < |intervals| && In(intervals[b], row)
      ensures Covered(res, row) <==> !Inside(intervals[b], lo, hi)
    {
      TwoCover(intervals, prefixes, lo, hi, left, right, row, b);
    }
  }

  lemma TwoCover(intervals: seq<Interval>, prefixes: seq<nat>, lo: nat, hi: nat, left: nat, right: nat, row: nat, b: nat)
    requires Layout(intervals, prefixes) && left < right < |intervals| && b < |intervals|
    requires In(intervals[left], lo) && In(intervals[right], hi) && lo <= row <= hi && In(intervals[b], row)
    ensures Covered(TwoPieces(intervals, prefixes, lo, hi, left, right), row) <==> !Inside(intervals[b], lo, hi)
  {
    var res := TwoPieces(intervals, prefixes, lo, hi, left, right);
    Ordered(intervals, prefixes, left, right);
    if b < left { Ordered(intervals, prefixes, b, left); }
    if left < b { Ordered(intervals, prefixes, left, b); }
    if b < right { Ordered(intervals, prefixes, b, right); }
    if right < b { Ordered(intervals, prefixes, right, b); }
    if b == left && intervals[left].0 < lo {
      assert In(res[0].0, row);
    }
    if b == right && intervals[right].1 > hi {
      assert In(res[|res| - 1].0, row);
    }
  }

  // ---------------------------------------------------------------- fully hit blocks

  ghost predicate Bits(hits: seq<nat>) {
    forall i :: 0 <= i < |hits| ==> hits[i] == 0 || hits[i] == 1
  }

  /** The scanning loops: past all rows equal to `bit`. */
  method Skip(hits: seq<nat>, from: nat, bit: nat) returns (to: nat)
    requires from <= |hits|
    ensures from <= to <= |hits|
    ensures forall i :: from <= i < to ==> hits[i] == bit
    ensures to < |hits| ==> hits[to] != bit
    ensures from < |hits| && hits[from] == bit ==> from < to
  {
    to := from;
    while to < |hits| && hits[to] == bit
      invariant from <= to <= |hits|
      invariant forall i :: from <= i < to ==> hits[i] == bit
    {
      to := to + 1;
    }
  }

  /** Row `start` begins a maximal run of `bit`. */
  ghost predicate StartsRun(hits: seq<nat>, start: nat, bit: nat) {
    && (start < |hits| ==> hits[start] == bit)
    && (0 < start <= |hits| ==> start == |hits| || hits[start - 1] != bit)
  }

  ghost predicate AllHit(iv: Interval, hits: seq<nat>) {
    forall row :: 0 <= row < |hits| && In(iv, row) ==> hits[row] == 1
  }

  /** Block by block: its prefix if every row was hit, otherwise nothing. */
  ghost function Full(intervals: seq<Interval>, prefixes: seq<nat>, hits: seq<nat>): (f: seq<seq<nat>>)
    requires |intervals| == |prefixes|
    ensures |f| == |intervals|
    ensures IsFull(f, intervals, prefixes, hits)
  {
    seq(|intervals|, i requires 0 <= i < |intervals| => if AllHit(intervals[i], hits) then [prefixes[i]] else [])
  }

  ghost predicate IsFull(full: seq<seq<nat>>, intervals: seq<Interval>, prefixes: seq<nat>, hits: seq<nat>) {
    && |full| == |intervals| == |prefixes|
    && forall i :: 0 <= i < |full| ==> FullAt(full, intervals, prefixes, hits, i)
  }

  ghost predicate FullAt(full: seq<seq<nat>>, intervals: seq<Interval>, prefixes: seq<nat>, hits: seq<nat>, i: nat)
    requires i < |full| == |intervals| == |prefixes|
  {
    full[i] == if AllHit(intervals[i], hits) then [prefixes[i]] else []
  }

  /** `b` is the block that contains `row`, or the number of blocks when `row` is past them all. */
  ghost predicate Boundary(intervals: seq<Interval>, row: nat, b: nat) {
    && b <= |intervals|
    && (b < |intervals| ==> In(intervals[b], row))
    && (b == |intervals| ==> forall i :: 0 <= i < |intervals| ==> intervals[i].1 < row)
  }

  ghost function BlockFrom(intervals: seq<Interval>, prefixes: seq<nat>, row: nat, i: nat): (b: nat)
    requires Layout(intervals, prefixes) && i <= |intervals|
    requires forall k :: 0 <= k < i ==> intervals[k].1 < row
    requires i < |intervals| ==> intervals[i].0 <= row
    ensures i <= b && Boundary(intervals, row, b)
    decreases |intervals| - i
  {
    if i == |intervals| || row <= intervals[i].1 then i else
      assert i + 1 < |intervals| ==> Adjacent(intervals, i + 1);
      BlockFrom(intervals, prefixes, row, i + 1)
  }

  lemma ZerosNotFull(full: seq<seq<nat>>, intervals: seq<Interval>, prefixes: seq<nat>, hits: seq<nat>, from: nat, to: nat, a: nat, b: nat)
    requires IsFull(full, intervals, prefixes, hits) && a <= b <= |full| && from <= to <= |hits|
    requires forall row :: from <= row < to ==> hits[row] == 0
    requires forall i :: a <= i < b ==> from <= intervals[i].0 <= intervals[i].1 < to
    ensures Flatten(full[a..b]) == []
  {
    forall i | a <= i < b ensures full[i] == [] {
      assert FullAt(full, intervals, prefixes, hits, i);
      assert In(intervals[i], intervals[i].0);
    }
    FlattenNothing(full[a..b]);
  }

  ghost function RunBlocks(intervals: seq<Interval>, prefixes: seq<nat>, start: nat, end: nat, left: nat, right: nat): seq<nat>
    requires left <= right < |intervals| == |prefixes|
  {
    if left == right then
      if intervals[left].0 == start && intervals[right].1 == end - 1 then [prefixes[left]] else []
    else
      (if intervals[left].0 == start then [prefixes[left]] else []) + prefixes[left + 1..right] +
      (if intervals[right].1 == end - 1 then [prefixes[right]] else [])
  }

  /** A maximal run of hit rows `start..end`, followed by unhit rows up to `next`. */
  ghost predicate Run(hits: seq<nat>, start: nat, end: nat, next: nat) {
    && start < end <= next <= |hits|
    && (start > 0 ==> hits[start - 1] == 0)
    && (forall row :: start <= row < end ==> hits[row] == 1)
    && (forall row :: end <= row < next ==> hits[row] == 0)
    && (end < |hits| ==> end < next)
  }

  /** A block that meets the run is fully hit exactly when the run covers it. */
  lemma FullInRun(iv: Interval, hits: seq<nat>, start: nat, end: nat, next: nat)
    requires Run(hits, start, end, next) && iv.0 <= iv.1 < |hits| && iv.0 < end && start <= iv.1
    ensures AllHit(iv, hits) <==> Inside(iv, start, end - 1)
  {
    if iv.0 < start { assert In(iv, start - 1); }
    if iv.1 >= end { assert In(iv, end); }
  }

  lemma BeforeBlock(intervals: seq<Interval>, prefixes: seq<nat>, row: nat, b: nat)
    requires Layout(intervals, prefixes) && b < |intervals| && intervals[b].0 <= row
    ensures forall k :: 0 <= k < b ==> intervals[k].1 < row
  {
    forall k | 0 <= k < b ensures intervals[k].1 < row {
      Ordered(intervals, prefixes, k, b);
    }
  }

  lemma FirstBlocks(full: seq<seq<nat>>, intervals: seq<Interval>, prefixes: seq<nat>, hits: seq<nat>, start: nat, b: nat)
    requires Layout(intervals, prefixes) && IsFull(full, intervals, prefixes, hits)
    requires start <= |hits| && Boundary(intervals, start, b)
    requires forall row :: 0 <= row < start ==> hits[row] == 0
    ensures Flatten(full[0..b]) == []
  {
    if b < |intervals| { BeforeBlock(intervals, prefixes, start, b); }
    ZerosNotFull(full, intervals, prefixes, hits, 0, start, 0, b);
  }

  lemma EndsOfRun(intervals: seq<Interval>, prefixes: seq<nat>, hits: seq<nat>, start: nat, end: nat, next: nat,
                  left: nat, right: nat)
    requires Layout(intervals, prefixes) && intervals != [] && |hits| == intervals[|intervals| - 1].1 + 1
    requires Run(hits, start, end, next)
    requires left <= right < |intervals| && In(intervals[left], start) && In(intervals[right], end - 1)
    ensures left == right ==> (AllHit(intervals[left], hits) <==> intervals[left].0 == start && intervals[left].1 == end - 1)
    ensures left < right ==> (AllHit(intervals[left], hits) <==> intervals[left].0 == start)
    ensures left < right ==> (AllHit(intervals[right], hits) <==> intervals[right].1 == end - 1)
    ensures forall i :: left < i < right ==> AllHit(intervals[i], hits)
  {
    InRows(intervals, prefixes, hits, left);
    InRows(intervals, prefixes, hits, right);
    FullInRun(intervals[left], hits, start, end, next);
    FullInRun(intervals[right], hits, start, end, next);
    if left < right { Ordered(intervals, prefixes, left, right); }
    forall i | left < i < right ensures AllHit(intervals[i], hits) {
      Ordered(intervals, prefixes, left, i);
      Ordered(intervals, prefixes, i, right);
    }
  }

  lemma BlocksOfRun(full: seq<seq<nat>>, prefixes: seq<nat>, left: nat, right: nat)
    requires left < right < |full| == |prefixes|
    requires forall i :: left < i < right ==> full[i] == [prefixes[i]]
    ensures Flatten(full[left..right + 1]) == full[left] + prefixes[left + 1..right] + full[right]
  {
    FlattenSplit(full, left, right, right + 1);
    FlattenSplit(full, left, left + 1, right);
    FlattenOne(full, left);
    FlattenOne(full, right);
    FlattenSingles(full[left + 1..right], prefixes[left + 1..right]);
  }

  lemma RunCollected(full: seq<seq<nat>>, intervals: seq<Interval>, prefixes: seq<nat>, hits: seq<nat>, start: nat, end: nat,
                     left: nat, right: nat)
    requires IsFull(full, intervals, prefixes, hits) && left <= right < |full|
    requires left == right ==> (AllHit(intervals[left], hits) <==> intervals[left].0 == start && intervals[left].1 == end - 1)
    requires left < right ==> (AllHit(intervals[left], hits) <==> intervals[left].0 == start)
    requires left < right ==> (AllHit(intervals[right], hits) <==> intervals[right].1 == end - 1)
    requires forall i :: left < i < right ==> AllHit(intervals[i], hits)
    ensures Flatten(full[left..right + 1]) == RunBlocks(intervals, prefixes, start, end, left, right)
  {
    assert FullAt(full, intervals, prefixes, hits, left) && FullAt(full, intervals, prefixes, hits, right);
    if left < right {
      forall i | left < i < right ensures full[i] == [prefixes[i]] {
        assert FullAt(full, intervals, prefixes, hits, i);
      }
      BlocksOfRun(full, prefixes, left, right);
    } else {
      FlattenOne(full, left);
    }
  }

  lemma InRows(intervals: seq<Interval>, prefixes: seq<nat>, hits: seq<nat>, i: nat)
    requires Layout(intervals, prefixes) && i < |intervals| && |hits| == intervals[|intervals| - 1].1 + 1
    ensures intervals[i].1 < |hits|
  {
    if i < |intervals| - 1 { Ordered(intervals, prefixes, i, |intervals| - 1); }
  }

  lemma RunStep(full: seq<seq<nat>>, intervals: seq<Interval>, prefixes: seq<nat>, hits: seq<nat>, start: nat, end: nat, next: nat,
                left: nat, right: nat, c: nat)
    requires Layout(intervals, prefixes) && intervals != [] && |hits| == intervals[|intervals| - 1].1 + 1
    requires IsFull(full, intervals, prefixes, hits)
    requires Run(hits, start, end, next) && Boundary(intervals, next, c)
    requires left <= right < |intervals| && In(intervals[left], start) && In(intervals[right], end - 1)
    ensures left <= c
    ensures Flatten(full[left..c]) == RunBlocks(intervals, prefixes, start, end, left, right)
  {
    if c < right { Ordered(intervals, prefixes, c, right); }
    EndsOfRun(intervals, prefixes, hits, start, end, next, left, right);
    RunCollected(full, intervals, prefixes, hits, start, end, left, right);
    if c == right {
      LastNotFull(full, intervals, prefixes, hits, end, next, right);
    } else {
      AfterRun(full, intervals, prefixes, hits, end, next, right, c);
    }
    Trim(full, left, right, c);
  }

  lemma Trim(full: seq<seq<nat>>, left: nat, right: nat, c: nat)
    requires left <= right <= c <= |full| && right < |full|
    requires c == right ==> full[right] == []
    requires c > right ==> Flatten(full[right + 1..c]) == []
    ensures Flatten(full[left..c]) == Flatten(full[left..right + 1])
  {
    if c == right {
      FlattenSplit(full, left, right, right + 1);
      FlattenOne(full, right);
    } else {
      FlattenSplit(full, left, right + 1, c);
    }
  }

  lemma LastNotFull(full: seq<seq<nat>>, intervals: seq<Interval>, prefixes: seq<nat>, hits: seq<nat>, end: nat, next: nat, right: nat)
    requires Layout(intervals, prefixes) && intervals != [] && |hits| == intervals[|intervals| - 1].1 + 1
    requires IsFull(full, intervals, prefixes, hits) && right < |full| && 0 < end <= next
    requires In(intervals[right], end - 1) && In(intervals[right], next)
    requires end < |hits| ==> hits[end] == 0
    ensures full[right] == []
  {
    assert In(intervals[right], end);
    InRows(intervals, prefixes, hits, right);
    assert FullAt(full, intervals, prefixes, hits, right);
  }

  lemma AfterRun(full: seq<seq<nat>>, intervals: seq<Interval>, prefixes: seq<nat>, hits: seq<nat>, end: nat, next: nat, right: nat, c: nat)
    requires Layout(intervals, prefixes) && IsFull(full, intervals, prefixes, hits)
    requires right < c && Boundary(intervals, next, c)
    requires 0 < end <= next <= |hits| && In(intervals[right], end - 1)
    requires forall row :: end <= row < next ==> hits[row] == 0
    ensures Flatten(full[right + 1..c]) == []
  {
    forall i | right + 1 <= i < c ensures end <= intervals[i].0 <= intervals[i].1 < next {
      Ordered(intervals, prefixes, right, i);
      if c < |intervals| { Ordered(intervals, prefixes, i, c); }
    }
    ZerosNotFull(full, intervals, prefixes, hits, end, next, right + 1, c);
  }

  // ---------------------------------------------------------------- partially hit blocks

  ghost predicate HasHit(iv: Interval, hits: seq<nat>) {
    exists row :: 0 <= row < |hits| && In(iv, row) && hits[row] == 1
  }

  /** The pieces for all rows below `bound`. */
  ghost predicate Exact(intervals: seq<Interval>, prefixes: seq<nat>, hits: seq<nat>, res: seq<Piece>, bound: nat) {
    && WellPlaced(intervals, prefixes, res)
    && (forall i :: 0 <= i < |res| ==> res[i].0.1 < bound)
    && (forall row, b :: 0 <= row < bound && row < |hits| && 0 <= b < |intervals| && In(intervals[b], row) ==>
          (Covered(res, row) <==> hits[row] == 0 && HasHit(intervals[b], hits)))
  }

  /** A maximal run of unhit rows `start..end`, followed by hit rows up to `next`. */
  ghost predicate Gap(hits: seq<nat>, start: nat, end: nat, next: nat) {
    && start < end <= next <= |hits|
    && (start > 0 ==> hits[start - 1] == 1)
    && (forall row :: start <= row < end ==> hits[row] == 0)
    && (forall row :: end <= row < next ==> hits[row] == 1)
    && (end < |hits| ==> hits[end] == 1)
  }

  /** A block that meets the gap has a hit exactly when the gap does not cover it. */
  lemma HitOutsideGap(iv: Interval, hits: seq<nat>, start: nat, end: nat, next: nat)
    requires Gap(hits, start, end, next) && iv.0 <= iv.1 < |hits| && iv.0 < end && start <= iv.1
    ensures HasHit(iv, hits) <==> !Inside(iv, start, end - 1)
  {
    if iv.0 < start { assert In(iv, start - 1) && hits[start - 1] == 1; }
    if iv.1 >= end { assert In(iv, end) && hits[end] == 1; }
  }

  lemma CoveredAppend(res: seq<Piece>, more: seq<Piece>, row: nat)
    ensures Covered(res + more, row) <==> Covered(res, row) || Covered(more, row)
  {
    var all := res + more;
    if Covered(res, row) {
      var i :| 0 <= i < |res| && In(res[i].0, row);
      assert In(all[i].0, row);
    }
    if Covered(more, row) {
      var i :| 0 <= i < |more| && In(more[i].0, row);
      assert In(all[|res| + i].0, row);
    }
  }

  lemma PlacedAppend(intervals: seq<Interval>, prefixes: seq<nat>, res: seq<Piece>, more: seq<Piece>, start: nat)
    requires WellPlaced(intervals, prefixes, res) && WellPlaced(intervals, prefixes, more)
    requires forall i :: 0 <= i < |res| ==> res[i].0.1 < start
    requires forall i :: 0 <= i < |more| ==> start <= more[i].0.0
    ensures WellPlaced(intervals, prefixes, res + more)
  {
    var all := res + more;
    forall i | 0 <= i < |all| ensures InOneBlock(intervals, prefixes, all[i]) {
      assert all[i] == if i < |res| then res[i] else more[i - |res|];
    }
  }

  lemma RowOfGap(intervals: seq<Interval>, prefixes: seq<nat>, hits: seq<nat>, res: seq<Piece>, start: nat, end: nat, next: nat,
                 more: seq<Piece>, row: nat, b: nat)
    requires Layout(intervals, prefixes) && intervals != [] && |hits| == intervals[|intervals| - 1].1 + 1
    requires Gap(hits, start, end, next) && Exact(intervals, prefixes, hits, res, start)
    requires PiecesOf(intervals, prefixes, start, end - 1, more)
    requires row < next && b < |intervals| && In(intervals[b], row)
    ensures Covered(res + more, row) <==> hits[row] == 0 && HasHit(intervals[b], hits)
  {
    CoveredAppend(res, more, row);
    if start <= row < end {
      InRows(intervals, prefixes, hits, b);
      HitOutsideGap(intervals[b], hits, start, end, next);
    }
  }

  lemma PartialStep(intervals: seq<Interval>, prefixes: seq<nat>, hits: seq<nat>, res: seq<Piece>, start: nat, end: nat, next: nat,
                    more: seq<Piece>)
    requires Layout(intervals, prefixes) && intervals != [] && |hits| == intervals[|intervals| - 1].1 + 1
    requires Gap(hits, start, end, next) && Exact(intervals, prefixes, hits, res, start)
    requires PiecesOf(intervals, prefixes, start, end - 1, more)
    ensures Exact(intervals, prefixes, hits, res + more, next)
  {
    PlacedAppend(intervals, prefixes, res, more, start);
    forall row, b | 0 <= row < next && 0 <= b < |intervals| && In(intervals[b], row)
      ensures Covered(res + more, row) <==> hits[row] == 0 && HasHit(intervals[b], hits)
    {
      RowOfGap(intervals, prefixes, hits, res, start, end, next, more, row, b);
    }
  }

  // ---------------------------------------------------------------- grouping by chunk

  const USIZE: nat := 0x1_0000_0000_0000_0000

  function WrappingInc(i: nat): nat { (i + 1) % USIZE }

  function WrappingDec(i: nat): nat { (i + USIZE - 1) % USIZE }

  /** The wrap-around below zero is undone by the increment that follows it. */
  lemma WrapBack(i: nat)
    requires i < USIZE
    ensures WrappingInc(WrappingDec(i)) == i
  {
  }

  /** The pieces of one chunk with the chunk's index. */
  type Group = (seq<Piece>, nat)

  ghost function PiecesIn(groups: seq<Group>): seq<seq<Piece>> {
    seq(|groups|, i requires 0 <= i < |groups| => groups[i].0)
  }

  ghost predicate EndsOrdered(pieces: seq<Piece>) {
    forall i, j :: 0 <= i < j < |pieces| ==> pieces[i].0.1 <= pieces[j].0.1
  }

  /** `c` is the first chunk whose bound exceeds the end of `p`. */
  ghost predicate Filed(p: Piece, bounds: seq<nat>, c: nat) {
    && c < |bounds| && p.0.1 < bounds[c]
    && forall j :: 0 <= j < c ==> bounds[j] <= p.0.1
  }

  /** Non-empty groups with increasing chunk indexes below `limit`, every piece in its own chunk. */
  ghost predicate Grouped(groups: seq<Group>, bounds: seq<nat>, limit: nat) {
    && (forall g :: 0 <= g < |groups| ==> groups[g].0 != [] && groups[g].1 < limit)
    && (forall g, h :: 0 <= g < h < |groups| ==> groups[g].1 < groups[h].1)
    && (forall g, i :: 0 <= g < |groups| && 0 <= i < |groups[g].0| ==> Filed(groups[g].0[i], bounds, groups[g].1))
  }

  /** Push a piece on the last group, or on a new one for this chunk. */
  function Push(groups: seq<Group>, newChunk: bool, chunk: nat, p: Piece): seq<Group>
    requires newChunk || groups != []
  {
    if newChunk then groups + [([p], chunk)]
    else groups[|groups| - 1 := (groups[|groups| - 1].0 + [p], groups[|groups| - 1].1)]
  }

  lemma PushFlat(groups: seq<Group>, newChunk: bool, chunk: nat, p: Piece)
    requires newChunk || groups != []
    ensures Flatten(PiecesIn(Push(groups, newChunk, chunk, p))) == Flatten(PiecesIn(groups)) + [p]
  {
    var parts, pushed := PiecesIn(groups), PiecesIn(Push(groups, newChunk, chunk, p));
    var n := |groups| - 1;
    if newChunk {
      assert pushed == parts + [[p]];
      FlattenAppend(parts, [[p]]);
      FlattenOne([[p]], 0);
      assert [[p]][0..1] == [[p]];
    } else {
      assert parts == parts[..n] + [parts[n]] && pushed == parts[..n] + [parts[n] + [p]];
      FlattenAppend(parts[..n], [parts[n]]);
      FlattenAppend(parts[..n], [parts[n] + [p]]);
      assert Flatten([parts[n]]) == parts[n] + [] && Flatten([parts[n] + [p]]) == parts[n] + [p] + [];
    }
  }

  /** The groups so far, while the loop is at chunk `chunk`; an open group belongs to that chunk. */
  ghost predicate Grouping(groups: seq<Group>, bounds: seq<nat>, newChunk: bool, chunk: nat) {
    if newChunk then Grouped(groups, bounds, chunk)
    else groups != [] && groups[|groups| - 1].1 == chunk && Grouped(groups, bounds, chunk + 1)
  }

  lemma PushGrouped(groups: seq<Group>, bounds: seq<nat>, newChunk: bool, chunk: nat, p: Piece)
    requires Grouping(groups, bounds, newChunk, chunk) && Filed(p, bounds, chunk)
    ensures Grouping(Push(groups, newChunk, chunk, p), bounds, false, chunk)
  {
  }

  lemma CloseGroup(groups: seq<Group>, bounds: seq<nat>, newChunk: bool, chunk: nat)
    requires Grouping(groups, bounds, newChunk, chunk)
    ensures Grouping(groups, bounds, true, chunk + 1)
  {
  }

  lemma GroupedAtEnd(groups: seq<Group>, bounds: seq<nat>, newChunk: bool, chunk: nat)
    requires Grouping(groups, bounds, newChunk, chunk) && chunk <= |bounds| && (!newChunk ==> chunk < |bounds|)
    ensures Grouped(groups, bounds, |bounds|)
  {
  }

  method FileNext(pieces: seq<Piece>, ghost bounds: seq<nat>, groups: seq<Group>, newChunk: bool, chunk: nat, i: nat)
    returns (res: seq<Group>)
    requires i < |pieces| && Filed(pieces[i], bounds, chunk) && Grouping(groups, bounds, newChunk, chunk)
    requires Flatten(PiecesIn(groups)) == pieces[..i]
    ensures Grouping(res, bounds, false, chunk) && Flatten(PiecesIn(res)) == pieces[..i + 1]
  {
    PushGrouped(groups, bounds, newChunk, chunk, pieces[i]);
    PushFlat(groups, newChunk, chunk, pieces[i]);
    res := Push(groups, newChunk, chunk, pieces[i]);
    assert pieces[..i + 1] == pieces[..i] + [pieces[i]];
  }

  /** `chunk_offsets`: a stable grouping of the pieces by chunk.  It keeps all of them exactly when
      some bound exceeds the last end, and otherwise stops at the first piece past every bound. */
  method ChunkOffsets(pieces: seq<Piece>, bounds: seq<nat>) returns (res: seq<Group>)
    requires bounds == [] ==> pieces == []
    requires EndsOrdered(pieces) && |pieces| < USIZE
    ensures Grouped(res, bounds, |bounds|)
    ensures Flatten(PiecesIn(res)) <= pieces
    ensures var n := |Flatten(PiecesIn(res))|;
      n < |pieces| ==> forall c :: 0 <= c < |bounds| ==> bounds[c] <= pieces[n].0.1
    ensures Flatten(PiecesIn(res)) == pieces <==> Reached(pieces, bounds)
  {
    res := [];
    if pieces == [] || bounds == [] {
      return;
    }
    var chunk, i, newChunk := 0, 0, true;
    while chunk < |bounds| && i < |pieces|
      invariant 0 <= chunk <= |bounds| && 0 <= i <= |pieces|
      invariant Grouping(res, bounds, newChunk, chunk) && (!newChunk ==> chunk < |bounds|)
      invariant Flatten(PiecesIn(res)) == pieces[..i]
      invariant forall c :: 0 <= c < chunk && i < |pieces| ==> bounds[c] <= pieces[i].0.1
      decreases |bounds| - chunk, |pieces| - i
    {
      if pieces[i].0.1 < bounds[chunk] {
        res := FileNext(pieces, bounds, res, newChunk, chunk, i);
        newChunk := false;
      } else {
        CloseGroup(res, bounds, newChunk, chunk);
        newChunk := true;
        chunk := chunk + 1;
        WrapBack(i);
        i := WrappingDec(i);
      }
      i := WrappingInc(i);
    }
    GroupedAtEnd(res, bounds, newChunk, chunk);
    KeptIff(pieces, bounds, res);
  }

  /** Some bound exceeds the last end. */
  ghost predicate Reached(pieces: seq<Piece>, bounds: seq<nat>) {
    pieces == [] || exists c :: 0 <= c < |bounds| && pieces[|pieces| - 1].0.1 < bounds[c]
  }

  /** A chunk of two rows and a piece that ends at row 3: the piece is lost. */
  method PieceDropped() returns (res: seq<Group>)
    ensures Flatten(PiecesIn(res)) == [((0, 1), 7)]
  {
    var pieces: seq<Piece>, bounds := [((0, 1), 7), ((2, 3), 7)], [2];
    res := ChunkOffsets(pieces, bounds);
    ghost var kept := Flatten(PiecesIn(res));
    assert bounds[0] > pieces[0].0.1 && !Reached(pieces, bounds);
    assert |kept| == 1 && kept[0] == pieces[0];
  }

  /** Every piece is kept exactly when some bound exceeds the last end. */
  lemma KeptIff(pieces: seq<Piece>, bounds: seq<nat>, res: seq<Group>)
    requires EndsOrdered(pieces) && Grouped(res, bounds, |bounds|) && Flatten(PiecesIn(res)) <= pieces
    requires var n := |Flatten(PiecesIn(res))|;
      n < |pieces| ==> forall c :: 0 <= c < |bounds| ==> bounds[c] <= pieces[n].0.1
    ensures Flatten(PiecesIn(res)) == pieces <==> Reached(pieces, bounds)
  {
    var flat := Flatten(PiecesIn(res));
    if flat == pieces && pieces != [] {
      var g := LastGroup(res);
      assert Filed(res[g].0[|res[g].0| - 1], bounds, res[g].1);
    }
    if |flat| < |pieces| && |flat| < |pieces| - 1 {
      assert pieces[|flat|].0.1 <= pieces[|pieces| - 1].0.1;
    }
  }

  /** The last group ends with the last piece. */
  lemma LastGroup(groups: seq<Group>) returns (g: nat)
    requires Flatten(PiecesIn(groups)) != [] && forall g :: 0 <= g < |groups| ==> groups[g].0 != []
    ensures g < |groups| && groups[g].0 != []
    ensures var flat := Flatten(PiecesIn(groups)); groups[g].0[|groups[g].0| - 1] == flat[|flat| - 1]
  {
    var parts := PiecesIn(groups);
    g := |groups| - 1;
    assert parts == parts[..g] + [parts[g]];
    FlattenAppend(parts[..g], [parts[g]]);
    assert Flatten([parts[g]]) == parts[g] + [];
  }
}
