/** Writing a nested column (`encode_chunk` of write/common.rs): each leaf with its path, cut into pages
    of rows, and the rows read back from them. */
module NestedPages {
  import opened Nested
  import opened Options

  /** The rows of the page that starts at `offset`. */
  function PageLength(length: nat, pageSize: nat, offset: nat): (r: nat)
    requires offset <= length
    ensures offset + r <= length
  {
    if offset + pageSize > length then length - offset else pageSize
  }

  /** The windows the writer cuts from `offset` on. */
  ghost function Windows(length: nat, pageSize: nat, offset: nat): (ws: seq<Window>)
    requires pageSize > 0
    ensures forall k :: 0 <= k < |ws| ==> Fits(ws[k], length)
    decreases length - offset
  {
    if offset >= length then []
    else [Window(offset, PageLength(length, pageSize, offset))] + Windows(length, pageSize, offset + pageSize)
  }

  /** A part that can be cut at every window of a column of that length. */
  ghost predicate Cuttable(p: Part, length: nat) {
    LeafPath(p.path) && forall w :: Fits(w, length) ==> PartFits(p, w)
  }

  method CutPage(leaf: seq<int>, path: seq<Nested>, offset: nat, length: nat) returns (page: Part)
    requires LeafPath(path) && PartFits(Part(path, leaf), Window(offset, length))
    ensures page == SlicePart(Part(path, leaf), Window(offset, length))
  {
    var nested := new Nested[|path|](i requires 0 <= i < |path| => path[i]);
    assert nested[..] == path;
    var cut := SliceNestColumn(leaf, nested, offset, length);
    page := Part(nested[..], cut);
  }

  /** The pages of one leaf are its part at every window. */
  ghost predicate Cut(p: Part, ws: seq<Window>, pages: seq<Part>) {
    |pages| == |ws| && forall k :: 0 <= k < |ws| ==> PartFits(p, ws[k]) && pages[k] == SlicePart(p, ws[k])
  }

  /** The loop over the pages of one leaf. */
  method CutLeaf(leaf: seq<int>, path: seq<Nested>, length: nat, pageSize: nat) returns (pages: seq<Part>)
    requires pageSize > 0 && Cuttable(Part(path, leaf), length)
    ensures Cut(Part(path, leaf), Windows(length, pageSize, 0), pages)
  {
    ghost var ws := Windows(length, pageSize, 0);
    pages := [];
    var offset := 0;
    while offset < length
      invariant |pages| <= |ws| && ws[|pages|..] == Windows(length, pageSize, offset)
      invariant forall k :: 0 <= k < |pages| ==> pages[k] == SlicePart(Part(path, leaf), ws[k])
      decreases length - offset
    {
      WindowsSplit(length, pageSize, ws, |pages|, offset);
      var page := CutPage(leaf, path, offset, PageLength(length, pageSize, offset));
      pages := pages + [page];
      offset := offset + pageSize;
    }
  }

  lemma WrittenCuttable(c: Column, i: nat)
    requires WellFormed(c) && i < |Written(c)| && Len(c) >= 0
    ensures Cuttable(Written(c)[i], Len(c))
  {
    WalksAlign(c, []);
    FlattenShape(c, []);
    forall w | Fits(w, Len(c)) ensures PartFits(Written(c)[i], w) {
      SliceRoundTrip(c, w);
    }
  }

  /** The parts of one page: the same page of every leaf. */
  ghost function PageOf(pages: seq<seq<Part>>, k: nat): seq<Part>
    requires forall j :: 0 <= j < |pages| ==> k < |pages[j]|
  {
    seq(|pages|, j requires 0 <= j < |pages| => pages[j][k])
  }

  /** The loop over the leaves. */
  method CutLeaves(leaves: seq<seq<int>>, nested: seq<seq<Nested>>, length: nat, pageSize: nat) returns (pages: seq<seq<Part>>)
    requires pageSize > 0 && |leaves| == |nested|
    requires forall i :: 0 <= i < |leaves| ==> Cuttable(Part(nested[i], leaves[i]), length)
    ensures |pages| == |leaves|
    ensures forall j :: 0 <= j < |pages| ==> Cut(Part(nested[j], leaves[j]), Windows(length, pageSize, 0), pages[j])
  {
    pages := [];
    for i := 0 to |leaves|
      invariant |pages| == i
      invariant forall j :: 0 <= j < i ==> Cut(Part(nested[j], leaves[j]), Windows(length, pageSize, 0), pages[j])
    {
      var cut := CutLeaf(leaves[i], nested[i], length, pageSize);
      pages := pages + [cut];
    }
  }

  /** `encode_chunk` on one column: the two walks, paired up, and every leaf cut into pages. */
  method EncodeColumn(c: Column, pageSize: nat) returns (pages: seq<seq<Part>>)
    requires WellFormed(c) && pageSize > 0
    ensures |pages| == LeafCount(TypeOf(c)) && Len(c) >= 0
    ensures forall j :: 0 <= j < |pages| ==> |pages[j]| == |Windows(Len(c), pageSize, 0)|
    ensures ReadPages(TypeOf(c), pages, |Windows(Len(c), pageSize, 0)|, 0) == Rows(c)
  {
    LenIsNat(c);
    WalksAlign(c, []);
    FlattenFits(c, [], Window(0, 0));
    ghost var ws, parts := Windows(Len(c), pageSize, 0), Written(c);
    var nested := ToNested(c, [], []);
    var leaves := ToLeaves(c, []);
    assert nested == PathsOf(c, []) && leaves == LeavesOf(c);
    ZipSize(nested, leaves);
    forall i | 0 <= i < |leaves| ensures Cuttable(Part(nested[i], leaves[i]), Len(c)) {
      ZipAt(nested, leaves, i);
      WrittenCuttable(c, i);
    }
    pages := CutLeaves(leaves, nested, Len(c), pageSize);
    forall j | 0 <= j < |pages| ensures Cut(parts[j], ws, pages[j]) {
      ZipAt(nested, leaves, j);
    }
    assert ws[0..] == ws;
    PagesRoundTrip(c, pageSize, ws, pages, 0, 0);
    assert Rows(c)[0..] == Rows(c);
  }

  ghost function RowsOf(r: Option<ReadState>): seq<Value> {
    if r.Some? && WellFormed(r.value.column) then Rows(r.value.column) else []
  }

  /** The rows read back from pages `k` to `n`. */
  ghost function ReadPages(t: DataType, pages: seq<seq<Part>>, n: nat, k: nat): seq<Value>
    requires forall j :: 0 <= j < |pages| ==> n <= |pages[j]|
    decreases n - k
  {
    if k >= n then [] else RowsOf(Read(t, PageOf(pages, k))) + ReadPages(t, pages, n, k + 1)
  }

  ghost predicate AllCut(c: Column, ws: seq<Window>, pages: seq<seq<Part>>)
    requires WellFormed(c)
  {
    && |pages| == |Written(c)|
    && forall j :: 0 <= j < |pages| ==> |pages[j]| == |ws| && Cut(Written(c)[j], ws, pages[j])
  }

  lemma PageIsSlice(c: Column, ws: seq<Window>, pages: seq<seq<Part>>, k: nat)
    requires WellFormed(c) && AllCut(c, ws, pages) && k < |ws| && Fits(ws[k], Len(c))
    ensures RowsOf(Read(TypeOf(c), PageOf(pages, k))) == Rows(c)[ws[k].offset..ws[k].offset + ws[k].length]
  {
    SliceRoundTrip(c, ws[k]);
    assert PageOf(pages, k) == SliceParts(Written(c), ws[k]);
  }

  ghost function RowsFrom(rows: seq<Value>, offset: nat): seq<Value> {
    if offset < |rows| then rows[offset..] else []
  }

  lemma FirstPage(rows: seq<Value>, pageSize: nat, offset: nat)
    requires offset < |rows|
    ensures rows[offset..offset + PageLength(|rows|, pageSize, offset)] + RowsFrom(rows, offset + pageSize) == RowsFrom(rows, offset)
  {
  }

  /** Reading page after page gives back the rows of the column. */
  lemma {:induction false} PagesRoundTrip(c: Column, pageSize: nat, ws: seq<Window>, pages: seq<seq<Part>>, k: nat, offset: nat)
    requires WellFormed(c) && pageSize > 0 && Len(c) >= 0 && AllCut(c, ws, pages)
    requires k <= |ws| && ws[k..] == Windows(Len(c), pageSize, offset)
    ensures ReadPages(TypeOf(c), pages, |ws|, k) == RowsFrom(Rows(c), offset)
    decreases Len(c) - offset
  {
    if offset < Len(c) {
      WindowsSplit(Len(c), pageSize, ws, k, offset);
      PageIsSlice(c, ws, pages, k);
      PagesRoundTrip(c, pageSize, ws, pages, k + 1, offset + pageSize);
      FirstPage(Rows(c), pageSize, offset);
    }
  }

  lemma WindowsSplit(length: nat, pageSize: nat, ws: seq<Window>, k: nat, offset: nat)
    requires pageSize > 0 && offset < length && k <= |ws| && ws[k..] == Windows(length, pageSize, offset)
    ensures k < |ws| && ws[k] == Window(offset, PageLength(length, pageSize, offset)) && Fits(ws[k], length)
    ensures ws[k + 1..] == Windows(length, pageSize, offset + pageSize)
  {
    assert ws[k..][0] == ws[k] && ws[k..][1..] == ws[k + 1..];
  }
}
