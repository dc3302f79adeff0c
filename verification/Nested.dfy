/** Nested columns of the native format (nested.rs): a column tree is flattened into one path per
    leaf, every path is sliced on its own, and the reader rebuilds a column from the sliced paths. */
module Nested {
  import opened Options
  import opened Sequences

  /** A column; a nullable one carries a validity bitmap.  Arrays and maps are both lists. */
  datatype Column = Column(validity: Option<seq<bool>>, body: Body)
  datatype Body =
    | Leaf(values: seq<int>)
    | List(isMap: bool, offsets: seq<nat>, elements: Column)
    | Tuple(fields: seq<Column>)

  datatype DataType = DataType(nullable: bool, shape: Shape)
  datatype Shape = TLeaf | TList(isMap: bool, element: DataType) | TTuple(fields: seq<DataType>)

  /** One level of a leaf's path. */
  datatype Nested =
    | Primitive(len: nat, isNullable: bool, validity: Option<seq<bool>>)
    | LargeList(isNullable: bool, offsets: seq<nat>, validity: Option<seq<bool>>)
    | Struct(len: nat, isNullable: bool, validity: Option<seq<bool>>)

  /** A leaf column with its path: what is written for one leaf. */
  datatype Part = Part(path: seq<Nested>, leaf: seq<int>)

  function Len(c: Column): int {
    match c.body
    case Leaf(v) => |v|
    case List(_, offsets, _) => |offsets| - 1
    case Tuple(fields) => if fields == [] then 0 else Len(fields[0])
  }

  ghost predicate WellFormed(c: Column) {
    && (c.validity.Some? ==> |c.validity.value| == Len(c))
    && match c.body
       case Leaf(_) => true
       case List(_, offsets, elements) =>
         |offsets| > 0 && Monotone(offsets) && offsets[|offsets| - 1] <= Len(elements) && WellFormed(elements)
       case Tuple(fields) =>
         fields != [] && forall i :: 0 <= i < |fields| ==> WellFormed(fields[i]) && Len(fields[i]) == Len(c)
  }

  function TypeOf(c: Column): DataType {
    DataType(c.validity.Some?,
      match c.body
      case Leaf(_) => TLeaf
      case List(isMap, _, elements) => TList(isMap, TypeOf(elements))
      case Tuple(fields) => TTuple(TypesOf(fields)))
  }

  function TypesOf(cs: seq<Column>): seq<DataType> {
    seq(|cs|, i requires 0 <= i < |cs| => TypeOf(cs[i]))
  }

  // ---------------------------------------------------------------- logical rows

  datatype Value = VNull | VPrim(x: int) | VList(items: seq<Value>) | VTuple(items: seq<Value>)

  ghost function Row(c: Column, i: nat): Value
    requires WellFormed(c) && i < Len(c)
    decreases c
  {
    if c.validity.Some? && !c.validity.value[i] then VNull else
      match c.body
      case Leaf(v) => VPrim(v[i])
      case List(_, offsets, elements) =>
        VList(seq(offsets[i + 1] - offsets[i], j requires 0 <= j < offsets[i + 1] - offsets[i] => Row(elements, offsets[i] + j)))
      case Tuple(fields) => VTuple(seq(|fields|, k requires 0 <= k < |fields| => Row(fields[k], i)))
  }

  ghost function Rows(c: Column): (rows: seq<Value>)
    requires WellFormed(c)
    ensures |rows| == Len(c)
  {
    LenIsNat(c);
    seq(Len(c), i requires 0 <= i < Len(c) => Row(c, i))
  }

  lemma LenIsNat(c: Column)
    requires WellFormed(c)
    ensures Len(c) >= 0
  {
    if c.body.Tuple? { LenIsNat(c.body.fields[0]); }
  }

  // ---------------------------------------------------------------- flattening

  /** The level that a column adds to the paths of its leaves. */
  function Level(c: Column): Nested
    requires Len(c) >= 0
  {
    match c.body
    case Leaf(_) => Primitive(Len(c), c.validity.Some?, c.validity)
    case List(_, offsets, _) => LargeList(c.validity.Some?, offsets, c.validity)
    case Tuple(_) => Struct(Len(c), c.validity.Some?, c.validity)
  }

  /** The paths `to_nested` finds, in depth-first order. */
  ghost function PathsOf(c: Column, parents: seq<Nested>): seq<seq<Nested>>
    requires WellFormed(c)
    decreases c, 1
  {
    LenIsNat(c);
    var parents' := parents + [Level(c)];
    match c.body
    case Leaf(_) => [parents']
    case List(_, _, elements) => PathsOf(elements, parents')
    case Tuple(fields) => PathsOfFields(fields, parents')
  }

  ghost function PathsOfFields(fields: seq<Column>, parents: seq<Nested>): seq<seq<Nested>>
    requires forall i :: 0 <= i < |fields| ==> WellFormed(fields[i])
    decreases fields, 0
  {
    if fields == [] then [] else PathsOf(fields[0], parents) + PathsOfFields(fields[1..], parents)
  }

  /** The leaf columns `to_leaves` finds. */
  ghost function LeavesOf(c: Column): seq<seq<int>>
    decreases c, 1
  {
    match c.body
    case Leaf(v) => [v]
    case List(_, _, elements) => LeavesOf(elements)
    case Tuple(fields) => LeavesOfFields(fields)
  }

  ghost function LeavesOfFields(fields: seq<Column>): seq<seq<int>>
    decreases fields, 0
  {
    if fields == [] then [] else LeavesOf(fields[0]) + LeavesOfFields(fields[1..])
  }

  /** `to_nested_recursive`. */
  method ToNested(c: Column, nested: seq<seq<Nested>>, parents: seq<Nested>) returns (r: seq<seq<Nested>>)
    requires WellFormed(c)
    ensures r == nested + PathsOf(c, parents)
    decreases c
  {
    LenIsNat(c);
    var parents' := parents + [Level(c)];
    match c.body
    case Leaf(_) => r := nested + [parents'];
    case List(_, _, elements) => r := ToNested(elements, nested, parents');
    case Tuple(fields) =>
      r := nested;
      for i := 0 to |fields|
        invariant r + PathsOfFields(fields[i..], parents') == nested + PathsOfFields(fields, parents')
      {
        var rest := fields[i + 1..];
        assert fields[i..][1..] == rest && fields[i..][0] == fields[i];
        ghost var before := r;
        r := ToNested(fields[i], r, parents');
        assert before + (PathsOf(fields[i], parents') + PathsOfFields(rest, parents')) == r + PathsOfFields(rest, parents');
      }
  }

  /** `to_leaves_recursive`. */
  method ToLeaves(c: Column, leaves: seq<seq<int>>) returns (r: seq<seq<int>>)
    ensures r == leaves + LeavesOf(c)
    decreases c
  {
    match c.body
    case Leaf(v) => r := leaves + [v];
    case List(_, _, elements) => r := ToLeaves(elements, leaves);
    case Tuple(fields) =>
      r := leaves;
      for i := 0 to |fields|
        invariant r + LeavesOfFields(fields[i..]) == leaves + LeavesOfFields(fields)
      {
        var rest := fields[i + 1..];
        assert fields[i..][1..] == rest && fields[i..][0] == fields[i];
        ghost var before := r;
        r := ToLeaves(fields[i], r);
        assert before + (LeavesOf(fields[i]) + LeavesOfFields(rest)) == r + LeavesOfFields(rest);
      }
  }

  /** A leaf column with each path, as the writer zips the two walks. */
  ghost function Zip(paths: seq<seq<Nested>>, leaves: seq<seq<int>>): seq<Part> {
    if paths == [] || leaves == [] then [] else [Part(paths[0], leaves[0])] + Zip(paths[1..], leaves[1..])
  }

  lemma {:induction false} ZipAppend(p: seq<seq<Nested>>, l: seq<seq<int>>, q: seq<seq<Nested>>, m: seq<seq<int>>)
    requires |p| == |l|
    ensures Zip(p + q, l + m) == Zip(p, l) + Zip(q, m)
  {
    if p == [] {
      assert p + q == q && l + m == m;
    } else {
      ZipAppend(p[1..], l[1..], q, m);
      assert (p + q)[1..] == p[1..] + q && (l + m)[1..] == l[1..] + m;
    }
  }

  /** The two walks, made independently, align: zipped they give each leaf its own path. */
  lemma {:induction false} WalksAlign(c: Column, parents: seq<Nested>)
    requires WellFormed(c)
    ensures |PathsOf(c, parents)| == |LeavesOf(c)| && Zip(PathsOf(c, parents), LeavesOf(c)) == Flatten(c, parents)
    decreases c, 1
  {
    LenIsNat(c);
    var parents' := parents + [Level(c)];
    match c.body
    case Leaf(v) => assert Zip([parents'], [v]) == [Part(parents', v)];
    case List(_, _, elements) => WalksAlign(elements, parents');
    case Tuple(fields) => FieldWalksAlign(fields, parents');
  }

  lemma {:induction false} FieldWalksAlign(fields: seq<Column>, parents: seq<Nested>)
    requires forall i :: 0 <= i < |fields| ==> WellFormed(fields[i])
    ensures |PathsOfFields(fields, parents)| == |LeavesOfFields(fields)|
    ensures Zip(PathsOfFields(fields, parents), LeavesOfFields(fields)) == FlattenFields(fields, parents)
    decreases fields, 0
  {
    if fields != [] {
      WalksAlign(fields[0], parents);
      FieldWalksAlign(fields[1..], parents);
      ZipAppend(PathsOf(fields[0], parents), LeavesOf(fields[0]), PathsOfFields(fields[1..], parents), LeavesOfFields(fields[1..]));
    }
  }

  lemma {:induction false} ZipAt(paths: seq<seq<Nested>>, leaves: seq<seq<int>>, i: nat)
    requires |paths| == |leaves| && i < |paths|
    ensures |Zip(paths, leaves)| == |paths| && Zip(paths, leaves)[i] == Part(paths[i], leaves[i])
  {
    if |paths| > 1 { ZipAt(paths[1..], leaves[1..], if i > 0 then i - 1 else 0); }
  }

  lemma {:induction false} ZipSize(paths: seq<seq<Nested>>, leaves: seq<seq<int>>)
    requires |paths| == |leaves|
    ensures |Zip(paths, leaves)| == |paths|
  {
    if paths != [] { ZipSize(paths[1..], leaves[1..]); }
  }

  /** What the writer pairs up for a whole column. */
  ghost function Written(c: Column): seq<Part>
    requires WellFormed(c)
  {
    Zip(PathsOf(c, []), LeavesOf(c))
  }

  /** Each leaf with the levels above it. */
  ghost function Flatten(c: Column, parents: seq<Nested>): seq<Part>
    requires WellFormed(c)
    decreases c, 1
  {
    LenIsNat(c);
    var parents' := parents + [Level(c)];
    match c.body
    case Leaf(v) => [Part(parents', v)]
    case List(_, _, elements) => Flatten(elements, parents')
    case Tuple(fields) => FlattenFields(fields, parents')
  }

  ghost function FlattenFields(fields: seq<Column>, parents: seq<Nested>): seq<Part>
    requires forall i :: 0 <= i < |fields| ==> WellFormed(fields[i])
    decreases fields, 0
  {
    if fields == [] then [] else Flatten(fields[0], parents) + FlattenFields(fields[1..], parents)
  }

  // ---------------------------------------------------------------- slicing one path

  datatype Window = Window(offset: nat, length: nat)

  predicate Fits(w: Window, n: int) { w.offset + w.length <= n }

  function SliceValidity(v: Option<seq<bool>>, w: Window): Option<seq<bool>>
    requires v.Some? ==> Fits(w, |v.value|)
  {
    if v.Some? then Some(v.value[w.offset..w.offset + w.length]) else None
  }

  /** A level can be sliced at the window. */
  predicate CanSlice(n: Nested, w: Window) {
    && (n.validity.Some? ==> Fits(w, |n.validity.value|))
    && (n.LargeList? ==> Fits(w, |n.offsets| - 1) && n.offsets[w.offset] <= n.offsets[w.offset + w.length])
  }

  function SliceLevel(n: Nested, w: Window): Nested
    requires CanSlice(n, w)
  {
    var v := SliceValidity(n.validity, w);
    match n
    case Primitive(_, b, _) => Primitive(w.length, b, v)
    case Struct(_, b, _) => Struct(w.length, b, v)
    case LargeList(b, offsets, _) => LargeList(b, offsets[w.offset..w.offset + w.length + 1], v)
  }

  /** The window of the next level: a list moves it to its elements. */
  function NextWindow(n: Nested, w: Window): Window
    requires CanSlice(n, w)
  {
    if n.LargeList? then Window(n.offsets[w.offset], n.offsets[w.offset + w.length] - n.offsets[w.offset]) else w
  }

  predicate CanSlicePath(path: seq<Nested>, w: Window) {
    path == [] || (CanSlice(path[0], w) && CanSlicePath(path[1..], NextWindow(path[0], w)))
  }

  function SlicePath(path: seq<Nested>, w: Window): (r: seq<Nested>)
    requires CanSlicePath(path, w)
    ensures |r| == |path|
  {
    if path == [] then [] else [SliceLevel(path[0], w)] + SlicePath(path[1..], NextWindow(path[0], w))
  }

  function LastWindow(path: seq<Nested>, w: Window): Window
    requires CanSlicePath(path, w)
  {
    if path == [] then w else LastWindow(path[1..], NextWindow(path[0], w))
  }

  /** A path runs through lists and structs and ends in a primitive level. */
  ghost predicate LeafPath(path: seq<Nested>) {
    path != [] && forall i :: 0 <= i < |path| ==> (path[i].Primitive? <==> i == |path| - 1)
  }

  /** One iteration of `slice_nest_column`. */
  method SliceOne(n: Nested, o: nat, l: nat) returns (n': Nested, o': nat, l': nat)
    requires CanSlice(n, Window(o, l))
    ensures n' == SliceLevel(n, Window(o, l)) && Window(o', l') == NextWindow(n, Window(o, l))
  {
    match n
    case LargeList(b, offsets, validity) =>
      var offsets' := offsets[o..o + l + 1];
      n' := LargeList(b, offsets', SliceValidity(validity, Window(o, l)));
      o', l' := offsets'[0], offsets'[|offsets'| - 1] - offsets'[0];
    case Struct(_, b, validity) =>
      n', o', l' := Struct(l, b, SliceValidity(validity, Window(o, l))), o, l;
    case Primitive(_, b, validity) =>
      n', o', l' := Primitive(l, b, SliceValidity(validity, Window(o, l))), o, l;
  }

  /** `slice_nest_column`: the path is sliced in place, level by level, while the running offset and
      length follow the lists down to the leaf. */
  method SliceNestColumn(leaf: seq<int>, nested: array<Nested>, offset: nat, length: nat) returns (leaf': seq<int>)
    requires CanSlicePath(nested[..], Window(offset, length)) && Fits(LastWindow(nested[..], Window(offset, length)), |leaf|)
    requires LeafPath(nested[..])
    modifies nested
    ensures nested[..] == SlicePath(old(nested[..]), Window(offset, length))
    ensures var w := LastWindow(old(nested[..]), Window(offset, length)); leaf' == leaf[w.offset..w.offset + w.length]
  {
    ghost var path, w0 := nested[..], Window(offset, length);
    var o, l := offset, length;
    leaf' := leaf;
    for i := 0 to nested.Length
      invariant Window(o, l) == WindowAt(path, w0, i)
      invariant forall k :: i <= k < nested.Length ==> nested[k] == path[k]
      invariant forall k :: 0 <= k < i ==> nested[k] == SlicePath(path, w0)[k]
      invariant i == nested.Length ==> Window(o, l) == LastWindow(path, w0)
      invariant leaf' == if i < nested.Length then leaf else leaf[o..o + l]
    {
      WindowStep(path, w0, i);
      if nested[i].Primitive? {
        leaf' := leaf[o..o + l];
      }
      nested[i], o, l := SliceOne(nested[i], o, l);
    }
  }

  /** The running offset and length before level `i`. */
  ghost function WindowAt(path: seq<Nested>, w: Window, i: nat): Window
    requires CanSlicePath(path, w) && i <= |path|
    decreases i
  {
    if i == 0 then w else WindowAt(path[1..], NextWindow(path[0], w), i - 1)
  }

  lemma {:induction false} WindowStep(path: seq<Nested>, w: Window, i: nat)
    requires CanSlicePath(path, w) && i < |path|
    ensures CanSlice(path[i], WindowAt(path, w, i))
    ensures WindowAt(path, w, i + 1) == NextWindow(path[i], WindowAt(path, w, i))
    ensures i + 1 == |path| ==> WindowAt(path, w, i + 1) == LastWindow(path, w)
    ensures |SlicePath(path, w)| == |path| && SlicePath(path, w)[i] == SliceLevel(path[i], WindowAt(path, w, i))
    decreases i
  {
    if i > 0 {
      WindowStep(path[1..], NextWindow(path[0], w), i - 1);
    } else if |path| == 1 {
      assert path[1..] == [];
    }
  }

  lemma {:induction false} PathAppend(path: seq<Nested>, n: Nested, w: Window)
    requires CanSlicePath(path, w) && CanSlice(n, LastWindow(path, w))
    ensures CanSlicePath(path + [n], w)
    ensures SlicePath(path + [n], w) == SlicePath(path, w) + [SliceLevel(n, LastWindow(path, w))]
    ensures LastWindow(path + [n], w) == NextWindow(n, LastWindow(path, w))
    decreases |path|
  {
    if path == [] {
      assert path + [n] == [n];
    } else {
      PathAppend(path[1..], n, NextWindow(path[0], w));
      assert (path + [n])[1..] == path[1..] + [n];
    }
  }

  // ---------------------------------------------------------------- reading back

  /** `inner` can subtract the first offset from all of them. */
  predicate CanRebase(offsets: seq<nat>) {
    offsets != [] && forall i :: 0 <= i < |offsets| ==> offsets[0] <= offsets[i]
  }

  /** The offsets as `inner` returns them: starting at zero. */
  function Rebase(offsets: seq<nat>): seq<nat>
    requires CanRebase(offsets)
  {
    seq(|offsets|, i requires 0 <= i < |offsets| => offsets[i] - offsets[0])
  }

  /** `wrap_nullable` for nullable types. */
  function Wrap(nullable: bool, validity: Option<seq<bool>>, body: Body): Column {
    if !nullable then Column(None, body)
    else if validity.Some? then Column(validity, body)
    else
      var n := Len(Column(None, body));
      Column(Some(seq(if n < 0 then 0 else n, _ => true)), body)
  }

  function LeafCount(t: DataType): nat
    decreases t, 1
  {
    match t.shape
    case TLeaf => 1
    case TList(_, element) => LeafCount(element)
    case TTuple(fields) => LeafCounts(fields)
  }

  function LeafCounts(ts: seq<DataType>): nat
    decreases ts, 0
  {
    if ts == [] then 0 else LeafCount(ts[0]) + LeafCounts(ts[1..])
  }

  datatype ReadState = ReadState(nested: seq<Nested>, column: Column)

  function Columns(sts: seq<ReadState>): seq<Column> {
    seq(|sts|, i requires 0 <= i < |sts| => sts[i].column)
  }

  /** Pops the level of the column just read and builds that column around `body`. */
  function Create(t: DataType, nested: seq<Nested>, body: Body): ReadState
    requires nested != []
  {
    ReadState(nested[..|nested| - 1], Wrap(t.nullable, nested[|nested| - 1].validity, body))
  }

  /** The reader: leaf readers, `create_list` / `create_map` and `create_struct`, driven by the type.
      `None` stands for a panic of the reader. */
  function Read(t: DataType, parts: seq<Part>): Option<ReadState>
    decreases t, 1
  {
    match t.shape
    case TLeaf =>
      if |parts| != 1 || parts[0].path == [] then None
      else Some(Create(t, parts[0].path, Leaf(parts[0].leaf)))
    case TList(isMap, element) => (
      match Read(element, parts)
      case None => None
      case Some(st) =>
        var n := |st.nested| - 1;
        if n < 0 || !st.nested[n].LargeList? || !CanRebase(st.nested[n].offsets) then None
        else Some(Create(t, st.nested, List(isMap, Rebase(st.nested[n].offsets), st.column)))
    )
    case TTuple(fields) => (
      match ReadFields(fields, parts)
      case None => None
      case Some(sts) =>
        if sts == [] || sts[|sts| - 1].nested == [] then None
        else Some(Create(t, sts[|sts| - 1].nested, Tuple(Columns(sts))))
    )
  }

  function ReadFields(ts: seq<DataType>, parts: seq<Part>): Option<seq<ReadState>>
    decreases ts, 0
  {
    if ts == [] then Some([])
    else if |parts| < LeafCount(ts[0]) then None
    else
      match Read(ts[0], parts[..LeafCount(ts[0])])
      case None => None
      case Some(st) =>
        match ReadFields(ts[1..], parts[LeafCount(ts[0])..])
        case None => None
        case Some(rest) => Some([st] + rest)
  }

  // ---------------------------------------------------------------- slices of columns

  /** The column the reader should produce for a window. */
  ghost function SliceColumn(c: Column, w: Window): Column
    requires WellFormed(c) && Fits(w, Len(c))
    decreases c
  {
    Column(SliceValidity(c.validity, w),
      match c.body
      case Leaf(v) => Leaf(v[w.offset..w.offset + w.length])
      case List(isMap, offsets, elements) =>
        List(isMap, seq(w.length + 1, i requires 0 <= i <= w.length => offsets[w.offset + i] - offsets[w.offset]),
             SliceColumn(elements, Window(offsets[w.offset], offsets[w.offset + w.length] - offsets[w.offset])))
      case Tuple(fields) => Tuple(seq(|fields|, i requires 0 <= i < |fields| => SliceColumn(fields[i], w))))
  }

  lemma {:induction false} SliceWellFormed(c: Column, w: Window)
    requires WellFormed(c) && Fits(w, Len(c))
    ensures WellFormed(SliceColumn(c, w)) && Len(SliceColumn(c, w)) == w.length
    decreases c
  {
    match c.body
    case Leaf(_) =>
    case List(_, offsets, elements) =>
      SliceWellFormed(elements, Window(offsets[w.offset], offsets[w.offset + w.length] - offsets[w.offset]));
    case Tuple(fields) =>
      forall i | 0 <= i < |fields| ensures WellFormed(SliceColumn(fields[i], w)) && Len(SliceColumn(fields[i], w)) == w.length {
        SliceWellFormed(fields[i], w);
      }
  }

  lemma {:induction false} SliceRow(c: Column, w: Window, i: nat)
    requires WellFormed(c) && Fits(w, Len(c)) && i < w.length
    requires WellFormed(SliceColumn(c, w)) && Len(SliceColumn(c, w)) == w.length
    ensures Row(SliceColumn(c, w), i) == Row(c, w.offset + i)
    decreases c, 1
  {
    if c.validity.None? || c.validity.value[w.offset + i] {
      match c.body
      case Leaf(_) =>
      case List(_, offsets, elements) =>
        SliceListRow(c, w, i);
      case Tuple(fields) =>
        forall k | 0 <= k < |fields|
          ensures WellFormed(SliceColumn(fields[k], w)) && Len(SliceColumn(fields[k], w)) == w.length
          ensures Row(SliceColumn(fields[k], w), i) == Row(fields[k], w.offset + i)
        {
          SliceWellFormed(fields[k], w);
          SliceRow(fields[k], w, i);
        }
    }
  }

  lemma {:induction false} SliceListRow(c: Column, w: Window, i: nat)
    requires WellFormed(c) && Fits(w, Len(c)) && i < w.length && c.body.List?
    requires WellFormed(SliceColumn(c, w)) && Len(SliceColumn(c, w)) == w.length
    requires c.validity.Some? ==> c.validity.value[w.offset + i]
    ensures Row(SliceColumn(c, w), i) == Row(c, w.offset + i)
    decreases c, 0
  {
    var offsets, elements := c.body.offsets, c.body.elements;
    var first := offsets[w.offset];
    var w' := Window(first, offsets[w.offset + w.length] - first);
    SliceWellFormed(elements, w');
    var s, t := Row(SliceColumn(c, w), i).items, Row(c, w.offset + i).items;
    forall j | 0 <= j < |t| ensures s[j] == t[j] {
      SliceRow(elements, w', offsets[w.offset + i] - first + j);
    }
  }

  /** Slicing a column slices its rows. */
  lemma SliceRows(c: Column, w: Window)
    requires WellFormed(c) && Fits(w, Len(c))
    ensures WellFormed(SliceColumn(c, w)) && Rows(SliceColumn(c, w)) == Rows(c)[w.offset..w.offset + w.length]
  {
    SliceWellFormed(c, w);
    var s, t := Rows(SliceColumn(c, w)), Rows(c)[w.offset..w.offset + w.length];
    forall i | 0 <= i < |s| ensures s[i] == t[i] {
      SliceRow(c, w, i);
    }
  }

  // ---------------------------------------------------------------- write, slice, read

  ghost predicate PartFits(p: Part, w: Window) {
    CanSlicePath(p.path, w) && Fits(LastWindow(p.path, w), |p.leaf|)
  }

  /** What `SliceNestColumn` makes of one part. */
  ghost function SlicePart(p: Part, w: Window): Part
    requires PartFits(p, w)
  {
    var v := LastWindow(p.path, w);
    Part(SlicePath(p.path, w), p.leaf[v.offset..v.offset + v.length])
  }

  ghost predicate PartsFit(parts: seq<Part>, w: Window) {
    forall i :: 0 <= i < |parts| ==> PartFits(parts[i], w)
  }

  ghost function SliceParts(parts: seq<Part>, w: Window): seq<Part>
    requires PartsFit(parts, w)
  {
    seq(|parts|, i requires 0 <= i < |parts| => SlicePart(parts[i], w))
  }

  /** The level of a column can be sliced wherever the column can. */
  lemma LevelFits(c: Column, parents: seq<Nested>, w: Window)
    requires WellFormed(c) && CanSlicePath(parents, w) && Fits(LastWindow(parents, w), Len(c))
    ensures Len(c) >= 0
    ensures var v, path := LastWindow(parents, w), parents + [Level(c)];
      && CanSlice(Level(c), v)
      && CanSlicePath(path, w)
      && SlicePath(path, w) == SlicePath(parents, w) + [SliceLevel(Level(c), v)]
      && LastWindow(path, w) == NextWindow(Level(c), v)
  {
    LenIsNat(c);
    PathAppend(parents, Level(c), w);
  }

  /** Every path of a flattened column can be sliced at any window of the column. */
  lemma {:induction false} FlattenFits(c: Column, parents: seq<Nested>, w: Window)
    requires WellFormed(c) && CanSlicePath(parents, w) && Fits(LastWindow(parents, w), Len(c))
    ensures PartsFit(Flatten(c, parents), w) && |Flatten(c, parents)| == LeafCount(TypeOf(c))
    decreases c, 1
  {
    LevelFits(c, parents, w);
    match c.body
    case Leaf(_) =>
    case List(_, _, elements) => FlattenFits(elements, parents + [Level(c)], w);
    case Tuple(fields) => FlattenFieldsFit(fields, parents + [Level(c)], w);
  }

  lemma {:induction false} FlattenFieldsFit(fields: seq<Column>, parents: seq<Nested>, w: Window)
    requires CanSlicePath(parents, w)
    requires forall i :: 0 <= i < |fields| ==> WellFormed(fields[i]) && Fits(LastWindow(parents, w), Len(fields[i]))
    ensures PartsFit(FlattenFields(fields, parents), w) && |FlattenFields(fields, parents)| == LeafCounts(TypesOf(fields))
    decreases fields, 0
  {
    if fields != [] {
      FlattenFits(fields[0], parents, w);
      FlattenFieldsFit(fields[1..], parents, w);
      assert TypesOf(fields)[1..] == TypesOf(fields[1..]);
    }
  }

  /** Reading back the sliced parts of a column gives its slice and the sliced parent levels. */
  lemma {:induction false} ReadBack(c: Column, parents: seq<Nested>, w: Window)
    requires WellFormed(c) && CanSlicePath(parents, w) && Fits(LastWindow(parents, w), Len(c))
    requires PartsFit(Flatten(c, parents), w)
    ensures Read(TypeOf(c), SliceParts(Flatten(c, parents), w)) ==
            Some(ReadState(SlicePath(parents, w), SliceColumn(c, LastWindow(parents, w))))
    decreases c, 1
  {
    if c.body.Leaf? {
      ReadBackLeaf(c, parents, w);
    } else if c.body.List? {
      ElementsFit(c, parents, w);
      ReadBack(c.body.elements, parents + [Level(c)], w);
      ReadBackList(c, parents, w);
    } else {
      FieldsFit(c, parents, w);
      ReadBackFields(c.body.fields, parents + [Level(c)], w);
      ReadBackTuple(c, parents, w);
    }
  }

  lemma ReadBackLeaf(c: Column, parents: seq<Nested>, w: Window)
    requires WellFormed(c) && c.body.Leaf? && CanSlicePath(parents, w) && Fits(LastWindow(parents, w), Len(c))
    requires PartsFit(Flatten(c, parents), w)
    ensures Read(TypeOf(c), SliceParts(Flatten(c, parents), w)) ==
            Some(ReadState(SlicePath(parents, w), SliceColumn(c, LastWindow(parents, w))))
  {
    LevelFits(c, parents, w);
    var p := Part(parents + [Level(c)], c.body.values);
    assert Flatten(c, parents) == [p];
    OnePart(p, w);
    CreateLeaf(c, SlicePath(parents, w), LastWindow(parents, w));
  }

  lemma OnePart(p: Part, w: Window)
    requires PartsFit([p], w)
    ensures PartFits(p, w) && SliceParts([p], w) == [SlicePart(p, w)]
  {
    assert PartFits([p][0], w);
  }

  /** The reader of a sliced leaf rebuilds the sliced leaf. */
  lemma CreateLeaf(c: Column, above: seq<Nested>, v: Window)
    requires WellFormed(c) && c.body.Leaf? && Fits(v, Len(c)) && CanSlice(Level(c), v)
    ensures Read(TypeOf(c), [Part(above + [SliceLevel(Level(c), v)], c.body.values[v.offset..v.offset + v.length])]) ==
            Some(ReadState(above, SliceColumn(c, v)))
  {
    var nested := above + [SliceLevel(Level(c), v)];
    assert nested[..|nested| - 1] == above;
  }

  lemma ElementsFit(c: Column, parents: seq<Nested>, w: Window)
    requires WellFormed(c) && c.body.List? && CanSlicePath(parents, w) && Fits(LastWindow(parents, w), Len(c))
    ensures var parents' := parents + [Level(c)];
      && CanSlicePath(parents', w) && Fits(LastWindow(parents', w), Len(c.body.elements))
      && Flatten(c, parents) == Flatten(c.body.elements, parents')
  {
    LevelFits(c, parents, w);
  }

  lemma FieldsFit(c: Column, parents: seq<Nested>, w: Window)
    requires WellFormed(c) && c.body.Tuple? && CanSlicePath(parents, w) && Fits(LastWindow(parents, w), Len(c))
    ensures Len(c) >= 0
    ensures var parents' := parents + [Level(c)];
      && CanSlicePath(parents', w) && LastWindow(parents', w) == LastWindow(parents, w)
      && Flatten(c, parents) == FlattenFields(c.body.fields, parents')
  {
    LevelFits(c, parents, w);
  }

  lemma ReadBackList(c: Column, parents: seq<Nested>, w: Window)
    requires WellFormed(c) && c.body.List? && CanSlicePath(parents, w) && Fits(LastWindow(parents, w), Len(c))
    requires PartsFit(Flatten(c, parents), w) && CanSlicePath(parents + [Level(c)], w)
    requires Fits(LastWindow(parents + [Level(c)], w), Len(c.body.elements))
    requires Read(TypeOf(c.body.elements), SliceParts(Flatten(c, parents), w)) ==
             Some(ReadState(SlicePath(parents + [Level(c)], w), SliceColumn(c.body.elements, LastWindow(parents + [Level(c)], w))))
    ensures Read(TypeOf(c), SliceParts(Flatten(c, parents), w)) ==
            Some(ReadState(SlicePath(parents, w), SliceColumn(c, LastWindow(parents, w))))
  {
    LevelFits(c, parents, w);
    CreateList(c, SlicePath(parents, w), LastWindow(parents, w));
  }

  lemma ReadBackTuple(c: Column, parents: seq<Nested>, w: Window)
    requires WellFormed(c) && c.body.Tuple? && CanSlicePath(parents, w) && Fits(LastWindow(parents, w), Len(c))
    requires PartsFit(Flatten(c, parents), w) && Len(c) >= 0
    requires CanSlicePath(parents + [Level(c)], w) && LastWindow(parents + [Level(c)], w) == LastWindow(parents, w)
    requires ReadFields(TypesOf(c.body.fields), SliceParts(Flatten(c, parents), w)) ==
             Some(FieldStates(c.body.fields, SlicePath(parents + [Level(c)], w), LastWindow(parents, w)))
    ensures Read(TypeOf(c), SliceParts(Flatten(c, parents), w)) ==
            Some(ReadState(SlicePath(parents, w), SliceColumn(c, LastWindow(parents, w))))
  {
    LevelFits(c, parents, w);
    CreateStruct(c, SlicePath(parents, w), LastWindow(parents, w));
  }

  /** `create_list` on a sliced level rebuilds the sliced list. */
  lemma CreateList(c: Column, above: seq<Nested>, v: Window)
    requires WellFormed(c) && c.body.List? && Fits(v, Len(c)) && CanSlice(Level(c), v)
    ensures var n := SliceLevel(Level(c), v);
      && CanRebase(n.offsets)
      && Create(TypeOf(c), above + [n], List(c.body.isMap, Rebase(n.offsets), SliceColumn(c.body.elements, NextWindow(Level(c), v)))) ==
         ReadState(above, SliceColumn(c, v))
  {
    var n := SliceLevel(Level(c), v);
    assert (above + [n])[..|above|] == above;
    assert Rebase(n.offsets) == SliceColumn(c, v).body.offsets;
  }

  /** `create_struct` on the sliced levels of its fields rebuilds the sliced tuple. */
  lemma CreateStruct(c: Column, above: seq<Nested>, v: Window)
    requires WellFormed(c) && c.body.Tuple? && Fits(v, Len(c)) && Len(c) >= 0 && CanSlice(Level(c), v)
    ensures var sts := FieldStates(c.body.fields, above + [SliceLevel(Level(c), v)], v);
      Create(TypeOf(c), sts[|sts| - 1].nested, Tuple(Columns(sts))) == ReadState(above, SliceColumn(c, v))
  {
    var n := SliceLevel(Level(c), v);
    assert (above + [n])[..|above|] == above;
    assert SliceColumn(c, v).body.fields == Columns(FieldStates(c.body.fields, above + [n], v));
  }

  /** The results of reading the fields of a tuple. */
  ghost function FieldStates(fields: seq<Column>, nested: seq<Nested>, v: Window): seq<ReadState>
    requires forall i :: 0 <= i < |fields| ==> WellFormed(fields[i]) && Fits(v, Len(fields[i]))
  {
    seq(|fields|, i requires 0 <= i < |fields| => ReadState(nested, SliceColumn(fields[i], v)))
  }

  lemma SplitParts(a: seq<Part>, b: seq<Part>, w: Window)
    requires PartsFit(a, w) && PartsFit(b, w)
    ensures PartsFit(a + b, w)
    ensures SliceParts(a + b, w)[..|a|] == SliceParts(a, w) && SliceParts(a + b, w)[|a|..] == SliceParts(b, w)
  {
  }

  lemma SplitStates(fields: seq<Column>, nested: seq<Nested>, v: Window)
    requires fields != [] && forall i :: 0 <= i < |fields| ==> WellFormed(fields[i]) && Fits(v, Len(fields[i]))
    ensures FieldStates(fields, nested, v) == [ReadState(nested, SliceColumn(fields[0], v))] + FieldStates(fields[1..], nested, v)
    ensures TypesOf(fields)[0] == TypeOf(fields[0]) && TypesOf(fields)[1..] == TypesOf(fields[1..])
  {
  }

  lemma {:induction false} ReadBackFields(fields: seq<Column>, parents: seq<Nested>, w: Window)
    requires CanSlicePath(parents, w)
    requires forall i :: 0 <= i < |fields| ==> WellFormed(fields[i]) && Fits(LastWindow(parents, w), Len(fields[i]))
    requires PartsFit(FlattenFields(fields, parents), w)
    ensures ReadFields(TypesOf(fields), SliceParts(FlattenFields(fields, parents), w)) ==
            Some(FieldStates(fields, SlicePath(parents, w), LastWindow(parents, w)))
    decreases fields, 0
  {
    if fields != [] {
      FlattenFits(fields[0], parents, w);
      FlattenFieldsFit(fields[1..], parents, w);
      SplitParts(Flatten(fields[0], parents), FlattenFields(fields[1..], parents), w);
      SplitStates(fields, SlicePath(parents, w), LastWindow(parents, w));
      ReadBack(fields[0], parents, w);
      ReadBackFields(fields[1..], parents, w);
    } else {
      assert FieldStates(fields, SlicePath(parents, w), LastWindow(parents, w)) == [];
    }
  }

  /** The round trip: pair up the two walks, slice every path at `offset, length`, read back, and look
      at the rows. */
  lemma SliceRoundTrip(c: Column, w: Window)
    requires WellFormed(c) && Fits(w, Len(c))
    ensures PartsFit(Written(c), w)
    ensures var r := Read(TypeOf(c), SliceParts(Written(c), w));
      && r.Some? && r.value.nested == []
      && WellFormed(r.value.column)
      && Rows(r.value.column) == Rows(c)[w.offset..w.offset + w.length]
  {
    WalksAlign(c, []);
    FlattenFits(c, [], w);
    ReadBack(c, [], w);
    SliceRows(c, w);
  }

  /** Flattening only produces paths that `SliceNestColumn` accepts. */
  lemma {:induction false} FlattenShape(c: Column, parents: seq<Nested>)
    requires WellFormed(c) && forall i :: 0 <= i < |parents| ==> !parents[i].Primitive?
    ensures forall i :: 0 <= i < |Flatten(c, parents)| ==> LeafPath(Flatten(c, parents)[i].path)
    decreases c, 1
  {
    LenIsNat(c);
    match c.body
    case Leaf(_) =>
    case List(_, _, elements) => FlattenShape(elements, parents + [Level(c)]);
    case Tuple(fields) => FlattenFieldsShape(fields, parents + [Level(c)]);
  }

  lemma {:induction false} FlattenFieldsShape(fields: seq<Column>, parents: seq<Nested>)
    requires forall i :: 0 <= i < |fields| ==> WellFormed(fields[i])
    requires forall i :: 0 <= i < |parents| ==> !parents[i].Primitive?
    ensures forall i :: 0 <= i < |FlattenFields(fields, parents)| ==> LeafPath(FlattenFields(fields, parents)[i].path)
    decreases fields, 0
  {
    if fields != [] {
      FlattenShape(fields[0], parents);
      FlattenFieldsShape(fields[1..], parents);
    }
  }
}
