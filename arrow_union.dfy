/**
 The buffers of a GeoArrow dense union built from a series of geometries,
 defined element by element: geometry i gets the type code of its child and,
 as its offset, the number of earlier geometries filed into the same child;
 each child's coordinate list holds the entries of its geometries in input
 order. Everything is stated for the first n geometries of a series, so that
 the reader's loop can be proved to build exactly these buffers prefix by
 prefix.
 */
module ArrowUnion {
  import opened Geometries

  /** The tuple the reader returns, in its fixed order. */
  datatype UnionBuffers = UnionBuffers(
    typeBuffer: seq<int>,
    allOffsets: seq<int>,
    pointCoords: seq<Coords>,
    mpointCoords: seq<Coords>,
    lineCoords: seq<Coords>,
    polygonCoords: seq<Coords>)
  {
    /** The coordinate list of child `f`. */
    function ChildList(f: Feature): seq<Coords> {
      match f
      case PointFeature => pointCoords
      case MultiPointFeature => mpointCoords
      case LineStringFeature => lineCoords
      case PolygonFeature => polygonCoords
    }
  }

  /** The first n geometries of the series are all of a known kind. */
  predicate KnownUpTo(gs: seq<Geometry>, n: int)
    requires 0 <= n <= |gs|
  {
    forall j :: 0 <= j < n ==> !gs[j].Other?
  }

  /** Every geometry of the series is of a known kind. */
  predicate Accepted(gs: seq<Geometry>) {
    KnownUpTo(gs, |gs|)
  }

  /** How many of the first n geometries are filed into child `f`. */
  function Count(gs: seq<Geometry>, n: int, f: Feature): (c: nat)
    requires 0 <= n <= |gs|
    ensures c <= n
  {
    if n == 0 then 0
    else Count(gs, n - 1, f) + (if Has(gs[n - 1], f) then 1 else 0)
  }

  /** The entries of the first n geometries filed into child `f`, in order. */
  function Column(gs: seq<Geometry>, n: int, f: Feature): (col: seq<Coords>)
    requires 0 <= n <= |gs|
    ensures |col| == Count(gs, n, f)
  {
    if n == 0 then []
    else Column(gs, n - 1, f) + (if Has(gs[n - 1], f) then [Entry(gs[n - 1])] else [])
  }

  /** The type code of each of the first n geometries. */
  function TypeCodes(gs: seq<Geometry>, n: int): seq<int>
    requires 0 <= n <= |gs| && KnownUpTo(gs, n)
  {
    seq(n, j requires 0 <= j < n => FeatureOf(gs[j]).Value())
  }

  /** The offset of each of the first n geometries into its child: the number
      of geometries before it that went to the same child. */
  function Offsets(gs: seq<Geometry>, n: int): seq<int>
    requires 0 <= n <= |gs| && KnownUpTo(gs, n)
  {
    seq(n, j requires 0 <= j < n => Count(gs, j, FeatureOf(gs[j])))
  }

  /** The union buffers of the first n geometries. */
  function EncodePrefix(gs: seq<Geometry>, n: int): UnionBuffers
    requires 0 <= n <= |gs| && KnownUpTo(gs, n)
  {
    UnionBuffers(
      TypeCodes(gs, n),
      Offsets(gs, n),
      Column(gs, n, PointFeature),
      Column(gs, n, MultiPointFeature),
      Column(gs, n, LineStringFeature),
      Column(gs, n, PolygonFeature))
  }

  /** The union buffers of an accepted series. */
  function Encode(gs: seq<Geometry>): UnionBuffers
    requires Accepted(gs)
  {
    EncodePrefix(gs, |gs|)
  }

  /** The buffers after one more known geometry: its type code, its child's
      running count (the length of that child's column) as offset, and its
      entry appended to its child's column. */
  function Push(b: UnionBuffers, g: Geometry): UnionBuffers
    requires !g.Other?
  {
    var f := FeatureOf(g);
    var b' := b.(typeBuffer := b.typeBuffer + [f.Value()], allOffsets := b.allOffsets + [|b.ChildList(f)|]);
    match f
    case PointFeature => b'.(pointCoords := b.pointCoords + [Entry(g)])
    case MultiPointFeature => b'.(mpointCoords := b.mpointCoords + [Entry(g)])
    case LineStringFeature => b'.(lineCoords := b.lineCoords + [Entry(g)])
    case PolygonFeature => b'.(polygonCoords := b.polygonCoords + [Entry(g)])
  }

  /** The buffers of the first n geometries built one `Push` at a time, the
      way the reader's loop builds them. */
  function Build(gs: seq<Geometry>, n: int): UnionBuffers
    requires 0 <= n <= |gs| && KnownUpTo(gs, n)
  {
    if n == 0 then UnionBuffers([], [], [], [], [], [])
    else Push(Build(gs, n - 1), gs[n - 1])
  }

  /** `xs` is 0, 1, ..., |xs| - 1: the shape of a per-child offsets list,
      stated pointwise (`CountingIsIota` ties it to `Iota`). */
  predicate Counting(xs: seq<int>) {
    forall j :: 0 <= j < |xs| ==> xs[j] == j
  }

  /** Appending one more than the last element keeps a list counting. */
  lemma CountingSnoc(xs: seq<int>)
    requires Counting(xs) && |xs| > 0
    ensures xs[|xs| - 1] == |xs| - 1
    ensures Counting(xs + [xs[|xs| - 1] + 1])
  {
  }

  /** 0, 1, ..., n - 1. */
  function Iota(n: nat): seq<int>
  {
    seq(n, j => j)
  }

  /** A list counts exactly when it is `Iota` of its length. */
  lemma CountingIsIota(xs: seq<int>)
    ensures Counting(xs) <==> xs == Iota(|xs|)
  {
  }

  /** Extending 0, ..., n - 1 by n gives 0, ..., n. */
  lemma IotaSnoc(n: nat)
    ensures Iota(n) + [n] == Iota(n + 1)
  {
  }

  /** The values among the first n of `xs` at positions whose geometry is
      filed into child `f`, in order. */
  function SelectKind(gs: seq<Geometry>, xs: seq<int>, n: int, f: Feature): seq<int>
    requires |xs| == |gs| && 0 <= n <= |gs|
  {
    if n == 0 then []
    else SelectKind(gs, xs, n - 1, f) + (if Has(gs[n - 1], f) then [xs[n - 1]] else [])
  }

  /** Reading the union: the geometry at position i, found through its type
      code and its offset into the coordinate list of that child. */
  function Decode(b: UnionBuffers, i: nat): Option<Geometry> {
    if i >= |b.typeBuffer| || i >= |b.allOffsets| then None
    else
      match FeatureFromValue(b.typeBuffer[i])
      case None => None
      case Some(f) =>
        var column, k := b.ChildList(f), b.allOffsets[i];
        if 0 <= k < |column| then Some(Rebuild(f, column[k])) else None
  }

  /** One more geometry is one more `Push`: the type buffer and the offsets each
      grow by exactly one entry (the new offset is the child's running count),
      the child's column grows by the geometry's entry and every other column
      is unchanged. */
  lemma EncodeStep(gs: seq<Geometry>, n: int)
    requires 0 <= n < |gs| && KnownUpTo(gs, n) && !gs[n].Other?
    ensures KnownUpTo(gs, n + 1)
    ensures Push(EncodePrefix(gs, n), gs[n]) == EncodePrefix(gs, n + 1)
  {
  }

  /** Building one geometry at a time gives the element-wise buffers. */
  lemma {:induction false} BuildIsEncode(gs: seq<Geometry>, n: int)
    requires 0 <= n <= |gs| && KnownUpTo(gs, n)
    ensures Build(gs, n) == EncodePrefix(gs, n)
  {
    if n > 0 {
      BuildIsEncode(gs, n - 1);
      EncodeStep(gs, n - 1);
    }
  }

  /** Among the first n geometries, the four children together hold each
      geometry exactly once. */
  lemma {:induction false} CountsPartition(gs: seq<Geometry>, n: int)
    requires 0 <= n <= |gs| && KnownUpTo(gs, n)
    ensures Count(gs, n, PointFeature) + Count(gs, n, MultiPointFeature)
            + Count(gs, n, LineStringFeature) + Count(gs, n, PolygonFeature) == n
  {
    if n > 0 {
      CountsPartition(gs, n - 1);
    }
  }

  /** The buffers have one type code and one offset per geometry, and the four
      coordinate lists together have one entry per geometry. */
  lemma EncodeSizes(gs: seq<Geometry>)
    requires Accepted(gs)
    ensures var b := Encode(gs);
      && |b.typeBuffer| == |gs| && |b.allOffsets| == |gs|
      && |b.pointCoords| + |b.mpointCoords| + |b.lineCoords| + |b.polygonCoords| == |gs|
  {
    CountsPartition(gs, |gs|);
  }

  /** Every type code is the value of the geometry's child, so the two line
      kinds share code 2 and the two polygon kinds code 3. */
  lemma TypeCodeIsFeature(gs: seq<Geometry>, i: int)
    requires Accepted(gs) && 0 <= i < |gs|
    ensures FeatureFromValue(Encode(gs).typeBuffer[i]) == Some(FeatureOf(gs[i]))
  {
  }

  /** Restricted to one child, the first n offsets are 0, 1, 2, ... with no gap
      and no repeat, up to that child's count. */
  lemma {:induction false} SelectKindIsIota(gs: seq<Geometry>, n: int, f: Feature)
    requires Accepted(gs) && 0 <= n <= |gs|
    ensures SelectKind(gs, Encode(gs).allOffsets, n, f) == Iota(Count(gs, n, f))
  {
    if n > 0 {
      SelectKindIsIota(gs, n - 1, f);
      if Has(gs[n - 1], f) {
        IotaSnoc(Count(gs, n - 1, f));
      }
    }
  }

  /** Restricted to one child, the offsets are exactly 0, 1, ..., k - 1 in input
      order, where k is the number of geometries of that child. */
  lemma OffsetsOfKindEnumerate(gs: seq<Geometry>, f: Feature)
    requires Accepted(gs)
    ensures SelectKind(gs, Encode(gs).allOffsets, |gs|, f) == Iota(|Encode(gs).ChildList(f)|)
  {
    SelectKindIsIota(gs, |gs|, f);
  }

  /** Counting over a longer prefix never gives less. */
  lemma {:induction false} CountMonotone(gs: seq<Geometry>, i: int, j: int, f: Feature)
    requires 0 <= i <= j <= |gs|
    ensures Count(gs, i, f) <= Count(gs, j, f)
  {
    if i < j {
      CountMonotone(gs, i, j - 1, f);
    }
  }

  /** Within one child, offsets strictly increase with the input position, so
      the child's entries keep the input order. */
  lemma OffsetsIncreaseWithinKind(gs: seq<Geometry>, i: int, j: int)
    requires Accepted(gs) && 0 <= i < j < |gs| && FeatureOf(gs[i]) == FeatureOf(gs[j])
    ensures Encode(gs).allOffsets[i] < Encode(gs).allOffsets[j]
  {
    CountMonotone(gs, i + 1, j, FeatureOf(gs[i]));
  }

  /** Geometry i's entry sits in its child's column at the index given by the
      number of earlier geometries of that child. */
  lemma {:induction false} ColumnAt(gs: seq<Geometry>, n: int, i: int)
    requires 0 <= i < n <= |gs| && !gs[i].Other?
    ensures var f := FeatureOf(gs[i]);
      Count(gs, i, f) < |Column(gs, n, f)| && Column(gs, n, f)[Count(gs, i, f)] == Entry(gs[i])
  {
    if i < n - 1 {
      ColumnAt(gs, n - 1, i);
      CountMonotone(gs, i + 1, n - 1, FeatureOf(gs[i]));
    }
  }

  /** The entry of geometry i sits in its child's column at index offset i. */
  lemma ColumnAtOffset(gs: seq<Geometry>, i: int)
    requires Accepted(gs) && 0 <= i < |gs|
    ensures var b, f := Encode(gs), FeatureOf(gs[i]);
      0 <= b.allOffsets[i] < |b.ChildList(f)| && b.ChildList(f)[b.allOffsets[i]] == Entry(gs[i])
  {
    var f := FeatureOf(gs[i]);
    ColumnAt(gs, |gs|, i);
    assert Encode(gs).ChildList(f) == Column(gs, |gs|, f);
  }

  /** Reading the union back gives every geometry of the series, a single line
      or polygon coming back as the one-element multi geometry it was stored as. */
  lemma DecodeEncode(gs: seq<Geometry>, i: int)
    requires Accepted(gs) && 0 <= i < |gs|
    ensures Decode(Encode(gs), i) == Some(Promote(gs[i]))
  {
    ColumnAtOffset(gs, i);
    var g := gs[i];
    match g
    case Point(_) =>
    case MultiPoint(_) =>
    case LineString(_) =>
    case MultiLineString(_) =>
    case Polygon(_) =>
    case MultiPolygon(_) =>
  }

  /** Each geometry replaced by its multi form: the result holds no single line
      or polygon, and it is accepted exactly when the series is. */
  function PromoteAll(gs: seq<Geometry>): (ps: seq<Geometry>)
    ensures forall i :: 0 <= i < |ps| ==> !ps[i].LineString? && !ps[i].Polygon?
    ensures Accepted(ps) <==> Accepted(gs)
  {
    var ps := seq(|gs|, i requires 0 <= i < |gs| => Promote(gs[i]));
    assert forall i :: 0 <= i < |gs| ==> (ps[i].Other? <==> gs[i].Other?);
    ps
  }

  /** Promoting the geometries changes no count and no column. */
  lemma {:induction false} PromoteKeepsColumns(gs: seq<Geometry>, n: int, f: Feature)
    requires 0 <= n <= |gs|
    ensures Count(PromoteAll(gs), n, f) == Count(gs, n, f)
    ensures Column(PromoteAll(gs), n, f) == Column(gs, n, f)
  {
    if n > 0 {
      PromoteKeepsColumns(gs, n - 1, f);
    }
  }

  /** Storing a single line or polygon is indistinguishable from storing the
      one-element multi geometry: both give the same type code, the same
      offset and the same coordinate entry. */
  lemma PromoteInvisible(gs: seq<Geometry>)
    requires Accepted(gs)
    ensures Accepted(PromoteAll(gs)) && Encode(PromoteAll(gs)) == Encode(gs)
  {
    var ps := PromoteAll(gs);
    PromoteKeepsColumns(gs, |gs|, PointFeature);
    PromoteKeepsColumns(gs, |gs|, MultiPointFeature);
    PromoteKeepsColumns(gs, |gs|, LineStringFeature);
    PromoteKeepsColumns(gs, |gs|, PolygonFeature);
    forall j | 0 <= j < |gs|
      ensures Count(ps, j, FeatureOf(ps[j])) == Count(gs, j, FeatureOf(gs[j]))
    {
      PromoteKeepsColumns(gs, j, FeatureOf(gs[j]));
    }
    assert Offsets(ps, |ps|) == Offsets(gs, |gs|);
    assert TypeCodes(ps, |ps|) == TypeCodes(gs, |gs|);
  }
}
