/**
 The GeoPandas reader's parse step: one pass over a series of geometries that
 builds the type buffer, the offsets and the four coordinate lists of a
 GeoArrow dense union.
 */
module GeoSeriesParser {
  import opened Geometries
  import opened ArrowUnion

  /** The error that stops the walk at an element of an unknown type, naming
      that type. */
  datatype TypeError = TypeError(typeName: string)

  datatype Result<T> = Ok(value: T) | Err(error: TypeError)

  /** Walks the series once, in order. Each known geometry appends its entry to
      its child's coordinate list, its child's running count to `allOffsets`
      and its type code to `typeBuffer`, then bumps that child's count (kept as
      the last element of an offsets list seeded with 0). The first geometry of
      an unknown type stops the walk with a `TypeError` and nothing else is
      returned. */
  method ParseGeometries(geoseries: seq<Geometry>) returns (r: Result<UnionBuffers>)
    ensures r.Ok? <==> Accepted(geoseries)
    ensures r.Ok? ==> r.value == Encode(geoseries)
    ensures r.Err? ==> exists i :: 0 <= i < |geoseries| && KnownUpTo(geoseries, i)
                                   && geoseries[i] == Other(r.error.typeName)
  {
    var pointCoords: seq<Coords> := [];
    var mpointCoords: seq<Coords> := [];
    var lineCoords: seq<Coords> := [];
    var polygonCoords: seq<Coords> := [];
    var allOffsets: seq<int> := [];
    var typeBuffer: seq<int> := [];
    var pointOffsets: seq<int> := [0];
    var mpointOffsets: seq<int> := [0];
    var lineOffsets: seq<int> := [0];
    var polygonOffsets: seq<int> := [0];

    for i := 0 to |geoseries|
      invariant KnownUpTo(geoseries, i)
      invariant UnionBuffers(typeBuffer, allOffsets, pointCoords, mpointCoords, lineCoords, polygonCoords)
                == Build(geoseries, i)
      invariant |pointOffsets| == |pointCoords| + 1 && Counting(pointOffsets)
      invariant |mpointOffsets| == |mpointCoords| + 1 && Counting(mpointOffsets)
      invariant |lineOffsets| == |lineCoords| + 1 && Counting(lineOffsets)
      invariant |polygonOffsets| == |polygonCoords| + 1 && Counting(polygonOffsets)
    {
      var geom := geoseries[i];
      if geom.Other? {
        assert !Accepted(geoseries) by { assert geoseries[i].Other?; }
        return Err(TypeError(geom.typeName));
      }
      ghost var before := UnionBuffers(typeBuffer, allOffsets, pointCoords, mpointCoords, lineCoords, polygonCoords);
      match geom {
      case Point(coords) =>
        pointCoords := pointCoords + [coords];
        CountingSnoc(pointOffsets);
        allOffsets := allOffsets + [pointOffsets[|pointOffsets| - 1]];
        pointOffsets := pointOffsets + [pointOffsets[|pointOffsets| - 1] + 1];
        typeBuffer := typeBuffer + [PointFeature.Value()];
      case MultiPoint(coords) =>
        mpointCoords := mpointCoords + [coords];
        CountingSnoc(mpointOffsets);
        allOffsets := allOffsets + [mpointOffsets[|mpointOffsets| - 1]];
        mpointOffsets := mpointOffsets + [mpointOffsets[|mpointOffsets| - 1] + 1];
        typeBuffer := typeBuffer + [MultiPointFeature.Value()];
      case LineString(coords) =>
        lineCoords := lineCoords + [Nested([coords])];
        CountingSnoc(lineOffsets);
        allOffsets := allOffsets + [lineOffsets[|lineOffsets| - 1]];
        lineOffsets := lineOffsets + [lineOffsets[|lineOffsets| - 1] + 1];
        typeBuffer := typeBuffer + [LineStringFeature.Value()];
      case MultiLineString(coords) =>
        lineCoords := lineCoords + [coords];
        CountingSnoc(lineOffsets);
        allOffsets := allOffsets + [lineOffsets[|lineOffsets| - 1]];
        lineOffsets := lineOffsets + [lineOffsets[|lineOffsets| - 1] + 1];
        typeBuffer := typeBuffer + [LineStringFeature.Value()];
      case Polygon(coords) =>
        polygonCoords := polygonCoords + [Nested([coords])];
        CountingSnoc(polygonOffsets);
        allOffsets := allOffsets + [polygonOffsets[|polygonOffsets| - 1]];
        polygonOffsets := polygonOffsets + [polygonOffsets[|polygonOffsets| - 1] + 1];
        typeBuffer := typeBuffer + [PolygonFeature.Value()];
      case MultiPolygon(coords) =>
        polygonCoords := polygonCoords + [coords];
        CountingSnoc(polygonOffsets);
        allOffsets := allOffsets + [polygonOffsets[|polygonOffsets| - 1]];
        polygonOffsets := polygonOffsets + [polygonOffsets[|polygonOffsets| - 1] + 1];
        typeBuffer := typeBuffer + [PolygonFeature.Value()];
      }
      assert UnionBuffers(typeBuffer, allOffsets, pointCoords, mpointCoords, lineCoords, polygonCoords)
             == Push(before, geom);
    }
    BuildIsEncode(geoseries, |geoseries|);
    return Ok(UnionBuffers(typeBuffer, allOffsets, pointCoords, mpointCoords, lineCoords, polygonCoords));
  }
}
