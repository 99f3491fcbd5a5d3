/**
 The geometries that the GeoPandas reader accepts, and how each one is filed
 into the four children (points, multipoints, lines, polygons) of a GeoArrow
 dense union.
 */
module Geometries {

  /** Coordinates as the geometry library hands them out: a position is a
      sequence of ordinates, and every larger geometry nests sequences of
      positions (a line is a sequence of positions, a polygon a sequence of
      rings, and so on). The reader never looks inside them; it only wraps some
      of them once more, in a one-element list. `Nested` stands for any such
      sequence: the model does not tell the lists the reader builds from the
      tuples the geometry library returns. */
  datatype Coords = Position(ordinates: seq<real>) | Nested(items: seq<Coords>)

  /** One element of the input series. `Other` is any element that is none of
      the six geometry types the reader knows, named by its type. */
  datatype Geometry =
    | Point(coords: Coords)
    | MultiPoint(coords: Coords)
    | LineString(coords: Coords)
    | MultiLineString(coords: Coords)
    | Polygon(coords: Coords)
    | MultiPolygon(coords: Coords)
    | Other(typeName: string)

  /** The union's children, with the type codes written to the type buffer. */
  datatype Feature = PointFeature | MultiPointFeature | LineStringFeature | PolygonFeature
  {
    function Value(): int {
      match this
      case PointFeature => 0
      case MultiPointFeature => 1
      case LineStringFeature => 2
      case PolygonFeature => 3
    }
  }

  datatype Option<T> = None | Some(value: T)

  /** The feature whose type code is `v`, if any. */
  function FeatureFromValue(v: int): (f: Option<Feature>)
    ensures f.Some? <==> 0 <= v < 4
    ensures f.Some? ==> f.value.Value() == v
  {
    if v == 0 then Some(PointFeature)
    else if v == 1 then Some(MultiPointFeature)
    else if v == 2 then Some(LineStringFeature)
    else if v == 3 then Some(PolygonFeature)
    else None
  }

  /** The child a known geometry is filed into: a single and a multi line share
      the line child, a single and a multi polygon share the polygon child. */
  function FeatureOf(g: Geometry): Feature
    requires !g.Other?
  {
    match g
    case Point(_) => PointFeature
    case MultiPoint(_) => MultiPointFeature
    case LineString(_) => LineStringFeature
    case MultiLineString(_) => LineStringFeature
    case Polygon(_) => PolygonFeature
    case MultiPolygon(_) => PolygonFeature
  }

  /** True when `g` is a known geometry filed into child `f`. */
  predicate Has(g: Geometry, f: Feature) {
    !g.Other? && FeatureOf(g) == f
  }

  /** The entry a known geometry contributes to its child's coordinate list:
      a single line or polygon is wrapped into a one-element list so that it
      has the shape of the multi geometry sharing its child. */
  function Entry(g: Geometry): Coords
    requires !g.Other?
  {
    match g
    case Point(c) => c
    case MultiPoint(c) => c
    case LineString(c) => Nested([c])
    case MultiLineString(c) => c
    case Polygon(c) => Nested([c])
    case MultiPolygon(c) => c
  }

  /** The multi geometry a single line or polygon reads as once it is stored. */
  function Promote(g: Geometry): (p: Geometry)
    ensures g.Other? <==> p.Other?
    ensures !g.Other? ==> FeatureOf(p) == FeatureOf(g) && Entry(p) == Entry(g)
    ensures !p.LineString? && !p.Polygon?
  {
    match g
    case LineString(c) => MultiLineString(Nested([c]))
    case Polygon(c) => MultiPolygon(Nested([c]))
    case _ => g
  }

  /** The geometry stored as `entry` in child `f`, in its multi form for the
      two children that hold both a single and a multi kind. */
  function Rebuild(f: Feature, entry: Coords): (g: Geometry)
    ensures Has(g, f) && Entry(g) == entry
  {
    match f
    case PointFeature => Point(entry)
    case MultiPointFeature => MultiPoint(entry)
    case LineStringFeature => MultiLineString(entry)
    case PolygonFeature => MultiPolygon(entry)
  }
}
