# cuSpatial GeoPandas reader: dense-union buffers in Dafny

This project models `parse_geometries`, the step of cuSpatial's GeoPandas reader
that turns a GeoPandas series of Shapely geometries into the buffers of a
GeoArrow dense union. It walks the series once, in order. Each geometry is filed
into one of four children: points, multipoints, lines or polygons. A
LineString and a MultiLineString share the line child, and a Polygon and a
MultiPolygon share the polygon child. For each geometry the reader:

- appends the geometry's coordinates to its child's list; a single LineString
  or Polygon is first wrapped as a one-element list;
- writes the child's type code (0, 1, 2 or 3) to `type_buffer`;
- writes the child's running count to `all_offsets`;
- bumps that count, kept as the last element of a per-child offsets list
  seeded with `[0]`.

An element of any other type stops the walk with an exception and nothing is
returned. The model records that stop as an error naming the element's type:
see "## Left out" for which exception the reader actually raises.

Files:

- `geometries.dfy` (module `Geometries`): the geometry datatype with an
  opaque nested-sequence coordinate payload (`Coords`), the four children
  (`Feature`, whose `Value` is the type code), and how a geometry is filed
  (`FeatureOf`) and stored (`Entry`).
- `arrow_union.dfy` (module `ArrowUnion`): the buffers defined element by
  element (`Encode`, over prefixes `EncodePrefix`).
  - Geometry i's type code is its child's value.
  - Its offset is the number of earlier geometries of the same child.
  - Each child's column lists its geometries' entries in input order.
  - `Build` makes the same buffers one geometry at a time (`Push`), as the
    loop does; `BuildIsEncode` proves the two agree.
  - The module also holds the reading side of the union (`Decode`) and the
    lemmas about these definitions.
- `geopandas_reader.dfy` (module `GeoSeriesParser`): `ParseGeometries`, the
  loop of the module-level function `parse_geometries` itself.
  - It uses the source's ten local lists, including the four offsets lists.
  - It is proved to return `Encode` of its input, or an error naming the
    type of the first unknown element.

## Model

| member | source | states |
|---|---|---|
| `GeoSeriesParser.ParseGeometries` | python/cuspatial/cuspatial/io/geopandas_reader.py:35-88 | Returns Ok exactly when every geometry is one of the six known kinds. The Ok tuple equals the element-wise encoding `Encode`. Otherwise the error names the type of a geometry whose predecessors are all known, i.e. the first unknown one, and no partial buffers are returned. The loop invariants keep each per-child offsets list equal to `[0, 1, ..., n]`, with n the length of that child's coordinate list. |
| `Geometries.FeatureFromValue` | python/cuspatial/cuspatial/io/geopandas_reader.py:21-25 | The type codes are exactly 0..3, and each names one child whose `Value` is that code. |
| `Geometries.Promote` | python/cuspatial/cuspatial/io/geopandas_reader.py:59-78 | A single LineString or Polygon has the same child and the same stored entry, as a nested sequence, as the one-element multi geometry wrapping it. |
| `ArrowUnion.CountingSnoc` | python/cuspatial/cuspatial/io/geopandas_reader.py:51-52 | In a per-child offsets list of the form `[0, ..., k]`, the last element is the running count k. Appending last + 1 keeps the form. |
| `ArrowUnion.Column` | python/cuspatial/cuspatial/io/geopandas_reader.py:50-52 | A child's coordinate list has exactly as many entries as its counter says: one per geometry filed into it. |
| `ArrowUnion.CountingIsIota` | python/cuspatial/cuspatial/io/geopandas_reader.py:42-45 | A per-child offsets list has the loop's pointwise shape exactly when it is `0, 1, ..., k`, the same enumeration that `SelectKindIsIota` states of the offsets. |
| `ArrowUnion.EncodeStep` | python/cuspatial/cuspatial/io/geopandas_reader.py:47-78 | Each accepted geometry adds exactly one type code and one offset. The offset is its child's count before the bump. The geometry's entry is appended to its own child's column, and the other three columns are unchanged. |
| `ArrowUnion.BuildIsEncode` | python/cuspatial/cuspatial/io/geopandas_reader.py:47-78 | Filing the first n geometries one at a time, as the loop does, gives exactly the element-wise buffers: codes, earlier-same-child counts as offsets, and per-child entries in input order. |
| `ArrowUnion.CountsPartition` | python/cuspatial/cuspatial/io/geopandas_reader.py:49-78 | Every known geometry is filed into exactly one child, so the four counts add up to the number of geometries. |
| `ArrowUnion.EncodeSizes` | python/cuspatial/cuspatial/io/geopandas_reader.py:81-88 | `type_buffer` and `all_offsets` have the input's length. The four coordinate lists together have one entry per input geometry. |
| `ArrowUnion.TypeCodeIsFeature` | python/cuspatial/cuspatial/io/geopandas_reader.py:53-78 | `type_buffer[i]` is the code of geometry i's child: 0 for Point, 1 for MultiPoint, 2 for both line kinds, 3 for both polygon kinds. |
| `ArrowUnion.SelectKindIsIota` | python/cuspatial/cuspatial/io/geopandas_reader.py:42-77 | Over any prefix, the offsets of one child's geometries are 0, 1, 2, ... in order, with no gap or repeat. They stop at that child's count. |
| `ArrowUnion.OffsetsOfKindEnumerate` | python/cuspatial/cuspatial/io/geopandas_reader.py:42-77 | Restricted to one child, `all_offsets` is exactly `0, 1, ..., k-1`, where k is the length of that child's coordinate list. |
| `ArrowUnion.CountMonotone` | python/cuspatial/cuspatial/io/geopandas_reader.py:51-77 | A child's running count never decreases as the walk proceeds. |
| `ArrowUnion.OffsetsIncreaseWithinKind` | python/cuspatial/cuspatial/io/geopandas_reader.py:47-78 | For two geometries of the same child, the earlier one has the strictly smaller offset, so a child's entries keep input order. |
| `ArrowUnion.ColumnAt` | python/cuspatial/cuspatial/io/geopandas_reader.py:50-77 | Geometry i's entry is stored in its child's list at the index given by the number of earlier geometries of that child. |
| `ArrowUnion.ColumnAtOffset` | python/cuspatial/cuspatial/io/geopandas_reader.py:50-77 | `all_offsets[i]` is a valid index into geometry i's child list, and the entry there is geometry i's coordinates. A single line or polygon is stored wrapped. |
| `ArrowUnion.DecodeEncode` | python/cuspatial/cuspatial/io/geopandas_reader.py:81-88 | Reading position i of the union through its type code and offset gives back geometry i. A single line or polygon comes back as its one-element multi form. |
| `ArrowUnion.PromoteKeepsColumns` | python/cuspatial/cuspatial/io/geopandas_reader.py:59-78 | Replacing single lines and polygons by their one-element multi forms changes no child's count and no child's coordinate list. |
| `ArrowUnion.PromoteAll` | python/cuspatial/cuspatial/io/geopandas_reader.py:59-78 | The all-multi form of a series contains no single LineString or Polygon, and it is accepted exactly when the series is. |
| `ArrowUnion.PromoteInvisible` | python/cuspatial/cuspatial/io/geopandas_reader.py:59-78 | A series and its all-multi form produce buffers equal as nested sequences. Sharing a code, a counter and a list, the single and multi kinds are indistinguishable once stored. |

## Left out

- `GeoPandasReader` class (geopandas_reader.py:91-143): it only passes the
  tuple to `pygeoarrow.from_lists`, and reads fields back through
  `cudf.Series.from_arrow` and Arrow buffer accessors. That code is not part of
  this model. `Field_Enum` (lines 28-32) is used only there; its values
  coincide with the type codes.
- Shapely's `mapping(geom)["coordinates"]` (line 48) is a foreign call. Each
  geometry carries its coordinates as an opaque nested sequence (`Coords`),
  whose ordinates are reals the model never inspects.
- `GeoSeriesParser.ParseGeometries`: its `TypeError(typeName)` stands for
  whichever exception the reader raises first at an unknown element. The stop
  position and the absence of any result match the reader; the exception's
  class and message do not always match. Line 48 runs before the type tests:
  - a GeometryCollection has no `"coordinates"` key, so it raises `KeyError`
    at line 48;
  - a missing entry (`None`) raises `AttributeError` at line 48;
  - only an object whose mapping has a `"coordinates"` key reaches line 80's
    `TypeError(type(geom))`.
- `Geometries.Promote`: `Coords` does not tell a Python list from a tuple.
  The reader wraps a single line or polygon in a list (lines 60 and 70), while
  Shapely hands out a multi geometry's coordinates as tuples. So "the same
  entry" means equal as nested sequences; under Python `==` a list and a
  tuple differ.
- `ArrowUnion.PromoteInvisible`: its equal buffers rest on the same
  identification of lists with tuples, so they are equal as nested sequences,
  not under Python `==`.
- `isinstance` against the six Shapely classes becomes pattern matching on a
  closed datatype. Subclassing and Python's dynamic typing of the coordinate
  lists are not modelled.
- `Decode` is not code of the repository. It is the reading rule of an Arrow
  dense union (type code selects the child, offset indexes into it), used here
  as the partner of the encoding.
- `cpp/include/cuspatial/point_quadtree.hpp` declares `quadtree_on_points`
  without its implementation, and `cpp/include/cuspatial/detail/utility/traits.hpp`
  holds only compile-time type traits. Neither has runtime behaviour to model.
- The batched point-in-polygon engine, coordinate projection and GPU
  parallelism of cuSpatial are not part of this model. Their source is not
  among the files modelled.
