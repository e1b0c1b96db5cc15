/** The geometry types the core takes from the `orb` library. Coordinates are
    never computed on by the core: they only travel to the containment oracle. */
module Orb {

  /** orb.Point: an (x, y) pair of float64 coordinates. */
  datatype Point = Point(x: real, y: real)

  /** orb.Ring: a closed sequence of points. */
  type Ring = seq<Point>

  /** orb.Polygon: an outer ring followed by its holes. */
  type Polygon = seq<Ring>

  /** orb.MultiPolygon: a sequence of polygons. */
  type MultiPolygon = seq<Polygon>

  /** The shapes a GeoJSON feature can carry; every kind the loader does not
      accept (points, line strings, collections, ...) is `OtherGeometry`. */
  datatype Geometry =
    | PolygonGeometry(polygon: Polygon)
    | MultiPolygonGeometry(parts: MultiPolygon)
    | OtherGeometry

  /** planar.PolygonContains, a floating-point predicate in a foreign library:
      every operation that needs it receives it as a parameter. */
  type Contains = (Polygon, Point) -> bool
}
