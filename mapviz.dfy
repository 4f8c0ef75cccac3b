/**
 * The world map: when it recenters on the midnight line, the gold
 * "already celebrated" rectangle, and the midnight line itself. Longitudes
 * and latitudes are exact reals in degrees.
 */
module MapViz {
  import opened Wrappers

  datatype LatLng = LatLng(lat: real, lng: real)

  /** Leaflet bounds [[south, west], [north, east]]. */
  datatype Bounds = Bounds(south: real, west: real, north: real, east: real)

  function Abs(x: real): (r: real)
    ensures r >= 0.0 && (r == x || r == -x)
  {
    if x < 0.0 then -x else x
  }

  predicate ValidLongitude(lng: real) {
    -180.0 <= lng <= 180.0
  }

  /**
   * The distance between the map's center and the midnight line, going the
   * short way round the globe: |center - midnight|, or 360 minus it when that
   * exceeds 180.
   */
  function NormalizedDiff(centerLng: real, midnightLon: real): (nd: real)
    ensures var diff := Abs(centerLng - midnightLon); nd == diff || nd == 360.0 - diff
  {
    var diff := Abs(centerLng - midnightLon);
    if diff > 180.0 then 360.0 - diff else diff
  }

  /** The distance from b to a when going k extra whole turns round the globe. */
  function TurnDistance(a: real, b: real, k: int): real {
    Abs(a - b + 360.0 * k as real)
  }

  /**
   * For longitudes on the map, the distance is in [0, 180], symmetric, zero
   * from a longitude to itself, and the shortest of the distances between
   * the two points counted with any number of whole turns.
   */
  lemma NormalizedDiffFacts(a: real, b: real)
    requires ValidLongitude(a) && ValidLongitude(b)
    ensures 0.0 <= NormalizedDiff(a, b) <= 180.0
    ensures NormalizedDiff(a, b) == NormalizedDiff(b, a)
    ensures NormalizedDiff(a, a) == 0.0
    ensures forall k: int :: NormalizedDiff(a, b) <= TurnDistance(a, b, k)
    ensures exists k: int :: -1 <= k <= 1 && NormalizedDiff(a, b) == TurnDistance(a, b, k)
  {
    var nd := NormalizedDiff(a, b);
    if a - b > 180.0 {
      assert nd == TurnDistance(a, b, -1);
    } else if a - b < -180.0 {
      assert nd == TurnDistance(a, b, 1);
    } else {
      assert nd == TurnDistance(a, b, 0);
    }
  }

  /** The map pans only when the center is more than 30 degrees from the line; it pans to latitude 20 on the line. */
  function PanTarget(centerLng: real, midnightLon: real): (r: Option<LatLng>)
    ensures r.Some? <==> NormalizedDiff(centerLng, midnightLon) > 30.0
    ensures r.Some? ==> r.value == LatLng(20.0, midnightLon)
  {
    var normalizedDiff := NormalizedDiff(centerLng, midnightLon);
    if normalizedDiff > 30.0 then Some(LatLng(20.0, midnightLon)) else None
  }

  /**
   * As written, a center more than a full turn from the line (the map's
   * center longitude is not wrapped after a drag across the antimeridian)
   * gives a negative distance, so the map never pans back, even when the
   * short way round is far more than 30 degrees.
   */
  lemma UnwrappedCenterNeverPans(centerLng: real, midnightLon: real)
    requires Abs(centerLng - midnightLon) > 360.0
    ensures NormalizedDiff(centerLng, midnightLon) < 0.0 && PanTarget(centerLng, midnightLon).None?
  {
  }

  /** A center at 370 and the line at -170 are 180 degrees apart the short way, yet the distance comes out as -180 and the map stays. */
  lemma UnwrappedCenterExample()
    ensures TurnDistance(370.0, -170.0, -1) == 180.0
    ensures NormalizedDiff(370.0, -170.0) == -180.0 && PanTarget(370.0, -170.0).None?
  {
  }

  /**
   * Recentering settles: once the map has panned to the line, the same line
   * causes no further pan, and neither does a line that has since moved by
   * at most 30 degrees; exactly 30 degrees away does not pan.
   */
  lemma PanSettles(midnightLon: real, later: real)
    requires ValidLongitude(midnightLon) && ValidLongitude(later)
    requires Abs(later - midnightLon) <= 30.0
    ensures PanTarget(midnightLon, midnightLon).None?
    ensures PanTarget(midnightLon, later).None?
    ensures PanTarget(0.0, 30.0).None? && PanTarget(0.0, -30.0).None?
    ensures PanTarget(179.0, -179.0).None?
  {
    NormalizedDiffFacts(midnightLon, midnightLon);
  }

  /** The "already celebrated" rectangle: every latitude, from the midnight line east to 180. */
  function AlreadyCelebratedBounds(midnightLon: real): Bounds {
    Bounds(-90.0, midnightLon, 90.0, 180.0)
  }

  predicate Contains(b: Bounds, p: LatLng) {
    b.south <= p.lat <= b.north && b.west <= p.lng <= b.east
  }

  /** A point on the globe is gold exactly when it lies on or east of the midnight line. */
  lemma AlreadyCelebratedMeaning(midnightLon: real, p: LatLng)
    requires -90.0 <= p.lat <= 90.0 && ValidLongitude(p.lng)
    ensures Contains(AlreadyCelebratedBounds(midnightLon), p) <==> midnightLon <= p.lng
  {
  }

  /** The midnight line: a polyline from the south pole to the north pole along the midnight longitude. */
  function MidnightLine(midnightLon: real): seq<LatLng> {
    [LatLng(-90.0, midnightLon), LatLng(90.0, midnightLon)]
  }

  /** The line runs from pole to pole along the midnight longitude and is the rectangle's western edge. */
  lemma LineBordersRectangle(midnightLon: real)
    ensures |MidnightLine(midnightLon)| == 2
    ensures MidnightLine(midnightLon)[0].lat == -90.0 && MidnightLine(midnightLon)[1].lat == 90.0
    ensures forall i :: 0 <= i < |MidnightLine(midnightLon)| ==>
      MidnightLine(midnightLon)[i].lng == AlreadyCelebratedBounds(midnightLon).west
    ensures midnightLon <= 180.0 ==> forall i :: 0 <= i < |MidnightLine(midnightLon)| ==>
      Contains(AlreadyCelebratedBounds(midnightLon), MidnightLine(midnightLon)[i])
  {
  }
}
