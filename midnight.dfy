/**
 * Where on Earth it is midnight at a given UTC time of day. Both the server
 * and the dashboard compute this with the same formula; this module states
 * what that formula yields, independently of how it is normalised.
 *
 * Longitudes are degrees east, exact reals (the program's floating point
 * rounding is not modelled). Local mean solar time at longitude L is
 * UTC + L/15 hours, so "midnight at L" means UTC hour h plus L/15 is a whole
 * multiple of 24.
 */
module MidnightLongitude {

  predicate ValidClock(hour: int, minute: int, second: int) {
    0 <= hour < 24 && 0 <= minute < 60 && 0 <= second < 60
  }

  /** The UTC hour of day as a fraction: hour + minute/60 + second/3600. */
  function FractionalHour(hour: int, minute: int, second: int): (h: real)
    requires ValidClock(hour, minute, second)
    ensures 0.0 <= h < 24.0
    ensures hour as real <= h < hour as real + 1.0
  {
    hour as real + minute as real / 60.0 + second as real / 3600.0
  }

  /** The local solar hour at longitude `lon` when the UTC hour is h. */
  function SolarHour(h: real, lon: real): real {
    h + lon / 15.0
  }

  /**
   * The longitude in [-180, 180) at which it is midnight: the solar hour
   * there is 0 or 24, i.e. a whole day boundary.
   */
  function LongitudeAt(hour: int, minute: int, second: int): (lon: real)
    requires ValidClock(hour, minute, second)
    ensures -180.0 <= lon < 180.0
    ensures SolarHour(FractionalHour(hour, minute, second), lon) == 0.0
         || SolarHour(FractionalHour(hour, minute, second), lon) == 24.0
  {
    var h := FractionalHour(hour, minute, second);
    if h <= 12.0 then -15.0 * h else 360.0 - 15.0 * h
  }

  /**
   * The midnight longitude is the only longitude in [-180, 180) where the
   * solar hour is a day boundary.
   */
  lemma LongitudeAtUnique(hour: int, minute: int, second: int, lon: real)
    requires ValidClock(hour, minute, second)
    requires -180.0 <= lon < 180.0
    requires var s := SolarHour(FractionalHour(hour, minute, second), lon); s == 0.0 || s == 24.0
    ensures lon == LongitudeAt(hour, minute, second)
  {
    var h := FractionalHour(hour, minute, second);
    assert lon == -15.0 * h || lon == 360.0 - 15.0 * h;
  }

  /** Up to noon the midnight longitude is -15 h; after noon it is 360 - 15 h. */
  lemma LongitudeAtPieces(hour: int, minute: int, second: int)
    requires ValidClock(hour, minute, second)
    ensures var h := FractionalHour(hour, minute, second);
      LongitudeAt(hour, minute, second) == if h <= 12.0 then -15.0 * h else 360.0 - 15.0 * h
  {
    var h := FractionalHour(hour, minute, second);
    LongitudeAtUnique(hour, minute, second, if h <= 12.0 then -15.0 * h else 360.0 - 15.0 * h);
  }

  /** The landmarks: 00:00 at 0, 06:00 at -90, 12:00 at -180, 18:00 at 90; +180 is never produced. */
  lemma Landmarks()
    ensures LongitudeAt(0, 0, 0) == 0.0
    ensures LongitudeAt(6, 0, 0) == -90.0
    ensures LongitudeAt(12, 0, 0) == -180.0
    ensures LongitudeAt(18, 0, 0) == 90.0
    ensures forall hour, minute, second :: ValidClock(hour, minute, second) ==> LongitudeAt(hour, minute, second) != 180.0
  {
  }

  /**
   * Midnight moves west at 15 degrees an hour: between two times of the same
   * half of the day, the later one has the smaller midnight longitude.
   */
  lemma MovesWest(h1: int, m1: int, s1: int, h2: int, m2: int, s2: int)
    requires ValidClock(h1, m1, s1) && ValidClock(h2, m2, s2)
    requires FractionalHour(h1, m1, s1) < FractionalHour(h2, m2, s2)
    requires FractionalHour(h2, m2, s2) <= 12.0 || 12.0 < FractionalHour(h1, m1, s1)
    ensures LongitudeAt(h2, m2, s2) - LongitudeAt(h1, m1, s1)
         == -15.0 * (FractionalHour(h2, m2, s2) - FractionalHour(h1, m1, s1))
  {
    LongitudeAtPieces(h1, m1, s1);
    LongitudeAtPieces(h2, m2, s2);
  }

  /**
   * The two normalising loops both implementations share: while the value is
   * above 180 subtract 360, then while it is below -180 add 360. Verified for
   * every input: the result is in [-180, 180], differs from x by whole turns,
   * and the ghost counters say how often each loop ran.
   */
  method Normalize(x: real) returns (r: real, ghost subtracted: nat, ghost added: nat)
    ensures -180.0 <= r <= 180.0
    ensures r == x - 360.0 * subtracted as real + 360.0 * added as real
    ensures x <= 180.0 ==> subtracted == 0
    ensures -540.0 <= x ==> added <= 1
    ensures -180.0 <= x ==> added == 0
  {
    r := x;
    subtracted, added := 0, 0;
    while r > 180.0
      invariant r == x - 360.0 * subtracted as real
      invariant subtracted > 0 ==> r > -180.0
      invariant x <= 180.0 ==> subtracted == 0
      decreases r.Floor
    {
      r := r - 360.0;
      subtracted := subtracted + 1;
    }
    while r < -180.0
      invariant r == x - 360.0 * subtracted as real + 360.0 * added as real
      invariant r <= 180.0
      invariant added > 0 ==> r < 180.0
      invariant -180.0 <= x ==> added == 0
      invariant -540.0 <= x ==> added <= 1
      decreases (-r).Floor
    {
      r := r + 360.0;
      added := added + 1;
    }
  }
}
