/**
 Solar-time correction of the ASCE method: the hour at the middle of the
 averaging period, the seasonal correction, the longitude bookkeeping that
 turns the site's offset from its zone meridian into a time correction, and
 the solar time angle at the middle of the period.
 */
module SolarTime {
  import opened Numerics
  import opened Calendar

  /** Hours elapsed since the start of the time stamp's day (`(time_stamp - day_start) / one_hour`). */
  function HourOfDay(ts: TimeStamp): (h: real)
    requires Valid(ts)
    ensures 0.0 <= h < 24.0
  {
    ts.second as real / 3600.0
  }

  /**
   Hour at the middle of the averaging period, computed in the source's two
   steps: the zone is first subtracted from the civil hour (`timenow -= zone`)
   and later added back (`t = timenow + zone + 0.5 * t1`). The zone cancels:
   the result is the civil hour plus half the period.
   */
  function MidWindowHour(ts: TimeStamp, averagingPeriod: int, zone: int): (t: real)
    requires Valid(ts)
    ensures t == HourOfDay(ts) + averagingPeriod as real / 7200.0
  {
    var timeNow := HourOfDay(ts) - zone as real;
    var t1 := averagingPeriod as real / 3600.0;
    timeNow + zone as real + 0.5 * t1
  }

  /** Seasonal correction for solar time, in hours. */
  function SeasonalCorrection(trig: Trig, doy: int): (sc: real)
    ensures BoundedSinCos(trig) ==> -0.315 <= sc <= 0.315
  {
    var b := 2.0 * Pi * (doy - 81) as real / 364.0;
    var sc := 0.1645 * trig.sin(2.0 * b) - 0.1255 * trig.cos(b) - 0.025 * trig.sin(b);
    assert BoundedSinCos(trig) ==> -1.0 <= trig.sin(2.0 * b) <= 1.0 && -1.0 <= trig.sin(b) <= 1.0 && -1.0 <= trig.cos(b) <= 1.0;
    sc
  }

  /**
   A longitude, with the ASCE sign convention already applied, brought into
   [0, 360) by a single conditional +360. Only one turn is added, so the
   result is in range only for inputs in [-360, 360).
   */
  function NormalizeLongitude(x: real): (r: real)
    ensures r == x || r == x + 360.0
    ensures -360.0 <= x < 360.0 ==> 0.0 <= r < 360.0
    ensures x < 0.0 <==> r != x
  {
    if x < 0.0 then x + 360.0 else x
  }

  /** Longitude of the zone's central meridian, degrees west: -15 * zone, normalised. */
  function CentralMeridianLongitude(zone: int): (cm: real)
    ensures -12 <= zone <= 12 ==> 0.0 <= cm < 360.0
  {
    NormalizeLongitude(-(zone as real) * 15.0)
  }

  /** Longitude of the site, degrees west: -lon, normalised. */
  function LocalLongitude(lon: real): (ll: real)
    ensures -180.0 <= lon <= 180.0 ==> 0.0 <= ll < 360.0
  {
    NormalizeLongitude(-lon)
  }

  /**
   The delta-longitude rule: the absolute difference, reduced modulo 360;
   values above 180 are folded to 360 minus the value; the sign is positive
   for reduced values in (0, 180] and negative otherwise. The second
   disjunct of the sign test (a reduced value in [-360, -180]) is part of the
   rule as written.
   */
  function DeltaLongitude(centralMeridian: real, localLongitude: real): (deltaLon: real)
    ensures -180.0 < deltaLon <= 180.0
  {
    var reduced := FloatMod360(Abs(centralMeridian - localLongitude));
    var intermediate := if reduced > 180.0 then 360.0 - reduced else reduced;
    var sign := if (reduced > 0.0 && reduced <= 180.0) || (reduced <= -180.0 && reduced >= -360.0) then 1.0 else -1.0;
    sign * intermediate
  }

  /** The reduced difference is never negative, so the sign test's second disjunct never holds. */
  lemma DeltaLongitudeNegativeBranchUnreachable(centralMeridian: real, localLongitude: real)
    ensures !(FloatMod360(Abs(centralMeridian - localLongitude)) <= -180.0)
  {
  }

  /**
   For normalised longitudes the magnitude of the delta is the shorter arc
   between them, and the delta is positive exactly when the difference is
   non-zero and at most half a turn.
   */
  lemma DeltaLongitudeShortestArc(centralMeridian: real, localLongitude: real)
    requires 0.0 <= centralMeridian < 360.0 && 0.0 <= localLongitude < 360.0
    ensures var d := Abs(centralMeridian - localLongitude);
            Abs(DeltaLongitude(centralMeridian, localLongitude)) == Min(d, 360.0 - d)
    ensures var d := Abs(centralMeridian - localLongitude);
            DeltaLongitude(centralMeridian, localLongitude) > 0.0 <==> 0.0 < d <= 180.0
    ensures DeltaLongitude(centralMeridian, localLongitude) == 0.0 <==> centralMeridian == localLongitude
  {
    var d := Abs(centralMeridian - localLongitude);
    assert FloatMod360(d) == d;
  }

  /**
   The rule takes the absolute difference first: it depends only on the
   distance between the two normalised longitudes, not on which is larger.
   */
  lemma DeltaLongitudeSymmetric(centralMeridian: real, localLongitude: real)
    ensures DeltaLongitude(centralMeridian, localLongitude) == DeltaLongitude(localLongitude, centralMeridian)
  {
    assert Abs(centralMeridian - localLongitude) == Abs(localLongitude - centralMeridian);
  }

  /**
   Where the zone meridian and both mirrored sites lie in [0, 360), a site
   a degrees east of the meridian and one a degrees west get the same delta.
   */
  lemma DeltaLongitudeMirrored(centralMeridian: real, a: real)
    requires 0.0 <= centralMeridian - a < 360.0 && 0.0 <= centralMeridian + a < 360.0
    ensures DeltaLongitude(centralMeridian, centralMeridian - a) == DeltaLongitude(centralMeridian, centralMeridian + a)
  {
    assert Abs(centralMeridian - (centralMeridian - a)) == Abs(centralMeridian - (centralMeridian + a));
  }

  /**
   Across the 0/360 cut the mirror fails: in zone 0 a site at 5 degrees east
   (normalised to 355) gets -5 and one at 5 degrees west (normalised to 5) gets +5.
   */
  lemma DeltaLongitudeAcrossGreenwich()
    ensures LocalLongitude(5.0) == 355.0 && LocalLongitude(-5.0) == 5.0
    ensures DeltaLongitude(CentralMeridianLongitude(0), LocalLongitude(5.0)) == -5.0
    ensures DeltaLongitude(CentralMeridianLongitude(0), LocalLongitude(-5.0)) == 5.0
  {
    assert FloatMod360(355.0) == 355.0;
    assert FloatMod360(5.0) == 5.0;
  }

  /** Solar time angle at the middle of the averaging period, radians. */
  function SolarTimeAngle(t: real, deltaLon: real, seasonalCorrection: real): (omega: real)
    ensures omega == 0.0 <==> t + 0.06667 * deltaLon + seasonalCorrection == 12.0
  {
    (Pi / 12.0) * ((t + 0.06667 * deltaLon + seasonalCorrection) - 12.0)
  }

  /** For a valid site the longitudes are normalised and the delta lies in (-180, 180]. */
  lemma SiteLongitudesInRange(zone: int, lon: real)
    requires -12 <= zone <= 12 && -180.0 <= lon <= 180.0
    ensures 0.0 <= CentralMeridianLongitude(zone) < 360.0
    ensures 0.0 <= LocalLongitude(lon) < 360.0
    ensures CentralMeridianLongitude(zone) == -15.0 * zone as real || CentralMeridianLongitude(zone) == 360.0 - 15.0 * zone as real
    ensures LocalLongitude(lon) == -lon || LocalLongitude(lon) == 360.0 - lon
  {
  }
}
