/**
 The extraterrestrial-radiation estimator (ASCE method) and the altitude
 scaling to ground-level global radiation.

 The estimator is imperative in the source: scalar reassignments for the
 longitudes and an in-place clipping loop over the window arrays, around
 whole-array expressions. `ExtraterrestrialRadiation` follows those steps;
 `ExtraterrestrialSample` states what each output element is.
 */
module Radiation {
  import opened Numerics
  import opened Calendar
  import opened SolarTime
  import opened DaylightWindow

  /** Solar constant (W/m2), as written in the source. */
  const SolarConstant: real := 100000.0 * 49.2 / 3600.0

  /** Solar declination (radians) on day of year `doy`. */
  function SolarDeclination(trig: Trig, doy: int): (declination: real)
    ensures BoundedSinCos(trig) ==> -0.409 <= declination <= 0.409
  {
    var x := 2.0 * Pi / 365.0 * doy as real - 1.39;
    assert BoundedSinCos(trig) ==> -1.0 <= trig.sin(x) <= 1.0;
    0.409 * trig.sin(x)
  }

  /** Inverse squared relative Sun-Earth distance on day of year `doy`. */
  function InverseRelativeDistance(trig: Trig, doy: int): (dr: real)
    ensures BoundedSinCos(trig) ==> 0.967 <= dr <= 1.033
  {
    var x := 2.0 * Pi * doy as real / 365.0;
    assert BoundedSinCos(trig) ==> -1.0 <= trig.cos(x) <= 1.0;
    1.0 + 0.033 * trig.cos(x)
  }

  /** Sunset hour angle: arccos(-tan(lat) tan(declination)), without any clamping of the argument. */
  function SunsetHourAngle(trig: Trig, lat: real, declination: real): (omegaS: real) {
    trig.arccos(-trig.tan(lat * Pi / 180.0) * trig.tan(declination))
  }

  /** The radiation integral over the clipped window [omega1, omega2] (before the zero-limit). */
  function RadiationIntegral(trig: Trig, dr: real, lat: real, declination: real, omega1: real, omega2: real): (ra: real)
    ensures omega1 == omega2 ==> ra == 0.0
  {
    12.0 / Pi * SolarConstant * dr * (
      (omega2 - omega1) * trig.sin(lat * Pi / 180.0) * trig.sin(declination) +
      trig.cos(lat * Pi / 180.0) * trig.cos(declination) * (trig.sin(omega2) - trig.sin(omega1)))
  }

  /** The zero-limit `np.where(ra < 0, 0, ra)`. */
  function ZeroLimit(ra: seq<real>): (limited: seq<real>)
    ensures |limited| == |ra|
    ensures forall i :: 0 <= i < |ra| ==> limited[i] >= 0.0
    ensures forall i :: 0 <= i < |ra| && ra[i] >= 0.0 ==> limited[i] == ra[i]
    ensures forall i :: 0 <= i < |ra| && ra[i] < 0.0 ==> limited[i] == 0.0
  {
    seq(|ra|, i requires 0 <= i < |ra| => if ra[i] < 0.0 then 0.0 else ra[i])
  }

  /** Solar time angle at the middle of the averaging period of one time stamp. */
  function MidWindowAngle(trig: Trig, ts: TimeStamp, averagingPeriod: int, lon: real, zone: int): (omega: real)
    requires Valid(ts)
  {
    var deltaLon := DeltaLongitude(CentralMeridianLongitude(zone), LocalLongitude(lon));
    SolarTimeAngle(MidWindowHour(ts, averagingPeriod, zone), deltaLon, SeasonalCorrection(trig, DoY(ts)))
  }

  /** The zone enters the solar time angle only through the delta longitude: it cancels out of the hour. */
  lemma MidWindowAngleClosedForm(trig: Trig, ts: TimeStamp, averagingPeriod: int, lon: real, zone: int)
    requires Valid(ts)
    ensures MidWindowAngle(trig, ts, averagingPeriod, lon, zone) ==
              (Pi / 12.0) * (HourOfDay(ts) + averagingPeriod as real / 7200.0
                             + 0.06667 * DeltaLongitude(CentralMeridianLongitude(zone), LocalLongitude(lon))
                             + SeasonalCorrection(trig, DoY(ts)) - 12.0)
  {
  }

  /**
   Half the averaging period as an hour angle: pi * t1 / 24 with t1 the
   period in hours, that is half the period at 2 pi radians per 86400 s.
   */
  function HalfWindowAngle(averagingPeriod: int): (halfWidth: real)
    ensures 2.0 * halfWidth == 2.0 * Pi * averagingPeriod as real / 86400.0
    ensures averagingPeriod >= 0 ==> halfWidth >= 0.0
  {
    Pi * (averagingPeriod as real / 3600.0) / 24.0
  }

  /** Sunset hour angle on the day of one time stamp. */
  function SampleSunsetAngle(trig: Trig, ts: TimeStamp, lat: real): (omegaS: real)
    requires Valid(ts)
  {
    SunsetHourAngle(trig, lat, SolarDeclination(trig, DoY(ts)))
  }

  /** The averaging window of one time stamp, clipped to daylight. */
  function SampleWindow(trig: Trig, ts: TimeStamp, averagingPeriod: int, lat: real, lon: real, zone: int): (w: (real, real))
    requires Valid(ts)
    ensures w.0 <= w.1
  {
    var omega := MidWindowAngle(trig, ts, averagingPeriod, lon, zone);
    ClipWindow(omega - HalfWindowAngle(averagingPeriod), omega + HalfWindowAngle(averagingPeriod), SampleSunsetAngle(trig, ts, lat))
  }

  /** Extraterrestrial radiation (W/m2) of one time stamp: the zero-limited integral over its clipped window. */
  function ExtraterrestrialSample(trig: Trig, ts: TimeStamp, averagingPeriod: int, lat: real, lon: real, zone: int): (ra: real)
    requires Valid(ts)
    ensures ra >= 0.0
  {
    var doy := DoY(ts);
    var w := SampleWindow(trig, ts, averagingPeriod, lat, lon, zone);
    var ra := RadiationIntegral(trig, InverseRelativeDistance(trig, doy), lat, SolarDeclination(trig, doy), w.0, w.1);
    if ra < 0.0 then 0.0 else ra
  }

  /**
   An averaging window that ends before sunrise or starts after sunset
   collapses when clipped, and its radiation is exactly zero.
   */
  lemma DarkWindowGivesZero(trig: Trig, ts: TimeStamp, averagingPeriod: int, lat: real, lon: real, zone: int)
    requires Valid(ts)
    requires var omega := MidWindowAngle(trig, ts, averagingPeriod, lon, zone);
             var omegaS := SampleSunsetAngle(trig, ts, lat);
             omega + HalfWindowAngle(averagingPeriod) < -omegaS || omega - HalfWindowAngle(averagingPeriod) > omegaS
    ensures ExtraterrestrialSample(trig, ts, averagingPeriod, lat, lon, zone) == 0.0
  {
    var omega := MidWindowAngle(trig, ts, averagingPeriod, lon, zone);
    ClipWindowCollapsesInDarkness(omega - HalfWindowAngle(averagingPeriod), omega + HalfWindowAngle(averagingPeriod), SampleSunsetAngle(trig, ts, lat));
  }

  /**
   ExtraterrestrialRadiation: one non-negative value per time stamp, in input
   order, each being that time stamp's sample. The steps follow the source:
   whole-array expressions, the scalar longitude bookkeeping, the in-place
   clipping loop, the integral and the zero-limit.
   */
  method ExtraterrestrialRadiation(trig: Trig, timeStamps: seq<TimeStamp>, averagingPeriod: int, lat: real, lon: real, zone: int)
    returns (ra: seq<real>)
    requires forall i :: 0 <= i < |timeStamps| ==> Valid(timeStamps[i])
    ensures |ra| == |timeStamps|
    ensures forall i :: 0 <= i < |ra| ==> ra[i] >= 0.0
    ensures forall i :: 0 <= i < |ra| ==> ra[i] == ExtraterrestrialSample(trig, timeStamps[i], averagingPeriod, lat, lon, zone)
  {
    var n := |timeStamps|;

    // Day in year and solar declination
    var doy := seq(n, i requires 0 <= i < n => DoY(timeStamps[i]));
    var solarDeclination := seq(n, i requires 0 <= i < n => SolarDeclination(trig, doy[i]));

    // Hours since the start of the day, less the zone
    var timeNow := seq(n, i requires 0 <= i < n => HourOfDay(timeStamps[i]));
    timeNow := seq(n, i requires 0 <= i < n => timeNow[i] - zone as real);

    // Inverse squared relative distance factor
    var dr := seq(n, i requires 0 <= i < n => InverseRelativeDistance(trig, doy[i]));

    // Longitudes, degrees west
    var centralMeridianLongitude := -(zone as real) * 15.0;
    if centralMeridianLongitude < 0.0 {
      centralMeridianLongitude := centralMeridianLongitude + 360.0;
    }
    var localLongitude := -lon;
    if localLongitude < 0.0 {
      localLongitude := localLongitude + 360.0;
    }

    // Hour at the middle of the averaging period
    var t1 := averagingPeriod as real / 3600.0;
    var t := seq(n, i requires 0 <= i < n => timeNow[i] + zone as real + 0.5 * t1);

    // Seasonal correction for solar time
    var sc := seq(n, i requires 0 <= i < n => SeasonalCorrection(trig, doy[i]));

    // Solar time angle at the middle of the averaging period
    var deltaLon := FloatMod360(Abs(centralMeridianLongitude - localLongitude));
    var intermediate;
    if deltaLon > 180.0 {
      intermediate := 360.0 - deltaLon;
    } else {
      intermediate := deltaLon;
    }
    var sign;
    if (deltaLon > 0.0 && deltaLon <= 180.0) || (deltaLon <= -180.0 && deltaLon >= -360.0) {
      sign := 1.0;
    } else {
      sign := -1.0;
    }
    deltaLon := sign * intermediate;
    assert deltaLon == DeltaLongitude(CentralMeridianLongitude(zone), LocalLongitude(lon));
    var omega := seq(n, i requires 0 <= i < n => SolarTimeAngle(t[i], deltaLon, sc[i]));

    // Window ends, and the sunset angle
    var omega1 := new real[n](i requires 0 <= i < n => omega[i] - Pi * t1 / 24.0);
    var omega2 := new real[n](i requires 0 <= i < n => omega[i] + Pi * t1 / 24.0);
    assert Pi * t1 / 24.0 == HalfWindowAngle(averagingPeriod);
    var omegaS := new real[n](i requires 0 <= i < n => SunsetHourAngle(trig, lat, solarDeclination[i]));

    ghost var unclipped1, unclipped2 := omega1[..], omega2[..];
    ClipToDaylight(omega1, omega2, omegaS);

    var integral := seq(n, i requires 0 <= i < n reads omega1, omega2 =>
      RadiationIntegral(trig, dr[i], lat, solarDeclination[i], omega1[i], omega2[i]));

    ra := ZeroLimit(integral);

    forall i | 0 <= i < n
      ensures ra[i] == ExtraterrestrialSample(trig, timeStamps[i], averagingPeriod, lat, lon, zone)
    {
      var ts := timeStamps[i];
      assert t[i] == MidWindowHour(ts, averagingPeriod, zone);
      assert omega[i] == MidWindowAngle(trig, ts, averagingPeriod, lon, zone);
      assert (omega1[i], omega2[i]) == ClipWindow(unclipped1[i], unclipped2[i], omegaS[i]);
      assert unclipped1[i] == omega[i] - HalfWindowAngle(averagingPeriod);
      assert unclipped2[i] == omega[i] + HalfWindowAngle(averagingPeriod);
      assert omegaS[i] == SunsetHourAngle(trig, lat, solarDeclination[i]);
      assert solarDeclination[i] == SolarDeclination(trig, DoY(ts));
      assert dr[i] == InverseRelativeDistance(trig, DoY(ts));
      assert integral[i] == RadiationIntegral(trig, dr[i], lat, solarDeclination[i], omega1[i], omega2[i]);
      SampleSteps(trig, ts, averagingPeriod, lat, lon, zone, solarDeclination[i], dr[i], omega[i], omegaS[i],
                  unclipped1[i], unclipped2[i], omega1[i], omega2[i], integral[i]);
    }
  }

  /** The per-sample steps of ExtraterrestrialRadiation compute ExtraterrestrialSample. */
  lemma SampleSteps(trig: Trig, ts: TimeStamp, averagingPeriod: int, lat: real, lon: real, zone: int,
                    declination: real, dr: real, omega: real, omegaS: real,
                    unclipped1: real, unclipped2: real, omega1: real, omega2: real, integral: real)
    requires Valid(ts)
    requires declination == SolarDeclination(trig, DoY(ts)) && dr == InverseRelativeDistance(trig, DoY(ts))
    requires omega == MidWindowAngle(trig, ts, averagingPeriod, lon, zone)
    requires omegaS == SunsetHourAngle(trig, lat, declination)
    requires unclipped1 == omega - HalfWindowAngle(averagingPeriod) && unclipped2 == omega + HalfWindowAngle(averagingPeriod)
    requires (omega1, omega2) == ClipWindow(unclipped1, unclipped2, omegaS)
    requires integral == RadiationIntegral(trig, dr, lat, declination, omega1, omega2)
    ensures (if integral < 0.0 then 0.0 else integral) == ExtraterrestrialSample(trig, ts, averagingPeriod, lat, lon, zone)
  {
    assert (omega1, omega2) == SampleWindow(trig, ts, averagingPeriod, lat, lon, zone);
  }

  /** GlobalRadiation: the extraterrestrial radiation scaled by 0.75 + 2e-5 * z, z the height in metres. */
  function GlobalRadiation(ra: seq<real>, z: real): (rg: seq<real>)
    ensures |rg| == |ra|
    ensures forall i :: 0 <= i < |ra| && ra[i] == 0.0 ==> rg[i] == 0.0
  {
    seq(|ra|, i requires 0 <= i < |ra| => ra[i] * (0.75 + 2.0e-5 * z))
  }

  /** At sea level the global radiation is three quarters of the extraterrestrial radiation. */
  lemma GlobalRadiationAtSeaLevel(ra: seq<real>)
    ensures forall i :: 0 <= i < |ra| ==> GlobalRadiation(ra, 0.0)[i] == 0.75 * ra[i]
  {
  }

  /** Non-negative radiation at a non-negative height scales to non-negative global radiation. */
  lemma GlobalRadiationNonNegative(ra: seq<real>, z: real)
    requires forall i :: 0 <= i < |ra| ==> ra[i] >= 0.0
    requires z >= 0.0
    ensures forall i :: 0 <= i < |ra| ==> GlobalRadiation(ra, z)[i] >= 0.0
  {
  }

  /** Each metre of height adds 2e-5 of the extraterrestrial radiation to the sea-level value. */
  lemma GlobalRadiationHeightTerm(ra: seq<real>, z: real)
    ensures forall i :: 0 <= i < |ra| ==> GlobalRadiation(ra, z)[i] == GlobalRadiation(ra, 0.0)[i] + 2.0e-5 * z * ra[i]
  {
  }
}
