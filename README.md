# Clear-sky solar radiation by the ASCE method

This project models `src/radest.py`, the radiation estimator. It has four parts:

- **Calendar**: the day of year of a time stamp (`DoY`) and its integer Julian day (`calcJD`). The Julian day follows the Gregorian formula as the source writes it, with Python's floor division and `astype(int)` truncation.
- **SolarTime**: the hour at the middle of the averaging period, the seasonal correction of solar time, the normalisation of the central-meridian and site longitudes, the delta-longitude rule, and the solar time angle.
- **DaylightWindow**: the loop that clips each averaging window `[omega1, omega2]` to the daylight interval `[-omegaS, omegaS]`. It is an in-place method over arrays, beside a function that gives the effect on one window.
- **Radiation**: `ExtraterrestrialRadiation` as an imperative method. It keeps the source's steps: whole-vector expressions, the scalar longitude reassignments, the in-place clipping loop, the radiation integral and the zero-limit. Beside it, `ExtraterrestrialSample` gives the value for each time stamp. This module also holds `GlobalRadiation`, the altitude scaling.

Floats are modelled as exact reals. numpy's `sin`, `cos`, `tan` and `arccos` are uninterpreted functions, passed in a `Trig` value. Some lemmas assume only that sine and cosine lie in [-1, 1].

A `datetime64` becomes a `TimeStamp`: a proleptic Gregorian year, month and day plus the second of the day. numpy's unit conversions (`astype('datetime64[Y]')`, `[M]`, `[D]`, division by a `timedelta64`) become integer arithmetic on that record.

Two behaviours of the code are kept as written, although the ASCE method intends otherwise:

- **Delta longitude.** The code reduces `fabs(cm - ll) % 360` of the normalised longitudes, so the delta depends only on the distance |cm - ll| and not on which of the two is larger (`DeltaLongitudeSymmetric`). Where the site and its zone meridian stay on the same side of the 0/360 cut, a site a degrees east of the meridian gets the same correction as one a degrees west (`DeltaLongitudeMirrored`). Across the cut this no longer holds: in zone 0 a site at 5° E gets -5 and one at 5° W gets +5, because their normalised longitudes are 355 and 5 (`DeltaLongitudeAcrossGreenwich`). The second disjunct of the sign test can never hold (`DeltaLongitudeNegativeBranchUnreachable`). All of this is kept as written.
- **Sunset angle.** The code does not clamp the argument of `arccos` to [-1, 1]. `SunsetHourAngle` passes it straight to the uninterpreted `arccos`.

`calcJD` truncates `K - 1524.5` toward zero, where `K` is the integer part of the formula. This subtracts 1525 when `K >= 1525` and 1524 otherwise. Below that point two consecutive days share Julian day 0: -4713-11-24 and -4713-11-25 (`CalcJDRepeatsAtEpoch`). So the lemmas about day steps need year >= -4712.

## Model

| member | source | states |
|---|---|---|
| Calendar.DaysInMonth | src/radest.py:64-66 | Month lengths of the proleptic Gregorian calendar that numpy uses: 28 to 31 days, and 29 exactly for February of a leap year |
| Calendar.DaysInYear | src/radest.py:64-66 | A year has 366 days exactly when it is a Gregorian leap year, 365 otherwise |
| Calendar.DaysBeforeMonth | src/radest.py:64-66 | Days of the year before a month: between 28 and 31 per preceding month |
| Calendar.SecondsIntoYear | src/radest.py:64-65 | `time_stamp - base_time`: between 0 and the length of the year in seconds |
| Calendar.DoY | src/radest.py:48-68 | Day of year = days before the month + day of month, and it lies in 1..days in the year (at most 366) |
| Calendar.DoYJanuaryFirst | src/radest.py:64-66 | January 1 is day 1, at any time of day |
| Calendar.DoYIgnoresTimeOfDay | src/radest.py:66 | The integer cast drops the time of day: DoY depends only on the date |
| Calendar.NextDay | src/radest.py:244 | Adding one day keeps the stamp valid and the time of day; it stays in the same year or moves to January 1 of the next |
| Calendar.AddDays | src/radest.py:244 | Adding n days keeps the stamp valid and the time of day, and never moves back a year |
| Calendar.PreviousDay | src/radest.py:244 | Every day but January 1 has a predecessor in the same year whose next day it is |
| Calendar.DoYNextDay | src/radest.py:64-66 | Day of year advances by one within a year; the year's last day is day 365/366 and the next one is day 1 |
| Calendar.CalendarMonth | src/radest.py:89 | Months since 1970-01 modulo 12, plus one, is the calendar month, for years before 1970 too |
| Calendar.DayOfMonth | src/radest.py:90 | Whole days since the month's start, plus one, is the day of the month |
| Calendar.TruncateTowardZero | src/radest.py:97 | astype(int) truncates toward zero: the floor for non-negative values and the ceiling for negative ones |
| Calendar.GregorianCount | src/radest.py:95-97 | No contract: the integer part of the Gregorian formula with A = yy // 100 and B = 2 - A + A // 4; its properties are stated by YearTerm, CenturyTermStep, MonthTermStep and GregorianCountCycle |
| Calendar.JulianDayCount | src/radest.py:88-94 | No contract: the date parts with January and February moved to the previous year; its properties are stated by JulianDayCountShift, JulianDayCountNextDay and JulianDayCountLowerBound |
| Calendar.CalcJD | src/radest.py:71-99 | Julian day = K - 1525 when K >= 1525, K - 1524 otherwise, with K the integer part of the formula |
| Calendar.JulianDayCountShift | src/radest.py:93-94 | January and February are counted as months 13 and 14 of the previous year |
| Calendar.CalcJDIgnoresTimeOfDay | src/radest.py:88-97 | calcJD depends only on the date |
| Calendar.YearTerm | src/radest.py:97 | floor(365.25 x) is 365 x + x // 4 on integers |
| Calendar.CenturyTermStep | src/radest.py:95-96 | The Gregorian correction B drops by one exactly at a century year that is not a multiple of 400 |
| Calendar.MonthTermStep | src/radest.py:97 | Consecutive values of floor(30.6001 (m + 1)) differ by the length of March-based month m |
| Calendar.GregorianCountLeapDayStep | src/radest.py:93-97 | The count steps by one from the last day of February, 28 or 29, to March 1 |
| Calendar.JulianDayCountNextDay | src/radest.py:93-97 | The count steps by exactly one from each day to the next: across month ends, year ends and leap days |
| Calendar.JulianDayCountLowerBound | src/radest.py:95-97 | From year -4712 on the count is at least 1525 |
| Calendar.CalcJDNextDay | src/radest.py:71-99 | From year -4712 on, calcJD of the next day is one larger |
| Calendar.JulianDayCountAddDays | src/radest.py:93-97 | The count of the stamp n days later is exactly n larger, for every year |
| Calendar.CalcJDAddDays | src/radest.py:71-99 | From year -4712 on, calcJD n days later is exactly n larger, so calcJD is strictly increasing |
| Calendar.JulianPeriodStart | src/radest.py:93-97 | -4713-11-24 is a valid date with count 1524, the day before the formula's value reaches 0.5 |
| Calendar.CalcJDRepeatsAtEpoch | src/radest.py:97 | The day with count 1524 and the day after both get Julian day 0, because of truncation toward zero |
| Calendar.GregorianCountCycle | src/radest.py:95-97 | Adding 400 years adds 146097 to the formula |
| Calendar.JulianDayCountCycle | src/radest.py:88-97 | The same date 400 years later is valid and has a count 146097 larger |
| Calendar.CalcJDGregorianCycle | src/radest.py:71-99 | The same date 400 years later has a Julian day 146097 larger |
| Calendar.DoYFromCalcJD | src/radest.py:48-99 | DoY is calcJD minus calcJD of January 1 of the same year, plus one: the two functions agree |
| Calendar.DoYWorkedExample | src/radest.py:243-251 | 2019-03-08, -09 and -10 are days 67, 68 and 69 |
| Calendar.CalcJDWorkedExample | src/radest.py:254-261 | 2019-03-08, -09 and -10 have Julian days 2458550, 2458551 and 2458552 |
| Numerics.Abs | src/radest.py:164 | math.fabs: non-negative, and equal to x or -x |
| Numerics.FloatMod360 | src/radest.py:164 | Python's float % 360.0 lies in [0, 360), differs from x by a whole number of turns, and leaves values already in [0, 360) alone |
| SolarTime.HourOfDay | src/radest.py:138-140 | Hours since the start of the day lie in [0, 24) |
| SolarTime.MidWindowHour | src/radest.py:140-157 | Subtracting the zone and adding it back cancel: the hour is the civil hour plus half the averaging period |
| SolarTime.SeasonalCorrection | src/radest.py:160-161 | With sine and cosine in [-1, 1] the correction is at most 0.315 hours either way |
| SolarTime.NormalizeLongitude | src/radest.py:148-153 | One conditional +360: the result is x or x + 360, changed exactly when x < 0, and in [0, 360) for x in [-360, 360) |
| SolarTime.CentralMeridianLongitude | src/radest.py:148-150 | -15 zone, normalised, lies in [0, 360) for zones -12..12 |
| SolarTime.LocalLongitude | src/radest.py:151-153 | -lon, normalised, lies in [0, 360) for longitudes -180..180 |
| SolarTime.SiteLongitudesInRange | src/radest.py:148-153 | For a valid zone and longitude both normalised longitudes are in [0, 360) and are the raw value or the raw value plus 360 |
| SolarTime.DeltaLongitude | src/radest.py:164-173 | The delta longitude always lies in (-180, 180] |
| SolarTime.DeltaLongitudeNegativeBranchUnreachable | src/radest.py:169 | The reduced difference is never <= -180, so the second disjunct of the sign test never holds |
| SolarTime.DeltaLongitudeShortestArc | src/radest.py:164-173 | For normalised longitudes the delta's magnitude is the shorter arc between them; it is positive exactly when the difference is in (0, 180], and zero exactly when they are equal |
| SolarTime.DeltaLongitudeSymmetric | src/radest.py:164 | Swapping the two longitudes does not change the delta: it depends only on their distance |
| SolarTime.DeltaLongitudeMirrored | src/radest.py:164-173 | Sites a degrees east and a degrees west of the zone meridian get the same delta while both stay in [0, 360) |
| SolarTime.DeltaLongitudeAcrossGreenwich | src/radest.py:148-173 | In zone 0 a site at 5 E normalises to 355 and gets -5, one at 5 W normalises to 5 and gets +5 |
| SolarTime.SolarTimeAngle | src/radest.py:174 | The solar time angle is zero exactly at corrected solar noon |
| DaylightWindow.ClipWindow | src/radest.py:183-192 | The clipped window is ordered, and lies within [-omegaS, omegaS] when omegaS >= 0 |
| DaylightWindow.ClipWindowEnds | src/radest.py:183-192 | The end is the end clamped to daylight; the start is the start clamped to daylight, capped by the end |
| DaylightWindow.ClipWindowKeepsDaylightWindow | src/radest.py:183-192 | An ordered window inside daylight is left unchanged |
| DaylightWindow.ClipWindowIdempotent | src/radest.py:183-192 | Clipping a clipped window changes nothing |
| DaylightWindow.ClipWindowCollapsesInDarkness | src/radest.py:183-192 | A window that ends before sunrise or starts after sunset collapses to a point |
| DaylightWindow.ClipToDaylight | src/radest.py:182-192 | The in-place loop leaves each visited pair equal to ClipWindow of its old values, within daylight when omegaS >= 0, and leaves entries beyond len(omegaS) unchanged |
| Radiation.SolarDeclination | src/radest.py:135 | With sine in [-1, 1] the declination lies in [-0.409, 0.409] radians |
| Radiation.InverseRelativeDistance | src/radest.py:145 | With cosine in [-1, 1] the distance factor lies in [0.967, 1.033] |
| Radiation.RadiationIntegral | src/radest.py:195-198 | The integral over an empty window is zero |
| Radiation.SunsetHourAngle | src/radest.py:181 | No contract: arccos(-tan(lat) tan(declination)) with trigonometry uninterpreted and no clamp of the argument |
| Radiation.ZeroLimit | src/radest.py:201 | Same length; negatives become 0 and non-negatives are kept, so every value is >= 0 |
| Radiation.MidWindowAngle | src/radest.py:163-174 | No contract: the solar time angle of one stamp, stated in closed form by MidWindowAngleClosedForm |
| Radiation.MidWindowAngleClosedForm | src/radest.py:140-174 | The solar time angle of one stamp: pi/12 times (civil hour + half the period + 0.06667 delta longitude + seasonal correction - 12), the zone cancelling out of the hour |
| Radiation.HalfWindowAngle | src/radest.py:177-178 | pi t1 / 24 is half the averaging period at 2 pi radians per 86400 s, non-negative for a non-negative period |
| Radiation.SampleSunsetAngle | src/radest.py:181 | No contract: the sunset hour angle on the day of one stamp, from its declination |
| Radiation.SampleWindow | src/radest.py:177-192 | A time stamp's clipped window is ordered |
| Radiation.ExtraterrestrialSample | src/radest.py:195-201 | A time stamp's extraterrestrial radiation is non-negative |
| Radiation.DarkWindowGivesZero | src/radest.py:183-201 | An averaging window wholly before sunrise or after sunset gives exactly zero radiation |
| Radiation.ExtraterrestrialRadiation | src/radest.py:102-203 | One value per time stamp, in order, each non-negative and equal to that stamp's ExtraterrestrialSample |
| Radiation.GlobalRadiation | src/radest.py:225 | Same length, and zero extraterrestrial radiation gives zero global radiation |
| Radiation.GlobalRadiationAtSeaLevel | src/radest.py:225 | At z = 0 the global radiation is 0.75 of the extraterrestrial radiation |
| Radiation.GlobalRadiationNonNegative | src/radest.py:225 | Non-negative radiation at a non-negative height stays non-negative |
| Radiation.GlobalRadiationHeightTerm | src/radest.py:225 | Each metre of height adds 2e-5 of the extraterrestrial radiation to the sea-level value |

## Left out

- Floating point: every quantity is an exact real. Rounding in `365.25*(yy+4716)`, `30.6001*(mm+1)` and the trigonometric expressions is not modelled. The two floors in calcJD are modelled as the exact integer divisions `36525*x // 100` and `306001*x // 10000`.
- Trigonometry: `np.sin`, `np.cos`, `np.tan` and `np.arccos` are uninterpreted. Only the [-1, 1] range of sine and cosine is assumed, and only where a lemma says so. As a result, nothing is proved about the value of the radiation integral except that it is zero over an empty window.
- SunsetHourAngle: has no contract. The `arccos` argument is not clamped, so in polar day or night numpy returns NaN. NaN and the comparisons against it in the clipping loop are not modelled.
- SolarDeclination, InverseRelativeDistance, SeasonalCorrection: their bounds hold only under the assumption that sine and cosine lie in [-1, 1].
- CalcJDNextDay, CalcJDAddDays, CalcJDGregorianCycle, DoYFromCalcJD: these require year >= -4712, because truncation toward zero repeats Julian day 0 at -4713-11-24/25.
- NormalizeLongitude: adds at most one turn, as the source does. Inputs outside [-360, 360) are not brought into [0, 360): that is, longitudes outside (-360, 360] and zones outside -23..24.
- The `JD = calcJD(time_stamp)` at line 142 of `ExtraterrestrialRadiation` is never used, so the method does not compute it.
- `datetime64` internals are not modelled: sub-second units, NaT, and the numpy epoch representation. A time stamp is a valid civil date plus a whole second of the day. Per-stamp day starts (`np.datetime64(t, 'D')`) are the date with second 0.
- The vectorised numpy evaluation (broadcasting, dtype promotion) is modelled as element-wise sequences of the same length. Only the clipping loop works on arrays.
- The `__main__` block prints worked examples. They are given as lemmas where they are calendar values (tests 1 to 3). The radiation printouts (tests 4 onward) depend on real trigonometry and are not modelled.
- The command-line drivers `timeq.py`, `radtst.py`, `radtst2.py` and `radlist.py` (file and console I/O around these functions) are not part of this model.
