/**
 Clipping of the averaging window [omega1, omega2] (solar hour angles) to the
 daylight interval [-omegaS, omegaS], where omegaS is the sunset hour angle.
 */
module DaylightWindow {
  import opened Numerics

  /**
   The five sequential tests of the clipping loop applied to one window:
   both ends are raised to -s, then lowered to s, and a start left after
   the end is moved onto the end.
   */
  function ClipWindow(omega1: real, omega2: real, omegaS: real): (w: (real, real))
    ensures w.0 <= w.1
    ensures omegaS >= 0.0 ==> -omegaS <= w.0 <= w.1 <= omegaS
  {
    var start := if omega1 < -omegaS then -omegaS else omega1;
    var end := if omega2 < -omegaS then -omegaS else omega2;
    var start' := if start > omegaS then omegaS else start;
    var end' := if end > omegaS then omegaS else end;
    if start' > end' then (end', end') else (start', end')
  }

  /**
   For a non-negative sunset angle the end of the window is the end clamped
   to the daylight interval, and the start is its own clamp, capped by the end.
   */
  lemma ClipWindowEnds(omega1: real, omega2: real, omegaS: real)
    requires omegaS >= 0.0
    ensures var w := ClipWindow(omega1, omega2, omegaS);
            (omega2 < -omegaS ==> w.1 == -omegaS) &&
            (omega2 > omegaS ==> w.1 == omegaS) &&
            (-omegaS <= omega2 <= omegaS ==> w.1 == omega2)
    ensures var w := ClipWindow(omega1, omega2, omegaS);
            var clamped := if omega1 < -omegaS then -omegaS else if omega1 > omegaS then omegaS else omega1;
            w.0 == Min(clamped, w.1)
  {
  }

  /** A window already inside daylight and in order is left as it is. */
  lemma ClipWindowKeepsDaylightWindow(omega1: real, omega2: real, omegaS: real)
    requires -omegaS <= omega1 <= omega2 <= omegaS
    ensures ClipWindow(omega1, omega2, omegaS) == (omega1, omega2)
  {
  }

  /** Clipping twice gives what clipping once gives. */
  lemma ClipWindowIdempotent(omega1: real, omega2: real, omegaS: real)
    ensures var w := ClipWindow(omega1, omega2, omegaS);
            ClipWindow(w.0, w.1, omegaS) == w
  {
  }

  /**
   A window that ends before sunrise or starts after sunset collapses to a
   single point.
   */
  lemma ClipWindowCollapsesInDarkness(omega1: real, omega2: real, omegaS: real)
    requires omega2 < -omegaS || omega1 > omegaS
    ensures ClipWindow(omega1, omega2, omegaS).0 == ClipWindow(omega1, omega2, omegaS).1
  {
  }

  /**
   The clipping loop: for every index of `omegaS`, the five tests rewrite
   omega1[i] and omega2[i] in place. Entries past the length of `omegaS` are
   not visited.
   */
  method ClipToDaylight(omega1: array<real>, omega2: array<real>, omegaS: array<real>)
    requires omega1.Length >= omegaS.Length && omega2.Length >= omegaS.Length
    requires omega1 != omega2 && omegaS != omega1 && omegaS != omega2
    modifies omega1, omega2
    ensures forall i :: 0 <= i < omegaS.Length ==>
              (omega1[i], omega2[i]) == ClipWindow(old(omega1[i]), old(omega2[i]), omegaS[i])
    ensures forall i :: 0 <= i < omegaS.Length && omegaS[i] >= 0.0 ==>
              -omegaS[i] <= omega1[i] <= omega2[i] <= omegaS[i]
    ensures forall i :: omegaS.Length <= i < omega1.Length ==> omega1[i] == old(omega1[i])
    ensures forall i :: omegaS.Length <= i < omega2.Length ==> omega2[i] == old(omega2[i])
  {
    for i := 0 to omegaS.Length
      invariant forall k :: 0 <= k < i ==>
                  (omega1[k], omega2[k]) == ClipWindow(old(omega1[k]), old(omega2[k]), omegaS[k])
      invariant forall k :: i <= k < omega1.Length ==> omega1[k] == old(omega1[k])
      invariant forall k :: i <= k < omega2.Length ==> omega2[k] == old(omega2[k])
    {
      if omega1[i] < -omegaS[i] {
        omega1[i] := -omegaS[i];
      }
      if omega2[i] < -omegaS[i] {
        omega2[i] := -omegaS[i];
      }
      if omega1[i] > omegaS[i] {
        omega1[i] := omegaS[i];
      }
      if omega2[i] > omegaS[i] {
        omega2[i] := omegaS[i];
      }
      if omega1[i] > omega2[i] {
        omega1[i] := omega2[i];
      }
    }
  }
}
