/** Progress report of a sweep (timer.py): elapsed and remaining time, each
    brought to seconds, minutes, hours or days. The clock reading is a
    parameter (the elapsed seconds); the two messages are returned as values
    instead of being echoed. */
module Timer {
  import opened Basics

  /** Seconds in one of the units the report uses. */
  function UnitSeconds(unit: string): real
  {
    if unit == "min" then 60.0
    else if unit == "h" then 3600.0
    else if unit == "d" then 86400.0
    else 1.0
  }

  /** The unit cascade: above 60 s use minutes, above 60 min hours, above 24 h days.
      The shown amount times the unit is the input, and every unit but the
      smallest shows more than one of itself. */
  function Scale(t: real): (r: (real, string))
    ensures r.1 == "s" <==> t <= 60.0
    ensures r.1 == "min" <==> 60.0 < t <= 3600.0
    ensures r.1 == "h" <==> 3600.0 < t <= 86400.0
    ensures r.1 == "d" <==> 86400.0 < t
    ensures r.0 * UnitSeconds(r.1) == t
    ensures r.1 == "min" ==> 1.0 < r.0 <= 60.0
    ensures r.1 == "h" ==> 1.0 < r.0 <= 24.0
    ensures r.1 == "d" ==> 1.0 < r.0
  {
    if t > 60.0 then
      var m := t / 60.0;
      if m > 60.0 then
        var h := m / 60.0;
        if h > 24.0 then (h / 24.0, "d") else (h, "h")
      else (m, "min")
    else (t, "s")
  }

  /** The two report lines: elapsed time, and either the estimate of the
      remaining time or None for "Done". */
  datatype Report = Report(elapsed: (real, string), remaining: Option<(real, string)>)

  /** Remaining seconds, extrapolated linearly from i of L steps done in tDone seconds. */
  function Remaining(i: int, total: int, tDone: real): real
    requires i != 0
  {
    tDone * (total - i) as real / i as real
  }

  /** print_time for step i of total after tDone seconds; None where the
      estimate divides by zero (i = 0). */
  function PrintTime(i: int, total: int, tDone: real): (r: Option<Report>)
    ensures r.Some? <==> i != 0
    ensures r.Some? ==> r.value.elapsed == Scale(tDone)
    ensures r.Some? ==> (r.value.remaining.Some? <==> i < total)
    ensures r.Some? && r.value.remaining.Some? ==> r.value.remaining.value == Scale(Remaining(i, total, tDone))
  {
    if i == 0 then None
    else
      var rem := Scale(Remaining(i, total, tDone));
      Some(Report(Scale(tDone), if i < total then Some(rem) else None))
  }

  /** The estimate assumes a constant rate: elapsed plus remaining is the
      time all L steps take at the pace of the first i. */
  lemma RemainingIsLinear(i: int, total: int, tDone: real)
    requires i > 0
    ensures tDone + Remaining(i, total, tDone) == tDone * total as real / i as real
  {
    var ir := i as real;
    assert tDone * (total - i) as real == tDone * total as real - tDone * ir;
    assert (tDone * ir) / ir == tDone;
  }
}
