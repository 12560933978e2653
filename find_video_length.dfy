/**
 * The arithmetic and the file selection of the video runtime summer: which
 * walked files count as videos, how a duration is split into hours, minutes
 * and seconds for display, and how the total is split into days, hours and
 * minutes. Durations are exact reals; Python's `//` on them is `.Floor`.
 */
module FindVideoLength {
  import opened Strings
  import opened Paths
  import opened Walk

  lemma MulMonotone(u: real, v: real, d: real)
    requires u <= v && d > 0.0
    ensures u * d <= v * d
  {
    assert (v - u) * d >= 0.0;
  }

  lemma MulStrictMonotone(u: real, v: real, d: real)
    requires u < v && d > 0.0
    ensures u * d < v * d
  {
    assert (v - u) * d > 0.0;
  }

  /** The floor of `x / d` times `d` is at most `x`, and one more than it times `d` is above `x`. */
  lemma FloorDivBounds(x: real, d: real)
    requires d > 0.0
    ensures (x / d).Floor as real * d <= x < ((x / d).Floor as real + 1.0) * d
  {
    var y := x / d;
    assert y * d == x;
    var f := y.Floor as real;
    assert f <= y < f + 1.0;
    MulMonotone(f, y, d);
    MulStrictMonotone(y, f + 1.0, d);
    assert x < (f + 1.0) * d;
  }

  /** Python's `divmod(x, d)` for a positive divisor: the floored quotient and the remainder. */
  function DivMod(x: real, d: real): (qr: (int, real))
    requires d > 0.0
    ensures qr.0 as real * d + qr.1 == x
    ensures 0.0 <= qr.1 < d
  {
    FloorDivBounds(x, d);
    var q := (x / d).Floor;
    (q, x - q as real * d)
  }

  /** The three values `format_time` prints. */
  datatype Hms = Hms(hours: int, minutes: int, seconds: real)

  /**
   * `format_time`, without the string formatting: `divmod` by 3600, then the
   * remainder `divmod` by 60.
   */
  function FormatTime(seconds: real): (t: Hms)
    ensures t.hours as real * 3600.0 + t.minutes as real * 60.0 + t.seconds == seconds
    ensures 0 <= t.minutes < 60
    ensures 0.0 <= t.seconds < 60.0
    ensures seconds >= 0.0 ==> t.hours >= 0
  {
    var (hours, rest) := DivMod(seconds, 3600.0);
    var (minutes, secs) := DivMod(rest, 60.0);
    assert minutes as real * 60.0 < 3600.0;
    assert seconds >= 0.0 ==> hours >= 0 by {
      if seconds >= 0.0 {
        assert hours as real * 3600.0 > -3600.0;
      }
    }
    Hms(hours, minutes, secs)
  }

  /** The first four values `get_total_runtime` returns. */
  datatype Runtime = Runtime(seconds: real, minutes: int, hours: int, days: int)

  /** An integer `q` with `q * d <= x < (q + 1) * d` is the floor of `x / d`. */
  lemma FloorDivUnique(x: real, d: real, q: int)
    requires d > 0.0
    requires q as real * d <= x < (q as real + 1.0) * d
    ensures (x / d).Floor == q
  {
    var y := x / d;
    assert y * d == x;
    if y < q as real {
      MulStrictMonotone(y, q as real, d);
    }
    if y >= q as real + 1.0 {
      MulMonotone(q as real + 1.0, y, d);
    }
  }

  lemma ScaledLowerBound(x: real, a: int, b: int, m: int, q: int)
    requires a > 0 && b > 0
    requires m as real * a as real <= x
    requires q * b <= m
    ensures q as real * (a * b) as real <= x
  {
    MulMonotone((q * b) as real, m as real, a as real);
    assert (q * b) as real * a as real == q as real * (a * b) as real;
  }

  lemma ScaledUpperBound(x: real, a: int, b: int, m: int, q: int)
    requires a > 0 && b > 0
    requires x < (m as real + 1.0) * a as real
    requires m + 1 <= (q + 1) * b
    ensures x < (q as real + 1.0) * (a * b) as real
  {
    MulMonotone((m + 1) as real, ((q + 1) * b) as real, a as real);
    assert (m + 1) as real == m as real + 1.0;
    assert ((q + 1) * b) as real * a as real == (q as real + 1.0) * (a * b) as real;
  }

  /** Flooring twice, by `a` and then by `b`, is flooring once by `a * b`. */
  lemma NestedFloor(x: real, a: int, b: int)
    requires a > 0 && b > 0
    ensures (x / a as real).Floor / b == (x / (a * b) as real).Floor
  {
    var m := (x / a as real).Floor;
    var q := m / b;
    FloorDivBounds(x, a as real);
    assert q * b <= m && m + 1 <= (q + 1) * b;
    ScaledLowerBound(x, a, b, m, q);
    ScaledUpperBound(x, a, b, m, q);
    FloorDivUnique(x, (a * b) as real, q);
  }

  /**
   * The end of `get_total_runtime`: minutes, hours and days by successive floor
   * divisions of the total, reported as minutes mod 60, hours mod 24 and days.
   */
  function Breakdown(totalRuntime: real): (r: Runtime)
    ensures r.seconds == totalRuntime
    ensures 0 <= r.minutes < 60 && 0 <= r.hours < 24
    ensures r.days * 1440 + r.hours * 60 + r.minutes == (totalRuntime / 60.0).Floor
    ensures r.days == (totalRuntime / 86400.0).Floor
  {
    var seconds := totalRuntime;
    var minutes := (seconds / 60.0).Floor;
    var hours := minutes / 60;
    var days := hours / 24;
    NestedFloor(seconds, 60, 60);
    NestedFloor(seconds, 3600, 24);
    Runtime(seconds, minutes % 60, hours % 24, days)
  }

  /** The suffix test that decides which walked files are submitted: case-sensitive. */
  predicate IsVideoName(name: string)
  {
    EndsWith(name, ".mp4") || EndsWith(name, ".avi") || EndsWith(name, ".mkv")
  }

  /** The paths submitted for processing, in walk order. */
  function VideoFiles(w: Walk): seq<Path>
  {
    Select(w, IsVideoName)
  }

  /** A path is submitted exactly when the walk yields a file of that path whose name ends in ".mp4", ".avi" or ".mkv". */
  lemma VideoFilesExactly(w: Walk, p: Path)
    ensures p in VideoFiles(w) <==>
            exists i, k :: 0 <= i < |w| && 0 <= k < |w[i].files| && Join(w[i].root, w[i].files[k]) == p &&
                           (EndsWith(w[i].files[k], ".mp4") || EndsWith(w[i].files[k], ".avi") || EndsWith(w[i].files[k], ".mkv"))
  {
    SelectMembership(w, IsVideoName, p);
    if p in VideoFiles(w) {
      var i, k :| SelectedAt(w, IsVideoName, p, i, k);
    }
    if exists i, k :: 0 <= i < |w| && 0 <= k < |w[i].files| && Join(w[i].root, w[i].files[k]) == p &&
                      (EndsWith(w[i].files[k], ".mp4") || EndsWith(w[i].files[k], ".avi") || EndsWith(w[i].files[k], ".mkv")) {
      var i, k :| 0 <= i < |w| && 0 <= k < |w[i].files| && Join(w[i].root, w[i].files[k]) == p &&
                  (EndsWith(w[i].files[k], ".mp4") || EndsWith(w[i].files[k], ".avi") || EndsWith(w[i].files[k], ".mkv"));
      assert SelectedAt(w, IsVideoName, p, i, k);
    }
  }

  /** The test is case-sensitive: no name ending in upper-case ".MP4" is a video. */
  lemma UpperCaseNotVideo(stem: string)
    ensures !IsVideoName(stem + ".MP4")
  {
    var name := stem + ".MP4";
    assert name[|name| - 4..] == ".MP4";
    assert name[|name| - 1] == '4';
    assert name[|name| - 2] == 'P';
  }
}
