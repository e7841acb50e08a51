/**
 The time-of-day split of a frame time: `[hours, minutes, seconds]` built
 with Python's float `%` and `int()` on a non-negative duration.
 */
module Clock {

  /** A frame time as hours, whole minutes and (fractional) seconds. */
  datatype Tod = Tod(hours: int, minutes: int, seconds: real)

  /** `q` whole times `n`. */
  function Multiple(n: real, q: int): real {
    n * q as real
  }

  /** Python's float `x % n` for a positive divisor: what is left after whole multiples of `n`. */
  function FMod(x: real, n: real): (r: real)
    requires n > 0.0
    ensures 0.0 <= r < n
    ensures exists q: int :: x == Multiple(n, q) + r
  {
    var q := (x / n).Floor;
    assert q as real <= x / n < q as real + 1.0;
    assert n * (x / n) == x;
    ScaleStrict(n, x / n, q as real + 1.0);
    assert x < n * (q as real + 1.0);
    ScaleWeak(n, q as real, x / n);
    assert n * (q as real + 1.0) == n * (q as real) + n;
    assert n * (q as real) <= x < n * (q as real) + n;
    assert x == Multiple(n, q) + (x - n * (q as real));
    x - n * (q as real)
  }

  lemma ScaleStrict(n: real, a: real, b: real)
    requires n > 0.0 && a < b
    ensures n * a < n * b
  {
    assert n * b - n * a == n * (b - a);
  }

  lemma ScaleWeak(n: real, a: real, b: real)
    requires n > 0.0 && a <= b
    ensures n * a <= n * b
  {
    assert n * b - n * a == n * (b - a);
  }

  /**
   Python's `round(x, 2)` on an exact non-negative value: the nearest
   hundredth, a tie going to the even hundredth.
   */
  function Round2(x: real): (r: real)
    requires x >= 0.0
    ensures r >= 0.0
    ensures (r * 100.0).Floor as real == r * 100.0
    ensures -0.005 <= r - x <= 0.005
  {
    var scaled := x * 100.0;
    var n := scaled.Floor;
    var frac := scaled - n as real;
    assert 0.0 <= frac < 1.0;
    var m := if frac > 0.5 || (frac == 0.5 && n % 2 == 1) then n + 1 else n;
    assert -0.5 <= m as real - scaled <= 0.5;
    var r := m as real / 100.0;
    assert r * 100.0 == m as real;
    assert (m as real).Floor == m;
    assert r - x == (m as real - scaled) / 100.0;
    r
  }

  /** Rounding to hundredths never reverses the order of two values. */
  lemma Round2Mono(x: real, y: real)
    requires 0.0 <= x <= y
    ensures Round2(x) <= Round2(y)
  {
    var sx, sy := x * 100.0, y * 100.0;
    var nx, ny := sx.Floor, sy.Floor;
    var mx := if sx - nx as real > 0.5 || (sx - nx as real == 0.5 && nx % 2 == 1) then nx + 1 else nx;
    var my := if sy - ny as real > 0.5 || (sy - ny as real == 0.5 && ny % 2 == 1) then ny + 1 else ny;
    assert Round2(x) == mx as real / 100.0;
    assert Round2(y) == my as real / 100.0;
    assert sx <= sy;
    assert nx <= ny;
    assert mx <= my;
  }

  /** A value exactly halfway between two hundredths is rounded to the even one. */
  lemma Round2TiesToEven(x: real)
    requires x >= 0.0 && x * 100.0 - (x * 100.0).Floor as real == 0.5
    ensures (Round2(x) * 100.0).Floor % 2 == 0
    ensures Round2(x) * 100.0 - x * 100.0 == 0.5 || x * 100.0 - Round2(x) * 100.0 == 0.5
  {
  }

  /** For instance 0.125 becomes 0.12 and 0.135 becomes 0.14. */
  lemma Round2HalfToEven()
    ensures Round2(0.125) == 0.12 && Round2(0.135) == 0.14
  {
    assert (12.5).Floor == 12;
    assert (13.5).Floor == 13;
  }

  /** The time of day as a number of seconds. */
  function Seconds(t: Tod): real {
    3600.0 * t.hours as real + 60.0 * t.minutes as real + t.seconds
  }

  /** `[int(d / 3600), int((d % 3600) / 60), (d % 3600) % 60]`; `int()` is the floor here since d >= 0. */
  function TimeOfDay(d: real): (t: Tod)
    requires d >= 0.0
    ensures t.hours >= 0
    ensures 0 <= t.minutes < 60 && 0.0 <= t.seconds < 60.0
    ensures 3600.0 * t.hours as real + 60.0 * t.minutes as real + t.seconds == d
  {
    var h := (d / 3600.0).Floor;
    var rest := FMod(d, 3600.0);
    var m := (rest / 60.0).Floor;
    assert rest == d - 3600.0 * h as real;
    assert FMod(rest, 60.0) == rest - 60.0 * m as real;
    Tod(h, m, FMod(rest, 60.0))
  }

  /**
   The split is the only one with minutes and seconds in range: any
   hours/minutes/seconds that add up to `d` with `0 <= minutes < 60` and
   `0 <= seconds < 60` are the ones `TimeOfDay` computes.
   */
  lemma TimeOfDayUnique(d: real, t: Tod)
    requires d >= 0.0
    requires 0 <= t.minutes < 60 && 0.0 <= t.seconds < 60.0
    requires 3600.0 * t.hours as real + 60.0 * t.minutes as real + t.seconds == d
    ensures t == TimeOfDay(d)
  {
    var u := TimeOfDay(d);
    var below := 60.0 * t.minutes as real + t.seconds;
    assert 0.0 <= below < 3600.0;
    var ubelow := 60.0 * u.minutes as real + u.seconds;
    assert 0.0 <= ubelow < 3600.0;
    assert 3600.0 * (t.hours - u.hours) as real == ubelow - below;
    assert t.hours == u.hours;
    assert 60.0 * (t.minutes - u.minutes) as real == u.seconds - t.seconds;
    assert t.minutes == u.minutes;
  }
}
