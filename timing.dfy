/*
 * ts_delta: the difference of two timespecs as a whole number of
 * microseconds, and the same difference in a unit chosen for display. The
 * subtraction first borrows a second into the nanoseconds of x when they
 * are smaller than those of y, which changes x but not the instant it
 * denotes. `long` arithmetic is taken to be wide enough, and C's integer
 * division, which truncates toward zero, is written out.
 */
module Timing {
  import opened Base

  const NANOS_PER_SEC: int := 1_000_000_000

  /** A struct timespec that ts_delta may update. */
  class Timespec {
    var sec: int
    var nsec: int

    constructor (s: int, n: int)
      ensures sec == s && nsec == n
    {
      sec := s;
      nsec := n;
    }
  }

  /** C's division for a positive divisor: the quotient truncated toward zero. */
  function CDiv(a: int, b: int): (q: int)
    requires b > 0
    ensures 0 <= a ==> q * b <= a < q * b + b
    ensures a < 0 ==> q * b - b < a <= q * b
  {
    if a >= 0 then a / b else -((-a) / b)
  }

  /** The display units, each with its symbol and its length in nanoseconds. */
  datatype Unit = Minutes | Seconds | Nanoseconds | Microseconds | Milliseconds

  function Symbol(u: Unit): string {
    match u
    case Minutes => "m"
    case Seconds => "s"
    case Nanoseconds => "ns"
    case Microseconds => "µs"
    case Milliseconds => "ms"
  }

  function Nanos(u: Unit): nat {
    match u
    case Minutes => 60 * NANOS_PER_SEC
    case Seconds => NANOS_PER_SEC
    case Nanoseconds => 1
    case Microseconds => 1000
    case Milliseconds => 1_000_000
  }

  /** The seconds and nanoseconds of x - y after the borrow. */
  function Delta(xs: int, xn: int, ys: int, yn: int): (int, int) {
    if xn < yn then (xs - 1 - ys, xn + NANOS_PER_SEC - yn) else (xs - ys, xn - yn)
  }

  /** The return value: seconds times a million plus the truncated microseconds of the nanoseconds. */
  function Micros(d: (int, int)): int {
    d.0 * 1_000_000 + CDiv(d.1, 1000)
  }

  /** The unit and value ts_delta reports for a difference. */
  function Display(d: (int, int)): (Unit, int) {
    var (s, n) := d;
    if s >= 600 then (Minutes, CDiv(s, 60))
    else if s >= 10 then (Seconds, s)
    else if s == 0 then
      if n <= 10000 then (Nanoseconds, n)
      else if n <= 10_000_000 then (Microseconds, CDiv(n, 1000))
      else (Milliseconds, CDiv(n, 1_000_000))
    else (Milliseconds, s * 1000 + CDiv(n, 1_000_000))
  }

  /** A timespec whose nanoseconds lie in 0..999999999. */
  predicate Normal(n: int) {
    0 <= n < NANOS_PER_SEC
  }

  /** For normalised operands the difference is normalised and denotes x - y. */
  lemma DeltaExact(xs: int, xn: int, ys: int, yn: int)
    requires Normal(xn) && Normal(yn)
    ensures var d := Delta(xs, xn, ys, yn);
      Normal(d.1) && d.0 * NANOS_PER_SEC + d.1 == (xs * NANOS_PER_SEC + xn) - (ys * NANOS_PER_SEC + yn)
  {
  }

  /** For normalised operands the return value is x - y in whole microseconds, rounded down. */
  lemma MicrosFloor(xs: int, xn: int, ys: int, yn: int)
    requires Normal(xn) && Normal(yn)
    ensures var total := (xs * NANOS_PER_SEC + xn) - (ys * NANOS_PER_SEC + yn);
      var m := Micros(Delta(xs, xn, ys, yn));
      m * 1000 <= total < m * 1000 + 1000
  {
    DeltaExact(xs, xn, ys, yn);
  }

  /**
   * For normalised operands the reported value is x - y counted in the
   * reported unit, rounded down.
   */
  lemma DisplayFloor(xs: int, xn: int, ys: int, yn: int)
    requires Normal(xn) && Normal(yn)
    ensures var total := (xs * NANOS_PER_SEC + xn) - (ys * NANOS_PER_SEC + yn);
      var (u, v) := Display(Delta(xs, xn, ys, yn));
      Nanos(u) * v <= total < Nanos(u) * (v + 1)
  {
    DeltaExact(xs, xn, ys, yn);
    var (s, n) := Delta(xs, xn, ys, yn);
    if s >= 600 {
      var q := CDiv(s, 60);
      assert q * 60 <= s < q * 60 + 60;
      assert Nanos(Minutes) * q == (q * 60) * NANOS_PER_SEC;
      assert Nanos(Minutes) * (q + 1) == (q * 60 + 60) * NANOS_PER_SEC;
    } else if s < 0 {
      var q := CDiv(n, 1_000_000);
      assert Nanos(Milliseconds) * (s * 1000 + q) == s * NANOS_PER_SEC + q * 1_000_000;
    }
  }

  /**
   * The unit is chosen by the size of x - y: minutes from ten minutes on,
   * seconds from ten seconds on, and below one second nanoseconds up to
   * 10000 ns, microseconds up to 10 ms and milliseconds above; a
   * difference of one to nine seconds, or a negative one, is in milliseconds.
   */
  lemma DisplayUnit(xs: int, xn: int, ys: int, yn: int)
    requires Normal(xn) && Normal(yn)
    ensures var total := (xs * NANOS_PER_SEC + xn) - (ys * NANOS_PER_SEC + yn);
      var u := Display(Delta(xs, xn, ys, yn)).0;
      (u == Minutes <==> total >= 600 * NANOS_PER_SEC) &&
      (u == Seconds <==> 10 * NANOS_PER_SEC <= total < 600 * NANOS_PER_SEC) &&
      (u == Nanoseconds <==> 0 <= total <= 10000) &&
      (u == Microseconds <==> 10000 < total <= 10_000_000) &&
      (u == Milliseconds <==> total < 0 || 10_000_000 < total < 10 * NANOS_PER_SEC)
  {
    DeltaExact(xs, xn, ys, yn);
  }

  /**
   * ts_delta: borrows a second into x when its nanoseconds are smaller than
   * y's, returns the difference in microseconds and, when the caller asks
   * for it (both res and unit given), the difference in a display unit.
   */
  method TsDelta(x: Timespec, y: Timespec, wantDisplay: bool) returns (micros: int, display: Option<(string, int)>)
    modifies x
    ensures old(x.nsec) < old(y.nsec) ==> x.sec == old(x.sec) - 1 && x.nsec == old(x.nsec) + NANOS_PER_SEC
    ensures old(x.nsec) >= old(y.nsec) ==> x.sec == old(x.sec) && x.nsec == old(x.nsec)
    ensures x.sec * NANOS_PER_SEC + x.nsec == old(x.sec * NANOS_PER_SEC + x.nsec)
    ensures micros == Micros(Delta(old(x.sec), old(x.nsec), old(y.sec), old(y.nsec)))
    ensures display == if wantDisplay then
        var (u, v) := Display(Delta(old(x.sec), old(x.nsec), old(y.sec), old(y.nsec)));
        Some((Symbol(u), v))
      else None
  {
    if x.nsec < y.nsec {
      x.nsec := x.nsec + NANOS_PER_SEC;
      x.sec := x.sec - 1;
    }
    var rs := x.sec - y.sec;
    var rn := x.nsec - y.nsec;
    display := None;
    if wantDisplay {
      if rs >= 600 {
        display := Some(("m", CDiv(rs, 60)));
      } else if rs >= 10 {
        display := Some(("s", rs));
      } else if rs == 0 {
        if rn <= 10000 {
          display := Some(("ns", rn));
        } else if rn <= 10_000_000 {
          display := Some(("µs", CDiv(rn, 1000)));
        } else {
          display := Some(("ms", CDiv(rn, 1_000_000)));
        }
      } else {
        display := Some(("ms", rs * 1000 + CDiv(rn, 1_000_000)));
      }
    }
    micros := rs * 1_000_000 + CDiv(rn, 1000);
  }
}
