/** `struct timespec` arithmetic, as written out in src/include/libvoreutils.hpp. */
module Timespecs {

  const NANOS := 1_000_000_000

  datatype Timespec = Timespec(sec: int, nsec: int)

  const ZERO := Timespec(0, 0)

  /** What clock_gettime(2) and the conversions below guarantee of the nanosecond part. */
  predicate Normal(t: Timespec) {
    0 <= t.nsec < NANOS
  }

  /** A clock reading. */
  type Instant = t: Timespec | Normal(t) witness Timespec(0, 0)

  /** The number of nanoseconds a timespec stands for. */
  function Nanos(t: Timespec): int {
    t.sec * NANOS + t.nsec
  }

  function OfNanos(n: int): (t: Instant)
    ensures Nanos(t) == n
  {
    Timespec(n / NANOS, n % NANOS)
  }

  /** A D-Bus microsecond timestamp, converted through whole seconds. */
  function OfMicros(us: nat): (t: Instant)
    ensures Nanos(t) == us * 1000
  {
    var sec := us / 1_000_000;
    Timespec(sec, (us - sec * 1_000_000) * 1000)
  }

  predicate Greater(lhs: Timespec, rhs: Timespec)
    ensures Normal(lhs) && Normal(rhs) ==> (Greater(lhs, rhs) <==> Nanos(lhs) > Nanos(rhs))
  {
    lhs.sec > rhs.sec || (lhs.sec == rhs.sec && lhs.nsec > rhs.nsec)
  }

  predicate Less(lhs: Timespec, rhs: Timespec)
    ensures Normal(lhs) && Normal(rhs) ==> (Less(lhs, rhs) <==> Nanos(lhs) < Nanos(rhs))
  {
    lhs.sec < rhs.sec || (lhs.sec == rhs.sec && lhs.nsec < rhs.nsec)
  }

  /** Subtraction with a borrow: exact, and normal again, on normal operands. */
  function Minus(lhs: Timespec, rhs: Timespec): (r: Timespec)
    ensures Nanos(r) == Nanos(lhs) - Nanos(rhs)
    ensures Normal(lhs) && Normal(rhs) ==> Normal(r)
  {
    var borrowed :=
      if rhs.nsec > lhs.nsec then Timespec(lhs.sec - 1, lhs.nsec + NANOS) else lhs;
    Timespec(borrowed.sec - rhs.sec, borrowed.nsec - rhs.nsec)
  }

  /** A normal timespec is determined by what it stands for. */
  lemma NanosInjective(a: Instant, b: Instant)
    requires Nanos(a) == Nanos(b)
    ensures a == b
  {
  }
}
