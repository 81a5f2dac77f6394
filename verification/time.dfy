/** Time arithmetic on `struct timespec` (seconds and nanoseconds) and the
    conversion from the library's `ipt_time_value_t` (seconds and
    microseconds), `src/support.c`. Fields are unbounded integers here:
    the overflow of `long` near its limits is not modelled. */
module Time {

  const NanosPerSec: int := 1_000_000_000
  const MicrosPerSec: int := 1_000_000
  const NanosPerMicro: int := 1000

  datatype Timespec = Timespec(sec: int, nsec: int)

  datatype TimeValue = TimeValue(sec: int, usec: int)

  /** The instant a timespec denotes, in nanoseconds. */
  function Nanos(t: Timespec): int
  {
    t.sec * NanosPerSec + t.nsec
  }

  /** A normalised timespec keeps its nanoseconds within one second. */
  predicate Normal(t: Timespec)
  {
    0 <= t.nsec < NanosPerSec
  }

  /** C's `/` on integers: the quotient truncated toward zero. */
  function CQuot(x: int, d: int): (q: int)
    requires d > 0
    ensures x >= 0 ==> q == x / d
    ensures q * d + CRem(x, d) == x
  {
    if x >= 0 then x / d else -((-x) / d)
  }

  /** C's `%` on integers: the remainder has the sign of the dividend. */
  function CRem(x: int, d: int): (r: int)
    requires d > 0
    ensures x >= 0 ==> 0 <= r < d
    ensures x < 0 ==> -d < r <= 0
  {
    if x >= 0 then x % d else -((-x) % d)
  }

  /** `timespec_compare`: -1, 0 or 1 as `a` is before, equal to or after
      `b`, comparing seconds first and nanoseconds on a tie. */
  function Compare(a: Timespec, b: Timespec): (r: int)
    ensures r == -1 || r == 0 || r == 1
    ensures r == 0 <==> a == b
    ensures r == -1 <==> a.sec < b.sec || (a.sec == b.sec && a.nsec < b.nsec)
  {
    if a.sec < b.sec || (a.sec == b.sec && a.nsec < b.nsec) then -1
    else if a.sec > b.sec || (a.sec == b.sec && a.nsec > b.nsec) then 1
    else 0
  }

  /** Swapping the arguments negates the comparison, and it is
      transitive. */
  lemma CompareOrder(a: Timespec, b: Timespec, c: Timespec)
    ensures Compare(b, a) == -Compare(a, b)
    ensures Compare(a, b) <= 0 && Compare(b, c) <= 0 ==> Compare(a, c) <= 0
  {
  }

  /** On normalised times the comparison is the comparison of the instants
      they denote. */
  lemma CompareIsNanos(a: Timespec, b: Timespec)
    requires Normal(a) && Normal(b)
    ensures Compare(a, b) < 0 <==> Nanos(a) < Nanos(b)
    ensures Compare(a, b) == 0 <==> Nanos(a) == Nanos(b)
  {
  }

  /** `timespec_max`: `b` when `a` is before it, otherwise `a`. */
  function Max(a: Timespec, b: Timespec): (r: Timespec)
    ensures r == a || r == b
    ensures Compare(r, a) >= 0 && Compare(r, b) >= 0
  {
    if Compare(a, b) < 0 then b else a
  }

  /** `timespec_min`: `a` when it is before `b`, otherwise `b`. */
  function Min(a: Timespec, b: Timespec): (r: Timespec)
    ensures r == a || r == b
    ensures Compare(r, a) <= 0 && Compare(r, b) <= 0
  {
    if Compare(a, b) < 0 then a else b
  }

  /** The minimum comes before the maximum, and the two together are the
      two arguments. */
  lemma MinMax(a: Timespec, b: Timespec)
    ensures Compare(Min(a, b), Max(a, b)) <= 0
    ensures multiset{Min(a, b), Max(a, b)} == multiset{a, b}
  {
  }

  /** `timespec_diff`: subtract field by field and borrow a second when
      the nanoseconds go negative. The code expects `a` not to be before
      `b`, but computes a result whatever the inputs. */
  function Diff(a: Timespec, b: Timespec): (r: Timespec)
    ensures Nanos(r) == Nanos(a) - Nanos(b)
    ensures Normal(a) && Normal(b) ==> Normal(r)
  {
    var sec := a.sec - b.sec;
    var nsec := a.nsec - b.nsec;
    if nsec < 0 then Timespec(sec - 1, NanosPerSec + nsec) else Timespec(sec, nsec)
  }

  /** On normalised times the difference has non-negative seconds exactly
      when `a` is not before `b`, which is when it denotes a non-negative
      duration; it is zero exactly when they are equal. */
  lemma DiffSign(a: Timespec, b: Timespec)
    requires Normal(a) && Normal(b)
    ensures Diff(a, b).sec >= 0 <==> Compare(a, b) >= 0
    ensures Diff(a, b) == Timespec(0, 0) <==> a == b
  {
  }

  /** `ipt_time_value_to_timespec`: carry whole seconds out of the
      microseconds (with C's truncating division) and scale the rest to
      nanoseconds. */
  function ToTimespec(tv: TimeValue): (r: Timespec)
    ensures Nanos(r) == tv.sec * NanosPerSec + tv.usec * NanosPerMicro
    ensures tv.usec >= 0 ==> Normal(r)
    ensures 0 <= tv.usec < MicrosPerSec ==> r == Timespec(tv.sec, tv.usec * NanosPerMicro)
  {
    var q := CQuot(tv.usec, MicrosPerSec);
    var rem := CRem(tv.usec, MicrosPerSec);
    assert (tv.sec + q) * NanosPerSec == tv.sec * NanosPerSec + q * MicrosPerSec * NanosPerMicro;
    Timespec(tv.sec + q, rem * NanosPerMicro)
  }

  /** A negative microsecond count yields a timespec that is not
      normalised: the conversion only corrects values that overflow
      upwards. */
  lemma NegativeMicrosNotNormal(tv: TimeValue)
    requires -MicrosPerSec < tv.usec < 0
    ensures !Normal(ToTimespec(tv))
  {
  }
}
