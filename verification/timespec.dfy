/**
  A (seconds, nanoseconds) pair as used by the timer emulation, and the
  library's carry-normalising addition. The timer code does not call the
  addition yet: the periodic re-arm that would use it is unimplemented
  (the TODO at src/timer_ul.c:99).

  Fields are unbounded integers: the overflow of the C `time_t` / `long`
  fields is not modelled, and the properties below are stated for
  normalised inputs instead.
 */
module Timespec {

  /** Nanoseconds in one second. */
  const NSEC_PER_SEC: int := 1_000_000_000

  datatype Timespec = Timespec(sec: int, nsec: int)

  /** The all-zero timespec. */
  const Zero: Timespec := Timespec(0, 0)

  /** The nanosecond field holds strictly less than one second. */
  predicate Normalised(t: Timespec) {
    0 <= t.nsec < NSEC_PER_SEC
  }

  /** The total duration a timespec denotes, in nanoseconds. */
  function ToNanos(t: Timespec): int {
    t.sec * NSEC_PER_SEC + t.nsec
  }

  /** The normalised timespec denoting `n` nanoseconds (floor division, so
      negative durations also get a nanosecond field in range). */
  function FromNanos(n: int): (t: Timespec)
    ensures Normalised(t)
    ensures ToNanos(t) == n
  {
    Timespec(n / NSEC_PER_SEC, n % NSEC_PER_SEC)
  }

  /** The exact duration from `b` to `a`, normalised. It serves as a
      reference subtraction; the code's own `timespec_sub` is not part of
      this model. */
  function Difference(a: Timespec, b: Timespec): (r: Timespec)
    ensures Normalised(r)
    ensures ToNanos(r) + ToNanos(b) == ToNanos(a)
  {
    FromNanos(ToNanos(a) - ToNanos(b))
  }

  /** A normalised timespec is determined by the duration it denotes. */
  lemma NormalisedUnique(a: Timespec, b: Timespec)
    requires Normalised(a) && Normalised(b)
    requires ToNanos(a) == ToNanos(b)
    ensures a == b
  {
  }

  /** `timespec_add(dest, src)`: the value `dest` holds afterwards. The
      nanosecond sum carries exactly one second when it exceeds 999999999. */
  function Add(dest: Timespec, src: Timespec): (r: Timespec)
    ensures ToNanos(r) == ToNanos(dest) + ToNanos(src)
    ensures Normalised(dest) && Normalised(src) ==> Normalised(r)
    ensures r.sec - (dest.sec + src.sec) == (if dest.nsec + src.nsec >= NSEC_PER_SEC then 1 else 0)
  {
    var tmp := src.nsec + dest.nsec;
    Timespec(dest.sec + src.sec + (if tmp > 999_999_999 then 1 else 0),
             if tmp > 999_999_999 then tmp - 1_000_000_000 else tmp)
  }

  /** Without a carry the addition is field-wise. */
  lemma AddWithoutCarry(dest: Timespec, src: Timespec)
    requires dest.nsec + src.nsec < NSEC_PER_SEC
    ensures Add(dest, src) == Timespec(dest.sec + src.sec, dest.nsec + src.nsec)
  {
  }

  /** A nanosecond sum of exactly one second carries. */
  lemma AddCarriesAtOneSecond(dest: Timespec, src: Timespec)
    requires dest.nsec + src.nsec == NSEC_PER_SEC
    ensures Add(dest, src) == Timespec(dest.sec + src.sec + 1, 0)
  {
  }

  /** Adding the zero timespec leaves a normalised `dest` unchanged. */
  lemma AddZeroIdentity(dest: Timespec)
    requires Normalised(dest)
    ensures Add(dest, Zero) == dest
  {
  }

  /** The result does not depend on which operand is `dest`. */
  lemma AddCommutative(a: Timespec, b: Timespec)
    ensures Add(a, b) == Add(b, a)
  {
  }

  /** On normalised inputs the addition is the normalised form of the
      total duration: the reference definition through `FromNanos`. */
  lemma AddIsNormalisedSum(a: Timespec, b: Timespec)
    requires Normalised(a) && Normalised(b)
    ensures Add(a, b) == FromNanos(ToNanos(a) + ToNanos(b))
  {
    NormalisedUnique(Add(a, b), FromNanos(ToNanos(a) + ToNanos(b)));
  }
}
