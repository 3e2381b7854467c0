/** Points in time as the C library keeps them, in seconds and microseconds. */
module Times {
  datatype Time = Time(sec: int, usec: int)

  const SECOND: int := 1_000_000

  /** C's division, which rounds towards zero, and what it leaves. */
  function Quotient(a: int, b: int): int
    requires b > 0
  {
    if a >= 0 then a / b else -((-a) / b)
  }

  function Remainder(a: int, b: int): int
    requires b > 0
  {
    a - b * Quotient(a, b)
  }

  function Micros(t: Time): int {
    t.sec * SECOND + t.usec
  }

  predicate Normal(t: Time) {
    0 <= t.usec < SECOND
  }

  function Normalize(t: Time): Time {
    var sec := t.sec + Quotient(t.usec, SECOND);
    var usec := Remainder(t.usec, SECOND);
    if usec < 0 then Time(sec - 1, usec + SECOND) else Time(sec, usec)
  }

  function Plus(t: Time, u: Time): Time {
    Normalize(Time(t.sec + u.sec, t.usec + u.usec))
  }

  function Minus(t: Time, u: Time): Time {
    Normalize(Time(t.sec - u.sec, t.usec - u.usec))
  }

  /** `timercmp` with `<` and `>=` */
  predicate Less(t: Time, u: Time) {
    if t.sec == u.sec then t.usec < u.usec else t.sec < u.sec
  }

  predicate AtLeast(t: Time, u: Time) {
    if t.sec == u.sec then t.usec >= u.usec else t.sec >= u.sec
  }

  lemma MicrosMean(t: Time)
    ensures Micros(t) == 1_000_000 * t.sec + t.usec && (Normal(t) <==> 0 <= t.usec <= 999_999)
  {
  }

  /** Normalising does not change the time, and gives the only normal form of it. */
  lemma NormalForm(t: Time)
    ensures Normal(Normalize(t)) && Micros(Normalize(t)) == Micros(t)
    ensures forall u | Normal(u) && Micros(u) == Micros(t) :: u == Normalize(t)
  {
    var r := Normalize(t);
    forall u | Normal(u) && Micros(u) == Micros(t)
      ensures u == r
    {
      assert (u.sec - r.sec) * SECOND == r.usec - u.usec;
    }
  }

  /** Sums and differences are exact, to the microsecond, and normal. */
  lemma ArithmeticExact(t: Time, u: Time)
    ensures Normal(Plus(t, u)) && Micros(Plus(t, u)) == Micros(t) + Micros(u)
    ensures Normal(Minus(t, u)) && Micros(Minus(t, u)) == Micros(t) - Micros(u)
  {
    NormalForm(Time(t.sec + u.sec, t.usec + u.usec));
    NormalForm(Time(t.sec - u.sec, t.usec - u.usec));
  }

  /** Normal times compare as they should. */
  lemma ComparisonExact(t: Time, u: Time)
    requires Normal(t) && Normal(u)
    ensures Less(t, u) <==> Micros(t) < Micros(u)
    ensures AtLeast(t, u) <==> Micros(t) >= Micros(u)
    ensures t == u <==> Micros(t) == Micros(u)
  {
  }

  /** What a time asks for as a bound from below, in microseconds; if it is not normal that is not
      what it is worth. */
  function Bound(t: Time): int {
    if t.usec < 0 then t.sec * SECOND else if t.usec < SECOND then Micros(t) else (t.sec + 1) * SECOND
  }

  /** Comparing a normal time with any other. */
  lemma AtLeastBound(t: Time, u: Time)
    requires Normal(t)
    ensures AtLeast(t, u) <==> Micros(t) >= Bound(u)
    ensures Normal(u) ==> Bound(u) == Micros(u)
  {
  }
}
