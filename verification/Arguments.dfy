/** Command arguments, and numbers as the C library prints and reads them. */
module Arguments {
  import opened Bytes

  type I32 = v: int | -0x8000_0000 <= v < 0x8000_0000

  /** What can be pushed; the bytes of a string do not include its NUL. */
  datatype Arg = Number(v: I32) | Text(s: seq<U8>) | Data(d: seq<U8>)

  ghost predicate NoNul(s: seq<U8>) {
    forall k | 0 <= k < |s| :: s[k] != NUL8
  }

  /** Strings are C strings. */
  ghost predicate IsArg(a: Arg) {
    a.Text? ==> NoNul(a.s)
  }

  ghost predicate AreArgs(args: seq<Arg>) {
    forall k | 0 <= k < |args| :: IsArg(args[k])
  }

  function Digits(n: nat): (s: seq<U8>)
    ensures |s| > 0 && forall k | 0 <= k < |s| :: ZERO <= s[k] <= ZERO + 9
  {
    if n < 10 then [ZERO + n] else Digits(n / 10) + [ZERO + n % 10]
  }

  /** `%ld` */
  function Decimal(v: int): seq<U8> {
    if v < 0 then [MINUS] + Digits(-v) else Digits(v)
  }

  /** The value of the digits at the beginning of `s`, after those worth `acc`. */
  function Accumulate(s: seq<U8>, acc: nat): nat {
    if s == [] || !(ZERO <= s[0] <= ZERO + 9) then acc else Accumulate(s[1..], acc * 10 + (s[0] - ZERO))
  }

  function DropBlanks(s: seq<U8>): seq<U8> {
    if s != [] && (s[0] == SPACE || 9 <= s[0] <= 13) then DropBlanks(s[1..]) else s
  }

  /** `strtoul` in base 10, with the target's 32-bit `long`. */
  function Strtoul(s: seq<U8>): nat {
    var t := DropBlanks(s);
    var signed := t != [] && (t[0] == MINUS || t[0] == 43);
    var m := Accumulate(if signed then t[1..] else t, 0);
    if m > 0xFFFF_FFFF then 0xFFFF_FFFF
    else if signed && t[0] == MINUS then (0x1_0000_0000 - m) % 0x1_0000_0000
    else m
  }

  function ToI32(u: int): int {
    if u >= 0x8000_0000 then u - 0x1_0000_0000 else u
  }

  lemma {:induction false} AccumulateOneMore(s: seq<U8>, d: U8, acc: nat)
    requires forall k | 0 <= k < |s| :: ZERO <= s[k] <= ZERO + 9
    requires ZERO <= d <= ZERO + 9
    ensures Accumulate(s + [d], acc) == Accumulate(s, acc) * 10 + (d - ZERO)
    decreases |s|
  {
    if s == [] {
      assert Accumulate([d], acc) == Accumulate([d][1..], acc * 10 + (d - ZERO));
    } else {
      assert (s + [d])[1..] == s[1..] + [d];
      AccumulateOneMore(s[1..], d, acc * 10 + (s[0] - ZERO));
    }
  }

  lemma {:induction false} AccumulateDigits(n: nat)
    ensures Accumulate(Digits(n), 0) == n
    decreases n
  {
    if n < 10 {
      assert Accumulate([ZERO + n], 0) == Accumulate([ZERO + n][1..], n);
    } else {
      AccumulateDigits(n / 10);
      AccumulateOneMore(Digits(n / 10), ZERO + n % 10, 0);
    }
  }

  /** Every 32-bit number survives printing and reading, though it is read as unsigned. */
  lemma NumberRoundTrip(v: I32)
    ensures ToI32(Strtoul(Decimal(v))) == v
  {
    hide Accumulate, Digits;
    var n: nat := if v < 0 then -(v as int) else v;
    AccumulateDigits(n);
    assert DropBlanks(Decimal(v)) == Decimal(v);
    assert v < 0 ==> Decimal(v)[1..] == Digits(n);
  }

  lemma {:induction false} DigitsLength(n: nat)
    requires n < 10_000_000_000
    ensures |Digits(n)| <= 10
  {
    DigitsFit(n, 10, 10_000_000_000);
  }

  lemma {:induction false} DigitsFit(n: nat, k: nat, bound: nat)
    requires k > 0 && bound == Power10(k) && n < bound
    ensures |Digits(n)| <= k
    decreases k
  {
    if n >= 10 {
      if k > 1 { DigitsFit(n / 10, k - 1, Power10(k - 1)); }
    }
  }

  function Power10(k: nat): (p: nat)
    ensures p > 0
  {
    if k == 0 then 1 else 10 * Power10(k - 1)
  }

  /** No 32-bit number takes more than eleven characters. */
  lemma DecimalLength(v: I32)
    ensures |Decimal(v)| <= 11
  {
    var n: int := v;
    DigitsLength(if n < 0 then -n else n);
  }

  // ---------------------------------------------------------------- what the characters mean

  /** The digit at place `k` from the right: 48 is the digit zero,
      45 the minus sign. */
  lemma {:induction false} DigitsMean(n: nat)
    ensures forall k | 0 <= k < |Digits(n)| :: Digits(n)[|Digits(n)| - 1 - k] == 48 + n / Power10(k) % 10
    decreases n
  {
    if n >= 10 {
      var s, r := Digits(n), Digits(n / 10);
      DigitsMean(n / 10);
      assert s == r + [48 + n % 10];
      forall k | 0 <= k < |s|
        ensures s[|s| - 1 - k] == 48 + n / Power10(k) % 10
      {
        if k > 0 { NextPlace(n, r, k); }
      }
    }
  }

  lemma NextPlace(n: nat, r: seq<U8>, k: nat)
    requires 0 < k <= |r| && r[|r| - k] == 48 + n / 10 / Power10(k - 1) % 10
    ensures r[|r| - k] == 48 + n / Power10(k) % 10
  {
    DivTwice(n, Power10(k - 1));
  }

  /** There are as many as are needed, and no more. */
  lemma {:induction false} DigitsEnough(n: nat)
    ensures n < Power10(|Digits(n)|) && (|Digits(n)| > 1 ==> n >= Power10(|Digits(n)| - 1))
    decreases n
  {
    if n >= 10 { DigitsEnough(n / 10); }
  }

  lemma DivTwice(n: nat, p: nat)
    requires p > 0
    ensures n / 10 / p == n / (10 * p)
  {
    var q, r := n / 10 / p, n / 10 % p;
    assert n == 10 * (q * p + r) + n % 10;
    assert n == q * (10 * p) + (10 * r + n % 10);
    assert 0 <= 10 * r + n % 10 < 10 * p;
    QuotientIs(n, 10 * p, q, 10 * r + n % 10);
  }

  lemma QuotientIs(n: nat, d: nat, q: int, r: nat)
    requires d > 0 && n == q * d + r && r < d
    ensures n / d == q
  {
    var e := q - n / d;
    assert e * d == n % d - r;
    if e >= 1 { Grows(e, d); }
    if e <= -1 { Grows(-e, d); }
  }

  lemma Grows(e: int, d: int)
    requires e >= 1 && d > 0
    ensures e * d >= d
  {
  }

  lemma DecimalMeans(v: int)
    ensures Decimal(v) == if v < 0 then [45] + Digits(-v) else Digits(v)
  {
  }

  ghost predicate AreDigits(s: seq<U8>) {
    forall k | 0 <= k < |s| :: 48 <= s[k] <= 57
  }

  ghost predicate NoDigitFirst(s: seq<U8>) {
    s == [] || !(48 <= s[0] <= 57)
  }

  lemma {:induction false} AccumulateStops(s: seq<U8>, rest: seq<U8>, acc: nat)
    requires AreDigits(s) && NoDigitFirst(rest)
    ensures Accumulate(s + rest, acc) == Accumulate(s, acc)
    decreases |s|
  {
    if s == [] {
      assert s + rest == rest;
    } else {
      assert (s + rest)[1..] == s[1..] + rest;
      AccumulateStops(s[1..], rest, acc * 10 + (s[0] - ZERO));
    }
  }

  lemma {:induction false} AccumulateZeros(z: nat, s: seq<U8>)
    ensures Accumulate(seq(z, _ => 48) + s, 0) == Accumulate(s, 0)
  {
    if z == 0 {
      assert seq(z, _ => 48) + s == s;
    } else {
      assert (seq(z, _ => 48) + s)[1..] == seq(z - 1, _ => 48) + s;
      AccumulateZeros(z - 1, s);
    }
  }

  lemma {:induction false} BlanksDropped(blanks: seq<U8>, s: seq<U8>)
    requires forall k | 0 <= k < |blanks| :: blanks[k] == 32 || 9 <= blanks[k] <= 13
    requires s == [] || !(s[0] == 32 || 9 <= s[0] <= 13)
    ensures DropBlanks(blanks + s) == s
  {
    if blanks == [] {
      assert blanks + s == s;
    } else {
      assert (blanks + s)[1..] == blanks[1..] + s;
      BlanksDropped(blanks[1..], s);
    }
  }

  /** What a number is read as: after blanks, a sign (43 or 45, or none) and any zeroes, the digits of
      `n` up to the first other character; cut at the largest 32-bit number, and taken from 2 to the
      32nd after a minus. */
  lemma StrtoulMeans(blanks: seq<U8>, sign: seq<U8>, zeros: nat, n: nat, rest: seq<U8>)
    requires forall k | 0 <= k < |blanks| :: blanks[k] == 32 || 9 <= blanks[k] <= 13
    requires (sign == [] || sign == [43] || sign == [45]) && NoDigitFirst(rest)
    ensures Strtoul(blanks + (sign + (seq(zeros, _ => 48) + (Digits(n) + rest))))
         == if n > 0xFFFF_FFFF then 0xFFFF_FFFF
            else if sign == [45] && n > 0 then 0x1_0000_0000 - n
            else n
  {
    var d := Digits(n) + rest;
    var t := seq(zeros, _ => 48) + d;
    AccumulateDigits(n);
    AccumulateStops(Digits(n), rest, 0);
    AccumulateZeros(zeros, d);
    assert 48 <= t[0] <= 57;
    BlanksDropped(blanks, sign + t);
    hide Accumulate, Digits, DropBlanks;
    assert (sign + t)[|sign|..] == t;
    if sign == [] { assert sign + t == t; }
  }

  /** Without digits it is zero. */
  lemma StrtoulNothing(blanks: seq<U8>, sign: seq<U8>, rest: seq<U8>)
    requires forall k | 0 <= k < |blanks| :: blanks[k] == 32 || 9 <= blanks[k] <= 13
    requires (sign == [43] || sign == [45]) && NoDigitFirst(rest)
    ensures Strtoul(blanks + (sign + rest)) == 0
  {
    BlanksDropped(blanks, sign + rest);
    hide DropBlanks;
    assert (sign + rest)[1..] == rest;
  }

  /** An unsigned 32-bit number taken as a signed one. */
  lemma ToI32Means(u: int)
    requires 0 <= u < 0x1_0000_0000
    ensures -0x8000_0000 <= ToI32(u) < 0x8000_0000 && (ToI32(u) - u) % 0x1_0000_0000 == 0
  {
  }
}
