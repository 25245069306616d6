/** Time stamps as seconds and nanoseconds in two 32-bit fields. */
module NTime {
  import opened DivMod

  const NSEC_PER_SEC: int := 1_000_000_000
  const U32: int := 0x1_0000_0000
  const U64: int := 0x1_0000_0000_0000_0000
  const INT64_MAX: int := 0x7fff_ffff_ffff_ffff

  /** Total nanoseconds at which a time stamp runs over. */
  const HORIZON: int := U32 * NSEC_PER_SEC

  datatype Time = Time(sec: nat, ns: nat)

  predicate Fields(t: Time)
  {
    t.sec < U32 && t.ns < U32
  }

  predicate Normal(t: Time)
  {
    t.sec < U32 && t.ns < NSEC_PER_SEC
  }

  function Total(t: Time): nat
  {
    t.sec * NSEC_PER_SEC + t.ns
  }

  /** The normalised time stamp of a total, which wraps like its sec field. */
  function Stamp(total: int): (t: Time)
    ensures Normal(t) && Total(t) == total % HORIZON
    ensures 0 <= total < HORIZON ==> Total(t) == total
  {
    var r := total % HORIZON;
    Time(r / NSEC_PER_SEC, r % NSEC_PER_SEC)
  }

  /** In numbers: nanoseconds below a second, and seconds of 32 bits. */
  lemma StampInNumbers(total: int)
    ensures var t := Stamp(total);
      t.ns < 1_000_000_000 && t.sec * 1_000_000_000 + t.ns == total % 4_294_967_296_000_000_000
  {
  }

  lemma StampInverse(t: Time)
    requires Normal(t)
    ensures Total(t) < HORIZON && Stamp(Total(t)) == t
  {
  }

  lemma NormalTotals(a: Time, b: Time)
    requires Normal(a) && Normal(b)
    ensures Total(a) <= Total(b) <==> a.sec < b.sec || (a.sec == b.sec && a.ns <= b.ns)
    ensures Total(a) == Total(b) <==> a == b
  {
  }

  /** ddi_ntime_diff_ns. The difference is exact and fits 64 bits for all field
      values, normalised or not. */
  function DiffNs(t0: Time, t1: Time): (dt: int)
    requires Fields(t0) && Fields(t1)
    ensures dt == Total(t0) - Total(t1) == (t0.sec - t1.sec) * 1_000_000_000 + t0.ns - t1.ns
    ensures -0x7fff_ffff_ffff_ffff <= dt <= 0x7fff_ffff_ffff_ffff
  {
    var dtSec := t0.sec - t1.sec;
    if dtSec == 0 then t0.ns - t1.ns
    else if dtSec < 0 then
      var dtNs := (NSEC_PER_SEC - t0.ns) + t1.ns;
      (dtSec + 1) * NSEC_PER_SEC - dtNs
    else
      var dtNs := (NSEC_PER_SEC - t1.ns) + t0.ns;
      (dtSec - 1) * NSEC_PER_SEC + dtNs
  }

  /** A 64-bit amount as the code converts it to a signed one. */
  function Signed(ns: nat): (r: int)
    ensures ns < 0x8000_0000_0000_0000 ==> r == ns
    ensures 0x8000_0000_0000_0000 <= ns ==> r == ns - 0x1_0000_0000_0000_0000
  {
    if ns <= INT64_MAX then ns else ns - U64
  }

  /** The amount (sec, ns) as the callers mean it. */
  function Amount(sec: nat, ns: nat): nat
  {
    sec * NSEC_PER_SEC + ns
  }

  /** The test at the head of ddi_ntime_sub_ns. */
  predicate NotAfter(t: Time, sec: nat, ns: nat)
  {
    t.sec < sec || (t.sec == sec && t.ns <= ns)
  }

  function Plus(t: Time, sec: nat, ns: nat): Time
  {
    Stamp(Total(t) + Amount(sec, ns))
  }

  function Minus(t: Time, sec: nat, ns: nat): Time
  {
    if NotAfter(t, sec, ns) then Time(0, 0) else Stamp(Total(t) - Amount(sec, ns))
  }

  /** A time stamp in memory. */
  class Ntime {
    var sec: nat
    var ns: nat

    constructor (t: Time)
      ensures Value() == t
    {
      sec, ns := t.sec, t.ns;
    }

    function Value(): Time
      reads this
    {
      Time(sec, ns)
    }

    /** ddi_ntime_add_ns: the carry loop normalises, whatever the amount, as
        long as it is positive as a signed number and the sum does not overflow
        one; a negative sum is cut to 32 bits. */
    method AddNs(dsec: nat, dns: nat)
      requires Fields(Value()) && dsec < U32 && dns < U64 && Signed(dns) + ns <= INT64_MAX
      modifies this
      ensures dns <= INT64_MAX ==> Value() == Plus(old(Value()), dsec, dns)
      ensures Value() ==
        if Signed(dns) + old(ns) >= 0 then Stamp(old(Total(Value())) + dsec * NSEC_PER_SEC + Signed(dns))
        else Time((old(sec) + dsec) % U32, (Signed(dns) + old(ns)) % U32)
    {
      ghost var was, sum := Value(), Signed(dns) + ns;
      var s, nsec;
      ghost var more;
      s, nsec, more := Carry((sec + dsec) % U32, Signed(dns) + ns);
      sec, ns := s, nsec % U32;
      if sum >= 0 { SumIs(was, dsec, sum, s, nsec, more); }
    }

    /** ddi_ntime_sub_ns: zero when the time is not after the amount, read
        field by field, otherwise the normalised difference from the amount as
        a signed number. */
    method SubNs(dsec: nat, dns: nat)
      requires Fields(Value()) && dsec < U32 && dns < U64 && ns - Signed(dns) <= INT64_MAX
      modifies this
      ensures dns <= INT64_MAX ==> Value() == Minus(old(Value()), dsec, dns)
      ensures Value() == if NotAfter(old(Value()), dsec, dns) then Time(0, 0)
                         else Stamp(old(Total(Value())) - dsec * NSEC_PER_SEC - Signed(dns))
    {
      if sec < dsec || (sec == dsec && ns <= dns) {
        sec, ns := 0, 0;
        return;
      }
      ghost var goal := Total(Value()) - dsec * NSEC_PER_SEC - Signed(dns);
      var s, nsec;
      ghost var laps, more;
      s, nsec, laps := Carry(sec - dsec, ns - Signed(dns));
      s, nsec, more := Borrow(s, nsec);
      sec := s;
      ns := nsec % U32;
      StampIs(goal, laps + more, sec, ns);
    }
  }

  /** The carry loop: whole seconds move up, `laps` times round the field. */
  method Carry(sec: nat, nsec: int) returns (s: nat, n: int, ghost laps: int)
    requires sec < U32
    ensures s < U32 && n < NSEC_PER_SEC && (nsec >= 0 ==> n >= 0)
    ensures nsec < NSEC_PER_SEC ==> s == sec && n == nsec
    ensures (laps * U32 + s) * NSEC_PER_SEC + n == sec * NSEC_PER_SEC + nsec
  {
    s, n, laps := sec, nsec, 0;
    while n >= NSEC_PER_SEC
      invariant s < U32 && (nsec >= 0 ==> n >= 0)
      invariant nsec < NSEC_PER_SEC ==> s == sec && n == nsec
      invariant (laps * U32 + s) * NSEC_PER_SEC + n == sec * NSEC_PER_SEC + nsec
    {
      n := n - NSEC_PER_SEC;
      laps := laps + (s + 1) / U32;
      s := (s + 1) % U32;
    }
  }

  /** The borrow loop. */
  method Borrow(sec: nat, nsec: int) returns (s: nat, n: int, ghost laps: int)
    requires sec < U32 && nsec < NSEC_PER_SEC
    ensures s < U32 && 0 <= n < NSEC_PER_SEC
    ensures (laps * U32 + s) * NSEC_PER_SEC + n == sec * NSEC_PER_SEC + nsec
  {
    s, n, laps := sec, nsec, 0;
    while n < 0
      invariant n < NSEC_PER_SEC && s < U32
      invariant (laps * U32 + s) * NSEC_PER_SEC + n == sec * NSEC_PER_SEC + nsec
    {
      n := n + NSEC_PER_SEC;
      laps := laps + (s - 1) / U32;
      s := (s - 1) % U32;
    }
  }

  /** A sum whose seconds and nanoseconds went round separately. */
  lemma SumIs(t: Time, dsec: nat, sum: nat, s: nat, n: nat, more: int)
    requires s < U32 && n < NSEC_PER_SEC
    requires (more * U32 + s) * NSEC_PER_SEC + n == (t.sec + dsec) % U32 * NSEC_PER_SEC + sum
    ensures Time(s, n % U32) == Stamp((t.sec + dsec) * NSEC_PER_SEC + sum)
  {
    var laps := (t.sec + dsec) / U32;
    assert t.sec + dsec == laps * U32 + (t.sec + dsec) % U32;
    ModUnique(n, U32, 0, n);
    StampIs((t.sec + dsec) * NSEC_PER_SEC + sum, laps + more, s, n);
  }

  lemma StampIs(total: int, laps: int, sec: nat, ns: nat)
    requires sec < U32 && ns < NSEC_PER_SEC && total == (laps * U32 + sec) * NSEC_PER_SEC + ns
    ensures Time(sec, ns) == Stamp(total)
  {
    ModUnique(total, HORIZON, laps, Total(Time(sec, ns)));
    StampInverse(Time(sec, ns));
  }

  /** Addition is exact exactly as long as the seconds do not run over. */
  lemma PlusIsExactIff(t: Time, sec: nat, ns: nat)
    ensures Normal(Plus(t, sec, ns))
    ensures Total(Plus(t, sec, ns)) == Total(t) + Amount(sec, ns) <==> Total(t) + Amount(sec, ns) < HORIZON
  {
  }

  function Saturating(a: nat, b: nat): nat
  {
    if a <= b then 0 else a - b
  }

  /** Subtraction saturates at zero, unless the amount is larger than the time
      only through its nanoseconds: then the seconds run under (to zero only if
      a whole number of turns is missing). Below a second it always saturates. */
  lemma MinusSaturatesIff(t: Time, sec: nat, ns: nat)
    requires Normal(t)
    ensures Normal(Minus(t, sec, ns))
    ensures Total(Minus(t, sec, ns)) == Saturating(Total(t), Amount(sec, ns)) <==>
            !(t.sec > sec && Total(t) < Amount(sec, ns) && (Amount(sec, ns) - Total(t)) % HORIZON != 0)
    ensures ns < NSEC_PER_SEC ==> Total(Minus(t, sec, ns)) == Saturating(Total(t), Amount(sec, ns))
  {
    var lack := Amount(sec, ns) - Total(t);
    if t.sec > sec && lack > 0 {
      var q, r := lack / HORIZON, lack % HORIZON;
      if r != 0 {
        ModUnique(-lack, HORIZON, -q - 1, HORIZON - r);
      } else {
        ModUnique(-lack, HORIZON, -q, 0);
      }
    }
  }

  /** Subtracting what was added gives the time back exactly when the sum
      passes the test at the head of ddi_ntime_sub_ns, or the time was zero.
      For an amount with less than a second of nanoseconds that is exactly when
      the addition did not run over. */
  lemma MinusUndoesPlusIff(t: Time, sec: nat, ns: nat)
    requires Normal(t)
    ensures Minus(Plus(t, sec, ns), sec, ns) == t <==> !NotAfter(Plus(t, sec, ns), sec, ns) || Total(t) == 0
    ensures sec < U32 && ns < NSEC_PER_SEC ==>
      (Minus(Plus(t, sec, ns), sec, ns) == t <==> Total(t) + Amount(sec, ns) < HORIZON)
  {
    var x := Total(t) + Amount(sec, ns);
    var p := Plus(t, sec, ns);
    assert Total(p) - Amount(sec, ns) == HORIZON * (-(x / HORIZON)) + Total(t);
    StampInverse(t);
    ModUnique(Total(p) - Amount(sec, ns), HORIZON, -(x / HORIZON), Total(t));
    if sec < U32 && ns < NSEC_PER_SEC {
      MinusSaturatesIff(p, sec, ns);
      if x < HORIZON {
        NormalTotals(Minus(p, sec, ns), t);
      } else {
        ModUnique(x, HORIZON, 1, x - HORIZON);
      }
    }
  }
}
