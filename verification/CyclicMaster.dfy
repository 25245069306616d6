/** The cyclic thread of the EtherCAT master: its frame statistics and its
    deadlines. */
module CyclicMaster {
  import opened DivMod
  import opened NTime

  const NSEC_PER_USEC: int := 1000

  /** What a receive job reports: an error of the job itself, or whether all
      cyclic frames came back. */
  datatype Outcome = Failed | Lost | Complete

  /** The successful receive jobs of a history, true where frames were lost. */
  function Losses(history: seq<Outcome>): seq<bool>
  {
    if history == [] then []
    else
      var rest := Losses(history[..|history| - 1]);
      var last := history[|history| - 1];
      if last == Failed then rest else rest + [last == Lost]
  }

  /** Each result counts on its own: failed jobs are left out, the others tell
      whether frames were lost. */
  lemma {:induction false} LossesAppend(x: seq<Outcome>, y: seq<Outcome>)
    ensures Losses(x + y) == Losses(x) + Losses(y)
  {
    if y == [] {
      assert x + y == x;
    } else {
      var n := |y| - 1;
      LossesAppend(x, y[..n]);
      assert (x + y)[..|x + y| - 1] == x + y[..n];
    }
  }

  lemma LossesOfOne()
    ensures Losses([Failed]) == [] && Losses([Lost]) == [true] && Losses([Complete]) == [false]
  {
    assert [Failed][..0] == [Lost][..0] == [Complete][..0] == [];
  }

  /** Positions i to j of h are all losses. */
  predicate IsRun(h: seq<bool>, i: nat, j: nat)
  {
    i <= j <= |h| && forall k :: i <= k < j ==> h[k]
  }

  /** How many losses h ends with. */
  function Trailing(h: seq<bool>): nat
  {
    if h != [] && h[|h| - 1] then Trailing(h[..|h| - 1]) + 1 else 0
  }

  /** The length of the longest run of losses anywhere in h. */
  function Longest(h: seq<bool>): nat
  {
    if h == [] then 0
    else if Trailing(h) > Longest(h[..|h| - 1]) then Trailing(h) else Longest(h[..|h| - 1])
  }

  lemma {:induction false} TrailingIsRun(h: seq<bool>)
    ensures var n := Trailing(h); n <= |h| && IsRun(h, |h| - n, |h|) && (n < |h| ==> !h[|h| - n - 1])
  {
    if h != [] && h[|h| - 1] {
      TrailingIsRun(h[..|h| - 1]);
    }
  }

  /** Longest(h) is the length of a run in h, and no run is longer. */
  lemma {:induction false} LongestIsLongest(h: seq<bool>) returns (i: nat)
    ensures IsRun(h, i, i + Longest(h))
    ensures forall j, k :: 0 <= j <= k && IsRun(h, j, k) ==> k - j <= Longest(h)
  {
    if h == [] {
      i := 0;
    } else {
      var g := h[..|h| - 1];
      i := LongestIsLongest(g);
      TrailingIsRun(h);
      if Trailing(h) > Longest(g) { i := |h| - Trailing(h); }
      forall j, k | 0 <= j <= k && IsRun(h, j, k) ensures k - j <= Longest(h) {
        assert k <= |g| ==> IsRun(g, j, k);
      }
    }
  }

  lemma LongestCoversTrailing(h: seq<bool>)
    ensures Trailing(h) <= Longest(h)
  {
  }

  function Count(h: seq<bool>, loss: bool): nat
  {
    if h == [] then 0 else Count(h[..|h| - 1], loss) + if h[|h| - 1] == loss then 1 else 0
  }

  lemma {:induction false} CountsAddUp(h: seq<bool>)
    ensures Count(h, true) + Count(h, false) == |h|
  {
    if h != [] { CountsAddUp(h[..|h| - 1]); }
  }

  function Cap(n: nat, m: nat): nat
    requires m > 0
  {
    if n < m then n else m - 1
  }

  /** Counting up in a field that holds m values. */
  function Next(x: nat, m: nat): nat
    requires x < m
  {
    if x + 1 < m then x + 1 else 0
  }

  /** What the four counters say about a history of any length, m and k being
      the number of values of the 32-bit and 64-bit fields: three are right
      modulo their width, the longest run up to the largest value. */
  ghost predicate Counts(history: seq<Outcome>, errors: nat, current: nat, longest: nat, good: nat, m: nat, k: nat)
    requires m > 0 && k > 0
  {
    var h := Losses(history);
    && errors == Count(h, true) % m
    && good == Count(h, false) % k
    && current == Trailing(h) % m
    && longest == Cap(Longest(h), m)
  }

  lemma Step(h: seq<bool>, loss: bool, which: bool)
    ensures var t := if loss then Trailing(h) + 1 else 0;
      Trailing(h + [loss]) == t && Longest(h + [loss]) == if t > Longest(h) then t else Longest(h)
    ensures Count(h + [loss], which) == Count(h, which) + if loss == which then 1 else 0
  {
    assert (h + [loss])[..|h|] == h;
  }

  lemma SumWraps(x: nat, y: nat, m: nat)
    requires m > 0
    ensures (x % m + y) % m == (x + y) % m
  {
    var q, r := (x % m + y) / m, (x % m + y) % m;
    assert x + y == m * (x / m + q) + r;
    ModUnique(x + y, m, x / m + q, r);
  }

  lemma NextIsRemainder(n: nat, m: nat)
    requires m > 0
    ensures n % m < m && Next(n % m, m) == (n + 1) % m
  {
    var q, r := n / m, n % m;
    if r + 1 < m {
      ModUnique(n + 1, m, q, r + 1);
    } else {
      assert n + 1 == m * (q + 1);
      ModUnique(n + 1, m, q + 1, 0);
    }
  }

  /** The largest run so far survives the wrap of the current one. */
  lemma LongestWraps(t: nat, n: nat, m: nat)
    requires t <= n && m > 0
    ensures var c, l := (t + 1) % m, Cap(n, m);
      (if c > l then c else l) == Cap(if t + 1 > n then t + 1 else n, m)
  {
    if t + 1 < m { ModUnique(t + 1, m, 0, t + 1); }
  }

  lemma CountsStep(history: seq<Outcome>, outcome: Outcome, errors: nat, current: nat, longest: nat, good: nat,
      m: nat, k: nat)
    requires m > 0 && k > 0 && Counts(history, errors, current, longest, good, m, k)
    ensures errors < m && current < m && good < k
    ensures var c := Next(current, m);
      match outcome
      case Failed => Counts(history + [outcome], errors, current, longest, good, m, k)
      case Lost => Counts(history + [outcome], Next(errors, m), c, if c > longest then c else longest, good, m, k)
      case Complete => Counts(history + [outcome], errors, 0, longest, Next(good, k), m, k)
  {
    var h := Losses(history);
    assert (history + [outcome])[..|history|] == history;
    Step(h, outcome == Lost, true);
    Step(h, outcome == Lost, false);
    LongestCoversTrailing(h);
    LongestWraps(Trailing(h), Longest(h), m);
    NextIsRemainder(Trailing(h), m);
    NextIsRemainder(Count(h, true), m);
    NextIsRemainder(Count(h, false), k);
    if outcome == Complete { ModUnique(0, m, 0, 0); }
  }

  /** In numbers: lost and good frames count the results of their kind, in 32
      and in 64 bits; the current run wraps in 32 bits, the longest stays at
      their largest value. */
  lemma CountersCount(history: seq<Outcome>, errors: nat, current: nat, longest: nat, good: nat)
    requires Counts(history, errors, current, longest, good, U32, U64)
    ensures errors == multiset(history)[Lost] % 0x1_0000_0000
    ensures good == multiset(history)[Complete] % 0x1_0000_0000_0000_0000
    ensures current == Trailing(Losses(history)) % 0x1_0000_0000
    ensures var n := Longest(Losses(history)); longest == if n < 0x1_0000_0000 then n else 0xffff_ffff
  {
    LossesCount(history);
  }

  lemma {:induction false} LossesCount(history: seq<Outcome>)
    ensures Count(Losses(history), true) == multiset(history)[Lost]
    ensures Count(Losses(history), false) == multiset(history)[Complete]
  {
    if history != [] {
      var rest, last := history[..|history| - 1], history[|history| - 1];
      LossesCount(rest);
      assert history == rest + [last];
      if last != Failed {
        Step(Losses(rest), last == Lost, true);
        Step(Losses(rest), last == Lost, false);
      }
    }
  }

  class Master {
    var errors: nat
    var current: nat
    var longest: nat
    var good: nat
    ghost var history: seq<Outcome>

    ghost predicate Valid()
      reads this
    {
      Counts(history, errors, current, longest, good, U32, U64)
    }

    constructor ()
      ensures Valid() && history == []
    {
      errors, current, longest, good, history := 0, 0, 0, 0, [];
    }

    /** The frame counters of cyclic_update. */
    method CyclicUpdate(outcome: Outcome)
      requires Valid()
      modifies this
      ensures Valid() && history == old(history) + [outcome]
    {
      CountsStep(history, outcome, errors, current, longest, good, U32, U64);
      history := history + [outcome];
      if outcome == Lost {
        errors := Next(errors, U32);
        current := Next(current, U32);
        if current > longest {
          longest := current;
        }
      } else if outcome == Complete {
        good := Next(good, U64);
        current := 0;
      }
    }

    /** cyclic_thread_scheduler, run until the exit flag is seen after
        |outcomes| cycles: cycle k sleeps until the start plus k + 1 periods,
        however long the work of the cycles before took. */
    method Scheduler(now: Time, busCycleUs: nat, outcomes: seq<Outcome>) returns (sleeps: seq<Time>)
      requires Valid() && Normal(now) && busCycleUs < U32
      modifies this
      ensures Valid() && history == old(history) + outcomes
      ensures |sleeps| == |outcomes|
      ensures forall k :: 0 <= k < |sleeps| ==> sleeps[k] == Due(now, busCycleUs, k)
    {
      var deadline := new Ntime(now);
      deadline.AddNs(0, busCycleUs * NSEC_PER_USEC);
      sleeps := [];
      var k: nat := 0;
      FirstDue(now, busCycleUs);
      while k < |outcomes|
        invariant k <= |outcomes| && |sleeps| == k && fresh(deadline) && Valid()
        invariant deadline.Value() == Due(now, busCycleUs, k)
        invariant history == old(history) + outcomes[..k]
        invariant forall i :: 0 <= i < k ==> sleeps[i] == Due(now, busCycleUs, i)
      {
        sleeps := sleeps + [deadline.Value()];
        CyclicUpdate(outcomes[k]);
        NextDue(now, busCycleUs, k);
        deadline.AddNs(0, busCycleUs * NSEC_PER_USEC);
        assert outcomes[..k + 1] == outcomes[..k] + [outcomes[k]];
        k := k + 1;
      }
      assert outcomes[..k] == outcomes;
    }
  }

  /** The time of cycle k. */
  function Due(start: Time, busCycleUs: nat, k: nat): Time
  {
    Stamp(Total(start) + (k + 1) * (busCycleUs * NSEC_PER_USEC))
  }

  /** In numbers: the k-th deadline is k + 1 periods of busCycleUs microseconds
      after the start, in seconds of 32 bits. */
  lemma DueIs(start: Time, busCycleUs: nat, k: nat)
    ensures var t := Due(start, busCycleUs, k);
      && t.ns < 1_000_000_000
      && t.sec * 1_000_000_000 + t.ns
         == (start.sec * 1_000_000_000 + start.ns + (k + 1) * (busCycleUs * 1000)) % 4_294_967_296_000_000_000
  {
    StampInNumbers(Total(start) + (k + 1) * (busCycleUs * NSEC_PER_USEC));
  }

  lemma FirstDue(start: Time, busCycleUs: nat)
    ensures Plus(start, 0, busCycleUs * NSEC_PER_USEC) == Due(start, busCycleUs, 0)
  {
  }

  /** No drift: adding a period to one deadline gives the next, for ever. */
  lemma NextDue(start: Time, busCycleUs: nat, k: nat)
    ensures Plus(Due(start, busCycleUs, k), 0, busCycleUs * NSEC_PER_USEC) == Due(start, busCycleUs, k + 1)
  {
    var p := busCycleUs * NSEC_PER_USEC;
    var x := Total(start) + (k + 1) * p;
    assert (k + 2) * p == (k + 1) * p + p;
    SumWraps(x, p, HORIZON);
  }
}
