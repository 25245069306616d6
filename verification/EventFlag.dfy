/** The event of ddi_os_posix.c: a bit field under a mutex, signalled by one
    thread and taken by another. */
module EventFlag {

  /** A bit field as the set of its bits. */
  type Bits = set<nat>

  /** event_signal takes 16 bits of the 32 its caller passes. */
  function Narrowed(value: Bits): Bits
  {
    set b | b in value && b < 16
  }

  /** One return of pthread_cond_timedwait: what others signalled while this
      thread was asleep, and whether the deadline had passed. */
  datatype Wake = Wake(signals: seq<Bits>, timedOut: bool)

  function Stored(signals: seq<Bits>): Bits
  {
    if signals == [] then {} else Stored(signals[..|signals| - 1]) + Narrowed(signals[|signals| - 1])
  }

  function StoredIn(wakes: seq<Wake>): Bits
  {
    if wakes == [] then {} else StoredIn(wakes[..|wakes| - 1]) + Stored(wakes[|wakes| - 1].signals)
  }

  function All(signals: seq<Bits>): Bits
  {
    if signals == [] then {} else All(signals[..|signals| - 1]) + signals[|signals| - 1]
  }

  lemma {:induction false} StoredIsNarrowed(signals: seq<Bits>)
    ensures Stored(signals) == Narrowed(All(signals))
  {
    if signals != [] { StoredIsNarrowed(signals[..|signals| - 1]); }
  }

  /** The bit field accumulates every bit that was signalled, as ddi_os.h
      promises for 32 bits, exactly when no signal uses the upper 16. */
  lemma AccumulatesAllIff(signals: seq<Bits>)
    ensures Stored(signals) == All(signals) <==> forall b :: b in All(signals) ==> b < 16
  {
    StoredIsNarrowed(signals);
    assert Stored(signals) == All(signals) ==> forall b :: b in All(signals) ==> b in Narrowed(All(signals));
  }

  datatype Status = Ok | TimedOut

  /** The first k sleeps end neither with a bit stored nor with the deadline. */
  predicate Fruitless(wakes: seq<Wake>, k: nat)
    requires k <= |wakes|
  {
    StoredIn(wakes[..k]) == {} && forall i :: 0 <= i < k ==> !wakes[i].timedOut
  }

  /** A wait that starts with no bit stored is decided by the sleep at k. */
  predicate DecidedAt(wakes: seq<Wake>, k: nat)
  {
    k < |wakes| && Fruitless(wakes, k) && (wakes[k].timedOut || StoredIn(wakes[..k + 1]) != {})
  }

  lemma {:induction false} StoredGrows(wakes: seq<Wake>, i: nat, k: nat)
    requires i <= k <= |wakes|
    ensures StoredIn(wakes[..i]) <= StoredIn(wakes[..k])
    decreases k
  {
    if i < k {
      StoredGrows(wakes, i, k - 1);
      assert wakes[..k][..k - 1] == wakes[..k - 1];
    }
  }

  /** Only one sleep decides. */
  lemma DecisionIsUnique(wakes: seq<Wake>, j: nat, k: nat)
    requires DecidedAt(wakes, j) && DecidedAt(wakes, k)
    ensures j == k
  {
    if j < k { StoredGrows(wakes, j + 1, k); }
    if k < j { StoredGrows(wakes, k + 1, j); }
  }

  /** The wait of a thread that finds no bit stored ends by timing out. */
  predicate EndsInTimeout(wakes: seq<Wake>)
  {
    exists k :: 0 <= k < |wakes| && DecidedAt(wakes, k) && wakes[k].timedOut
  }

  lemma DecisionDecides(wakes: seq<Wake>, k: nat)
    requires DecidedAt(wakes, k)
    ensures EndsInTimeout(wakes) <==> wakes[k].timedOut
  {
    if EndsInTimeout(wakes) {
      var j :| 0 <= j < |wakes| && DecidedAt(wakes, j) && wakes[j].timedOut;
      DecisionIsUnique(wakes, j, k);
    }
  }

  /** The deciding sleep is the first that ends with the deadline or after a
      signal of some bit that is kept. */
  lemma DecidedMeans(wakes: seq<Wake>, k: nat)
    requires k < |wakes|
    ensures DecidedAt(wakes, k) <==>
      && (forall i :: 0 <= i < k ==> !wakes[i].timedOut && Stored(wakes[i].signals) == {})
      && (wakes[k].timedOut || Stored(wakes[k].signals) != {})
  {
    NothingStored(wakes, k);
    assert wakes[..k + 1][..k] == wakes[..k];
  }

  lemma {:induction false} NothingStored(wakes: seq<Wake>, k: nat)
    requires k <= |wakes|
    ensures StoredIn(wakes[..k]) == {} <==> forall i :: 0 <= i < k ==> Stored(wakes[i].signals) == {}
  {
    if k > 0 {
      NothingStored(wakes, k - 1);
      assert wakes[..k][..k - 1] == wakes[..k - 1];
    }
  }

  /** A wait that started with `was` and has `now` after n sleeps, none of
      which ended with the deadline. */
  predicate Waiting(was: Bits, now: Bits, wakes: seq<Wake>, n: nat)
    requires n <= |wakes|
  {
    if now == {} then was == {} && Fruitless(wakes, n)
    else if n == 0 then now == was
    else was == {} && DecidedAt(wakes, n - 1) && !wakes[n - 1].timedOut && now == StoredIn(wakes[..n])
  }

  lemma SleepOnce(was: Bits, wakes: seq<Wake>, n: nat)
    requires n < |wakes| && Waiting(was, {}, wakes, n)
    ensures StoredIn(wakes[..n + 1]) == Stored(wakes[n].signals)
    ensures if wakes[n].timedOut then DecidedAt(wakes, n) else Waiting(was, Stored(wakes[n].signals), wakes, n + 1)
  {
    assert wakes[..n + 1][..n] == wakes[..n];
  }

  class Event {
    var val: Bits
    var locked: bool

    /** event_init */
    constructor ()
      ensures val == {} && !locked
    {
      val, locked := {}, false;
    }

    /** event_signal, once it has the mutex. */
    method Signal(value: Bits)
      requires !locked
      modifies this
      ensures val == old(val) + Narrowed(value) && !locked
    {
      locked := true;
      val := val + Narrowed(value);
      locked := false;
    }

    /** The other threads run while this one sleeps without the mutex. */
    method OthersSignal(signals: seq<Bits>)
      requires !locked
      modifies this
      ensures val == old(val) + Stored(signals) && !locked
    {
      for i := 0 to |signals|
        invariant !locked && val == old(val) + Stored(signals[..i])
      {
        assert signals[..i + 1][..i] == signals[..i];
        Signal(signals[i]);
      }
      assert signals[..|signals|] == signals;
    }

    /** event_wait, once it has the mutex; `wakes` tells how each sleep ends,
        the last one at the deadline. It sleeps only while no bit is stored,
        and times out exactly when the sleep that decides it ends with the
        deadline, whether a bit came with it or not. A wait that ends well
        takes every bit stored so far, once, and frees the mutex; one that
        times out keeps the mutex, and the bits stay where nobody can reach
        them. */
    method Wait(wakes: seq<Wake>) returns (status: Status, rval: Bits, ghost used: nat)
      requires !locked
      requires val == {} ==> wakes != [] && wakes[|wakes| - 1].timedOut
      modifies this
      ensures used <= |wakes|
      ensures if old(val) != {} then used == 0 else used > 0 && DecidedAt(wakes, used - 1)
      ensures status == TimedOut <==> old(val) == {} && EndsInTimeout(wakes)
      ensures status == Ok ==>
        rval == old(val) + StoredIn(wakes[..used]) && rval != {} && val == {} && !locked
      ensures status == TimedOut ==>
        rval == {} && val == StoredIn(wakes[..used]) && locked
    {
      locked := true;
      var n := 0;
      used := 0;
      while val == {}
        invariant used == n <= |wakes| && locked
        invariant Waiting(old(val), val, wakes, n)
        invariant val == {} ==> n < |wakes|
        decreases |wakes| - n
      {
        locked := false;
        OthersSignal(wakes[n].signals);
        locked := true;
        SleepOnce(old(val), wakes, n);
        n, used := n + 1, used + 1;
        if wakes[n - 1].timedOut {
          DecisionDecides(wakes, n - 1);
          return TimedOut, {}, used;
        }
      }
      if n > 0 { DecisionDecides(wakes, n - 1); }
      rval := val;
      val := {};
      locked := false;
      status := Ok;
    }
  }
}
