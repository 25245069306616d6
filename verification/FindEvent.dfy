/** The search for an event near a given time. */
module FindEvent {
  /** The half second that decides between two neighbours. */
  const HALF := 500_000_000

  /** The list index that the binary search of seq_find_event settles on. */
  function Search(key: nat, list: seq<nat>, imin: nat, imax: nat): (r: nat)
    requires imin <= imax < |list|
    ensures imin <= r <= imax
    decreases imax - imin
  {
    var imid := imin + (imax - imin) / 2;
    var dt := list[imid] - key;
    if dt == 0 || imax - imin <= 1 then (if dt < -HALF then imax else imid)
    else if dt > 0 then Search(key, list, imin, imid)
    else Search(key, list, imid, imax)
  }

  /** seq_find_event on a list of imax events, given by their times. */
  method Find(key: nat, list: seq<nat>, count: nat) returns (r: nat)
    requires count <= |list|
    ensures count > 0 ==> r == Result(key, list[..count])
    ensures count == 0 ==> r == 0
  {
    if count <= 1 {
      return 0;
    }
    var imin, imax := 0, count - 1;
    ghost var all := list[..count];
    while true
      invariant imin <= imax < count
      invariant Search(key, all, imin, imax) == Result(key, all)
      decreases imax - imin
    {
      var imid := imin + (imax - imin) / 2;
      var dt := list[imid] - key;
      if dt == 0 || imax - imin <= 1 {
        if dt < -HALF {
          return imax;
        }
        return imid;
      } else if dt > 0 {
        imax := imid;
      } else {
        imin := imid;
      }
    }
  }

  /** In order of time, as in a track; several events may share a time. */
  predicate Ordered(list: seq<nat>)
  {
    forall i, j :: 0 <= i < j < |list| ==> list[i] <= list[j]
  }

  function Distance(a: nat, b: nat): nat
  {
    if a < b then b - a else a - b
  }

  predicate Closest(key: nat, list: seq<nat>, r: nat)
    requires r < |list|
  {
    forall i :: 0 <= i < |list| ==> Distance(list[r], key) <= Distance(list[i], key)
  }

  /** Between two neighbours the half-second rule decides. */
  lemma {:induction false} SearchBetween(key: nat, list: seq<nat>, imin: nat, imax: nat, i: nat)
    requires Ordered(list) && imin <= i < i + 1 <= imax < |list|
    requires i == imin || list[i] < key
    requires i + 1 == imax || key < list[i + 1]
    requires list[i] != key && (key == list[i + 1] ==> i + 1 == |list| - 1 == imax)
    ensures Search(key, list, imin, imax) == if key - list[i] > 500_000_000 then i + 1 else i
    decreases imax - imin
  {
    var imid := imin + (imax - imin) / 2;
    if imax - imin > 1 {
      if imid <= i {
        SearchBetween(key, list, imid, imax, i);
      } else {
        SearchBetween(key, list, imin, imid, i);
      }
    }
  }

  /** The time of an event that is not the last is found. */
  lemma {:induction false} SearchExact(key: nat, list: seq<nat>, imin: nat, imax: nat, i: nat)
    requires Ordered(list) && imin <= i < imax < |list| && list[i] == key
    ensures list[Search(key, list, imin, imax)] == key
    decreases imax - imin
  {
    var imid := imin + (imax - imin) / 2;
    if imid < i {
      SearchExact(key, list, imid, imax, i);
    } else if imid > i {
      SearchExact(key, list, imin, imid, i);
    }
  }

  function Result(key: nat, list: seq<nat>): (r: nat)
    requires list != []
    ensures r < |list|
  {
    if |list| <= 1 then 0 else Search(key, list, 0, |list| - 1)
  }

  /** A gap in which the half-second rule never picks the farther neighbour:
      a second, give or take the rounding, or none, or too narrow to hold a
      key. */
  predicate GoodGap(gap: int, last: bool)
  {
    2 * HALF <= gap <= 2 * HALF + 2 || gap == 0 || (gap <= 2 && !last)
  }

  predicate GoodGaps(list: seq<nat>)
  {
    forall i :: 0 <= i < |list| - 1 ==> GoodGap(list[i + 1] as int - list[i] as int, i == |list| - 2)
  }

  lemma BracketExists(key: nat, list: seq<nat>, n: nat) returns (i: nat)
    requires Ordered(list) && 1 < n <= |list| && key !in list[..n - 1]
    ensures i < n - 1 && (i == 0 || list[i] < key) && (i == n - 2 || key < list[i + 1])
  {
    i := n - 2;
    while i > 0 && key < list[i]
      invariant i < n - 1 && (i == n - 2 || key < list[i + 1])
    {
      i := i - 1;
    }
    assert list[i] == list[..n - 1][i];
  }

  /** In a good gap the half-second rule picks the nearer neighbour. */
  lemma NearerIsPicked(key: nat, lo: nat, hi: nat, first: bool, last: bool)
    requires lo <= hi && GoodGap(hi - lo, last) && (first || lo < key) && (last || key < hi)
    ensures var r := if lo < key - HALF then hi else lo;
      Distance(r, key) <= Distance(lo, key) && Distance(r, key) <= Distance(hi, key)
  {
  }

  lemma BetweenIsClosest(key: nat, list: seq<nat>, i: nat)
    requires Ordered(list) && GoodGaps(list) && i + 1 < |list|
    requires (i == 0 || list[i] < key) && (i == |list| - 2 || key < list[i + 1]) && list[i] != key
    ensures Closest(key, list, Result(key, list))
  {
    SearchBetween(key, list, 0, |list| - 1, i);
    NearerIsPicked(key, list[i], list[i + 1], i == 0, i == |list| - 2);
    NeighboursSuffice(key, list, i, Result(key, list));
  }

  lemma GoodGapsFindClosest(key: nat, list: seq<nat>)
    requires Ordered(list) && list != [] && GoodGaps(list)
    ensures Closest(key, list, Result(key, list))
  {
    var n := |list|;
    if n > 1 {
      if key in list[..n - 1] {
        var i :| 0 <= i < n - 1 && list[i] == key;
        SearchExact(key, list, 0, n - 1, i);
      } else {
        var i := BracketExists(key, list, n);
        assert list[i] == list[..n - 1][i];
        BetweenIsClosest(key, list, i);
      }
    }
  }

  /** Of all events, one of the two around the key is closest. */
  lemma NeighboursSuffice(key: nat, list: seq<nat>, i: nat, r: nat)
    requires Ordered(list) && i + 1 < |list| && r < |list|
    requires (i == 0 || list[i] < key) && (i == |list| - 2 || key < list[i + 1])
    requires Distance(list[r], key) <= Distance(list[i], key) && Distance(list[r], key) <= Distance(list[i + 1], key)
    ensures Closest(key, list, r)
  {
  }

  lemma BadGapMisses(list: seq<nat>, i: nat) returns (key: nat)
    requires Ordered(list) && i < |list| - 1 && !GoodGap(list[i + 1] as int - list[i] as int, i == |list| - 2)
    ensures !Closest(key, list, Result(key, list))
  {
    var gap := list[i + 1] - list[i];
    if gap > 2 * HALF + 2 {
      key := list[i] + HALF + 1;
    } else if i == |list| - 2 && gap <= HALF {
      key := list[i + 1];
    } else if gap <= HALF {
      key := list[i + 1] - 1;
    } else {
      key := list[i] + HALF;
    }
    SearchBetween(key, list, 0, |list| - 1, i);
    assert Distance(list[i + 1], key) <= gap;
  }

  /** The documented promise, the event closest to the key, is kept for every
      key exactly when neighbours are a second apart, at the same time, or
      (except at the end) so close that no key falls between them. */
  lemma FindsClosestIff(list: seq<nat>)
    requires Ordered(list) && list != []
    ensures (forall key :: Closest(key, list, Result(key, list))) <==>
      forall i :: 0 <= i < |list| - 1 ==>
        var gap := list[i + 1] - list[i];
        1_000_000_000 <= gap <= 1_000_000_002 || gap == 0 || (gap <= 2 && i < |list| - 2)
  {
    assert GoodGaps(list) <==> forall i :: 0 <= i < |list| - 1 ==>
      GoodGap(list[i + 1] - list[i], i == |list| - 2);
    if GoodGaps(list) {
      forall key ensures Closest(key, list, Result(key, list)) {
        GoodGapsFindClosest(key, list);
      }
    } else {
      var i :| 0 <= i < |list| - 1 && !GoodGap(list[i + 1] - list[i], i == |list| - 2);
      var key := BadGapMisses(list, i);
    }
  }
}
