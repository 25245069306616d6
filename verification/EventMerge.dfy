/** The order in which a sequence of several sorted event tracks is played. */
module EventMerge {
  import opened Wrappers
  import opened NTime

  /** The event times of each track. */
  type Tracks = seq<seq<Time>>

  /** Event number k of a track. */
  datatype Firing = Firing(track: nat, k: nat)

  predicate Exists(tracks: Tracks, f: Firing)
  {
    f.track < |tracks| && f.k < |tracks[f.track]|
  }

  function When(tracks: Tracks, f: Firing): nat
    requires Exists(tracks, f)
  {
    Total(tracks[f.track][f.k])
  }

  /** Still to come when track t stands at idx[t]. */
  predicate ToCome(tracks: Tracks, idx: seq<nat>, f: Firing)
    requires |idx| == |tracks|
  {
    Exists(tracks, f) && idx[f.track] <= f.k
  }

  predicate Sorted(tracks: Tracks)
  {
    forall t, i, j :: 0 <= t < |tracks| && 0 <= i < j < |tracks[t]| ==> Total(tracks[t][i]) <= Total(tracks[t][j])
  }

  /** Playing order: by time, then by track, then by position in the track. */
  predicate Before(tracks: Tracks, a: Firing, b: Firing)
    requires Exists(tracks, a) && Exists(tracks, b)
  {
    || When(tracks, a) < When(tracks, b)
    || (When(tracks, a) == When(tracks, b) && (a.track < b.track || (a.track == b.track && a.k < b.k)))
  }

  /** The best of the first n tracks, as the scan of seq_get_next_event finds
      it: a later track must be strictly earlier in time to win. */
  function Best(tracks: Tracks, idx: seq<nat>, n: nat): (r: Option<nat>)
    requires |idx| == |tracks| && n <= |tracks|
    ensures r.Some? ==> r.value < n && idx[r.value] < |tracks[r.value]|
  {
    if n == 0 then None
    else
      var r := Best(tracks, idx, n - 1);
      if idx[n - 1] < |tracks[n - 1]|
         && (r.None? || Total(tracks[r.value][idx[r.value]]) > Total(tracks[n - 1][idx[n - 1]])) then Some(n - 1)
      else r
  }

  lemma {:induction false} BestIsFirst(tracks: Tracks, idx: seq<nat>, n: nat, u: nat)
    requires |idx| == |tracks| && u < n <= |tracks| && idx[u] < |tracks[u]|
    ensures var r := Best(tracks, idx, n);
      && r.Some?
      && (r.value == u || Before(tracks, Firing(r.value, idx[r.value]), Firing(u, idx[u])))
  {
    if u < n - 1 {
      BestIsFirst(tracks, idx, n - 1, u);
    } else {
      var r := Best(tracks, idx, n - 1);
    }
  }

  function Left(tracks: Tracks, idx: seq<nat>): nat
    requires |idx| == |tracks|
  {
    if tracks == [] then 0
    else
      var last := |tracks| - 1;
      Left(tracks[..last], idx[..last]) + (if idx[last] < |tracks[last]| then |tracks[last]| - idx[last] else 0)
  }

  lemma {:induction false} AdvanceLeft(tracks: Tracks, idx: seq<nat>, t: nat)
    requires |idx| == |tracks| && t < |tracks| && idx[t] < |tracks[t]|
    ensures Left(tracks, idx[t := idx[t] + 1]) == Left(tracks, idx) - 1
    decreases |tracks|
  {
    var last := |tracks| - 1;
    if t < last {
      AdvanceLeft(tracks[..last], idx[..last], t);
      assert idx[t := idx[t] + 1][..last] == idx[..last][t := idx[..last][t] + 1];
    } else {
      assert idx[t := idx[t] + 1][..last] == idx[..last];
    }
  }

  /** All events to come in the order they are played. */
  function Merged(tracks: Tracks, idx: seq<nat>): (s: seq<Firing>)
    requires |idx| == |tracks|
    decreases Left(tracks, idx)
  {
    match Best(tracks, idx, |tracks|)
    case None => []
    case Some(t) =>
      AdvanceLeft(tracks, idx, t);
      [Firing(t, idx[t])] + Merged(tracks, idx[t := idx[t] + 1])
  }

  predicate InOrder(tracks: Tracks, s: seq<Firing>)
  {
    && (forall i :: 0 <= i < |s| ==> Exists(tracks, s[i]))
    && (forall i, j :: 0 <= i < j < |s| ==> Before(tracks, s[i], s[j]))
  }

  /** The merge plays exactly the events to come. */
  lemma {:induction false} MergedIsComplete(tracks: Tracks, idx: seq<nat>, f: Firing)
    requires |idx| == |tracks|
    ensures f in Merged(tracks, idx) <==> ToCome(tracks, idx, f)
    decreases Left(tracks, idx)
  {
    match Best(tracks, idx, |tracks|)
    case None =>
      if ToCome(tracks, idx, f) {
        BestIsFirst(tracks, idx, |tracks|, f.track);
      }
    case Some(t) =>
      AdvanceLeft(tracks, idx, t);
      MergedIsComplete(tracks, idx[t := idx[t] + 1], f);
  }

  /** The head of the merge is played before everything else to come. */
  lemma HeadIsFirst(tracks: Tracks, idx: seq<nat>, t: nat, f: Firing)
    requires |idx| == |tracks| && Sorted(tracks)
    requires Best(tracks, idx, |tracks|) == Some(t) && ToCome(tracks, idx, f) && f != Firing(t, idx[t])
    ensures Before(tracks, Firing(t, idx[t]), f)
  {
    BestIsFirst(tracks, idx, |tracks|, f.track);
    if idx[f.track] < f.k {
      assert Total(tracks[f.track][idx[f.track]]) <= Total(tracks[f.track][f.k]);
    }
  }

  /** The merge is in playing order: time never goes back, ties go to the lower
      track, each track keeps its own order, and no event is played twice. */
  lemma {:induction false} MergedIsInOrder(tracks: Tracks, idx: seq<nat>)
    requires |idx| == |tracks| && Sorted(tracks)
    ensures InOrder(tracks, Merged(tracks, idx))
    decreases Left(tracks, idx)
  {
    var s := Merged(tracks, idx);
    match Best(tracks, idx, |tracks|)
    case None =>
    case Some(t) =>
      var idx' := idx[t := idx[t] + 1];
      AdvanceLeft(tracks, idx, t);
      MergedIsInOrder(tracks, idx');
      forall j | 1 <= j < |s| ensures Before(tracks, s[0], s[j]) {
        assert s[j] in Merged(tracks, idx');
        MergedIsComplete(tracks, idx', s[j]);
        HeadIsFirst(tracks, idx, t, s[j]);
      }
      assert forall j :: 1 <= j < |s| ==> s[j] == Merged(tracks, idx')[j - 1];
  }

  /** The merge is the only way to play the events to come in that order. */
  lemma {:induction false} InOrderIsMerged(tracks: Tracks, s: seq<Firing>, r: seq<Firing>)
    requires InOrder(tracks, s) && InOrder(tracks, r)
    requires forall f :: f in s <==> f in r
    ensures s == r
    decreases |s|
  {
    assert |r| > 0 ==> r[0] in r;
    if s != [] {
      assert s[0] in s && s[0] in r;
      assert s[0] == r[0];
      forall f ensures f in s[1..] <==> f in r[1..] {
        TailMembers(tracks, s, f);
        TailMembers(tracks, r, f);
      }
      InOrderIsMerged(tracks, s[1..], r[1..]);
      assert s == [s[0]] + s[1..] && r == [r[0]] + r[1..];
    }
  }

  lemma TailMembers(tracks: Tracks, s: seq<Firing>, f: Firing)
    requires s != [] && InOrder(tracks, s)
    ensures f in s[1..] <==> f in s && f != s[0]
  {
    if f in s && f != s[0] {
      var i :| 0 <= i < |s| && s[i] == f;
      assert s[1..][i - 1] == f;
    }
    if f in s[1..] {
      var i :| 0 <= i < |s| - 1 && s[1..][i] == f;
      assert s[i + 1] == f && Before(tracks, s[0], s[i + 1]);
    }
  }

  lemma StableMergeIsUnique(tracks: Tracks, idx: seq<nat>, s: seq<Firing>)
    requires |idx| == |tracks| && Sorted(tracks)
    ensures s == Merged(tracks, idx) <==>
            InOrder(tracks, s) && forall f :: f in s <==> ToCome(tracks, idx, f)
  {
    MergedIsInOrder(tracks, idx);
    forall f ensures f in Merged(tracks, idx) <==> ToCome(tracks, idx, f) {
      MergedIsComplete(tracks, idx, f);
    }
    if InOrder(tracks, s) && forall f :: f in s <==> ToCome(tracks, idx, f) {
      InOrderIsMerged(tracks, s, Merged(tracks, idx));
    }
  }

  /** The events of s up to the first one later than the stop time. */
  function UpTo(tracks: Tracks, s: seq<Firing>, stop: int): (r: seq<Firing>)
    requires forall i :: 0 <= i < |s| ==> Exists(tracks, s[i])
    ensures r <= s
  {
    if s == [] || When(tracks, s[0]) > stop then [] else [s[0]] + UpTo(tracks, s[1..], stop)
  }

  /** What a run to the stop time plays: the first event whatever its time,
      then everything up to the stop time. */
  function Played(tracks: Tracks, s: seq<Firing>, stop: int): (r: seq<Firing>)
    requires forall i :: 0 <= i < |s| ==> Exists(tracks, s[i])
    ensures r <= s
  {
    if s == [] then [] else [s[0]] + UpTo(tracks, s[1..], stop)
  }

  lemma MergedExist(tracks: Tracks, idx: seq<nat>)
    requires |idx| == |tracks|
    ensures forall i :: 0 <= i < |Merged(tracks, idx)| ==> Exists(tracks, Merged(tracks, idx)[i])
  {
    var s := Merged(tracks, idx);
    forall i | 0 <= i < |s| ensures Exists(tracks, s[i]) {
      MergedIsComplete(tracks, idx, s[i]);
    }
  }

  /** What is played from position idx on. */
  function PlayedFrom(tracks: Tracks, idx: seq<nat>, stop: int): (r: seq<Firing>)
    requires |idx| == |tracks|
  {
    MergedExist(tracks, idx);
    Played(tracks, Merged(tracks, idx), stop)
  }

  /** Playing the head: the rest is played if its head is due by the stop time. */
  lemma PlayHead(tracks: Tracks, idx: seq<nat>, stop: int, t: nat)
    requires |idx| == |tracks| && Best(tracks, idx, |tracks|) == Some(t)
    ensures var idx' := idx[t := idx[t] + 1]; var next := Best(tracks, idx', |tracks|);
      && Left(tracks, idx') < Left(tracks, idx)
      && Merged(tracks, idx) == [Firing(t, idx[t])] + Merged(tracks, idx')
      && PlayedFrom(tracks, idx, stop) == [Firing(t, idx[t])] +
         (if next.Some? && Total(tracks[next.value][idx'[next.value]]) <= stop then PlayedFrom(tracks, idx', stop) else [])
  {
    AdvanceLeft(tracks, idx, t);
    MergedExist(tracks, idx);
    MergedExist(tracks, idx[t := idx[t] + 1]);
  }

  lemma {:induction false} UpToIsByTime(tracks: Tracks, s: seq<Firing>, stop: int, f: Firing)
    requires InOrder(tracks, s)
    ensures f in UpTo(tracks, s, stop) <==> f in s && When(tracks, f) <= stop
    decreases |s|
  {
    if s != [] {
      TailMembers(tracks, s, f);
      if When(tracks, s[0]) <= stop {
        UpToIsByTime(tracks, s[1..], stop, f);
      } else if f in s && f != s[0] {
        var i :| 0 <= i < |s| && s[i] == f;
        assert Before(tracks, s[0], s[i]);
      }
    }
  }

  /** A run to a stop time plays exactly the events not later than it, and the
      first event to come even when it is later. */
  lemma PlayedIsByTime(tracks: Tracks, idx: seq<nat>, stop: int, f: Firing)
    requires |idx| == |tracks| && Sorted(tracks)
    ensures InOrder(tracks, Merged(tracks, idx))
    ensures f in PlayedFrom(tracks, idx, stop) <==>
            ToCome(tracks, idx, f) && ([f] <= Merged(tracks, idx) || When(tracks, f) <= stop)
  {
    MergedIsInOrder(tracks, idx);
    MergedIsComplete(tracks, idx, f);
    var s := Merged(tracks, idx);
    if s != [] {
      UpToIsByTime(tracks, s[1..], stop, f);
      TailMembers(tracks, s, f);
    }
  }

  lemma {:induction false} UpToEverything(tracks: Tracks, s: seq<Firing>, stop: int)
    requires forall i :: 0 <= i < |s| ==> Exists(tracks, s[i]) && When(tracks, s[i]) <= stop
    ensures UpTo(tracks, s, stop) == s
    decreases |s|
  {
    if s != [] {
      UpToEverything(tracks, s[1..], stop);
    }
  }
}
