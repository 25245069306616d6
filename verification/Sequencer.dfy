/** The event sequencer: plays several sorted tracks against a monotonic
    clock, sleeping through long gaps. */
module Sequencer {
  import opened Wrappers
  import opened NTime
  import opened EventMerge

  /** What the clock shows each time it is read: total nanoseconds that never
      go back and fit a time stamp. */
  ghost predicate IsClock(clock: seq<nat>)
  {
    && |clock| > 0
    && (forall i, j :: 0 <= i <= j < |clock| ==> clock[i] <= clock[j])
    && (forall i :: 0 <= i < |clock| ==> clock[i] < HORIZON)
  }

  ghost predicate AllZero(statuses: seq<int>)
  {
    forall i :: 0 <= i < |statuses| ==> statuses[i] == 0
  }

  /** A turn that waits: the sequence time, how many events have been played,
      the time of the next one, and the sleep asked for, if any. */
  datatype Pause = Pause(from: int, played: nat, event: int, nap: Option<int>)

  /** How far a run has come: the event at hand while it goes on, the events
      played and the sequence time of each, the turns that waited, the status
      so far, whether a sleep failed, and how often the clock was read since
      the start. */
  datatype Run = Run(event: Option<Firing>, played: seq<Firing>, at: seq<int>, pauses: seq<Pause>, status: int,
                     broken: bool, readings: nat)

  const OK := 1
  const NOT_OK := 0
  const EINVAL := 22

  /** What a sleep returns: a negative interval is refused, otherwise what the
      system says. */
  function SleepResult(request: int, slept: int): int
  {
    if request < 0 then EINVAL else slept
  }

  /** No turn has asked for a sleep. */
  predicate Awake(pauses: seq<Pause>)
  {
    forall i :: 0 <= i < |pauses| ==> pauses[i].nap.None?
  }

  ghost predicate AllNormal(tracks: Tracks)
  {
    forall t, k :: 0 <= t < |tracks| && 0 <= k < |tracks[t]| ==> Normal(tracks[t][k])
  }

  function First(s: Option<nat>, idx: seq<nat>): Option<Firing>
    requires s.Some? ==> s.value < |idx|
  {
    if s.None? then None else Some(Firing(s.value, idx[s.value]))
  }

  /** The clock has reached the time of every event that is to be played,
      counted from the system time at which the sequence had its zero. */
  ghost predicate Reaches(last: nat, zero: nat, tracks: Tracks, goal: seq<Firing>)
  {
    forall f :: f in goal && Exists(tracks, f) ==> zero + When(tracks, f) <= last
  }

  /** As long as the next event has not come, the clock has not reached the
      reading that is far enough for all events to be played. */
  lemma WaitIsBounded(tracks: Tracks, idx: seq<nat>, played: seq<Firing>, goal: seq<Firing>, stop: int, head: Firing,
                      clock: seq<nat>, zero: nat, now: nat, n: nat)
    requires |idx| == |tracks| && IsClock(clock) && Reaches(clock[|clock| - 1], zero, tracks, goal)
    requires played + PlayedFrom(tracks, idx, stop) == goal
    requires First(Best(tracks, idx, |tracks|), idx) == Some(head)
    requires Exists(tracks, head) && now < When(tracks, head) && n < |clock| && clock[n] <= now + zero
    ensures n < |clock| - 1
    ensures clock[n] <= clock[n + 1] < HORIZON
  {
    PlayHead(tracks, idx, stop, head.track);
    assert PlayedFrom(tracks, idx, stop)[0] == head;
    assert goal[|played|] == head;
    assert clock[n] < clock[|clock| - 1];
  }

  lemma MoveHead<T>(a: seq<T>, h: T, r: seq<T>)
    ensures a + ([h] + r) == (a + [h]) + r
  {
  }

  /** ddi_ntime_get_systime followed by ddi_ntime_sub_ns. */
  method SystimeLess(reading: nat, t: Time) returns (d: Time)
    requires reading < HORIZON && Normal(t)
    ensures Normal(d) && Total(d) == Saturating(reading, Total(t))
  {
    var now := new Ntime(Stamp(reading));
    now.SubNs(t.sec, t.ns);
    MinusSaturatesIff(Stamp(reading), t.sec, t.ns);
    d := now.Value();
  }

  class Sequencer {
    var ntime: Time
    const wakeLatency: nat
    const schedulerUncertainty: nat
    const tracks: Tracks
    var idx: seq<nat>

    constructor (tracks: Tracks, wakeLatency: nat, schedulerUncertainty: nat)
      requires wakeLatency < U32 && schedulerUncertainty < U32
      requires AllNormal(tracks)
      ensures Valid() && this.tracks == tracks && ntime == Time(0, 0)
      ensures this.wakeLatency == wakeLatency && this.schedulerUncertainty == schedulerUncertainty
      ensures idx == seq(|tracks|, _ => 0)
    {
      ntime := Time(0, 0);
      this.tracks, this.wakeLatency, this.schedulerUncertainty := tracks, wakeLatency, schedulerUncertainty;
      idx := seq(|tracks|, _ => 0);
    }

    ghost predicate Valid()
      reads this
    {
      && Normal(ntime)
      && wakeLatency < U32 && schedulerUncertainty < U32
      && |idx| == |tracks|
      && AllNormal(tracks)
    }

    /** seq_get_next_event */
    method GetNextEvent() returns (next: Option<Firing>)
      requires Valid()
      ensures next == First(Best(tracks, idx, |tracks|), idx)
      ensures next.Some? <==> Merged(tracks, idx) != []
    {
      next := None;
      for tn := 0 to |tracks|
        invariant next == First(Best(tracks, idx, tn), idx)
      {
        if idx[tn] < |tracks[tn]| {
          if next.None? || DiffNs(tracks[next.value.track][next.value.k], tracks[tn][idx[tn]]) > 0 {
            next := Some(Firing(tn, idx[tn]));
          }
        }
      }
    }

    /** The number of nanoseconds to sleep when the event is dt ahead, if the
        gap is worth sleeping: the two margins are added in 32 bits. */
    function SleepFor(dt: int): Option<int>
      requires dt > 0
    {
      if dt > (wakeLatency + schedulerUncertainty) % U32 then Some(dt - wakeLatency) else None
    }

    /** Every sleep asked for is a real interval exactly when the sum of the
        two margins fits 32 bits. */
    lemma SleepsArePositiveIff()
      requires wakeLatency < U32 && schedulerUncertainty < U32
      ensures (forall dt: int {:trigger SleepFor(dt)} :: dt > 0 && SleepFor(dt).Some? ==> SleepFor(dt).value > 0) <==>
              wakeLatency + schedulerUncertainty < U32
      ensures forall dt: int {:trigger SleepFor(dt)} :: dt > 0 ==>
        (SleepFor(dt).Some? <==> dt > (wakeLatency + schedulerUncertainty) % 0x1_0000_0000)
    {
      if wakeLatency + schedulerUncertainty >= U32 {
        var dt := wakeLatency + schedulerUncertainty - U32 + 1;
        assert SleepFor(dt) == Some(dt - wakeLatency);
      }
    }

    ghost predicate NoneEarly(played: seq<Firing>, at: seq<int>)
    {
      && |at| == |played|
      && forall i :: 0 <= i < |at| ==> Exists(tracks, played[i]) && When(tracks, played[i]) <= at[i]
    }

    /** A turn that only waits: sleep if the gap is longer than the two margins,
        added in 32 bits, then read the clock. The sleep is to end wake_latency
        before the event; one that fails ends the run. */
    method Wait(event: int, zero: Time, was: int, slept: int, reading: nat)
      returns (nap: Option<int>, status: int, broken: bool)
      requires Valid() && Total(ntime) < event && Normal(zero) && reading < HORIZON
      modifies this`ntime
      ensures Valid()
      ensures var dt := event - old(Total(ntime));
        if dt > (wakeLatency + schedulerUncertainty) % 0x1_0000_0000 then
          && nap == Some(dt - wakeLatency)
          && status == (if dt < wakeLatency then 22 else slept)
          && (broken <==> dt < wakeLatency || slept != 0)
        else
          nap == None && status == was && !broken
      ensures if broken then ntime == old(ntime) else Total(ntime) == Saturating(reading, Total(zero))
    {
      nap, status, broken := SleepFor(event - Total(ntime)), was, false;
      if nap.Some? {
        status := SleepResult(nap.value, slept);
        broken := status != 0;
      }
      if !broken {
        ntime := SystimeLess(reading, zero);
      }
    }

    /** Turn i waited as it had to: it began at the reading before it, with the
        next event of `all` still to come, and asked for a sleep, to end
        wake_latency before that event, exactly when the event was further off
        than the two margins. */
    ghost predicate PauseIsRight(pause: Pause, i: nat, all: seq<Firing>, start: nat, zero: nat, clock: seq<nat>)
      requires i < |clock|
    {
      && pause.from == (if i == 0 then start else Saturating(clock[i], zero))
      && pause.played < |all| && Exists(tracks, all[pause.played])
      && pause.event == When(tracks, all[pause.played])
      && pause.from < pause.event
      && pause.nap == (if pause.event - pause.from > (wakeLatency + schedulerUncertainty) % 0x1_0000_0000
                       then Some(pause.event - pause.from - wakeLatency) else None)
    }

    /** Turn i asked for a sleep, and the sleep failed. */
    ghost predicate SleepFails(pause: Pause, slept: int)
    {
      pause.nap.Some? && (pause.nap.value < 0 || slept != 0)
    }

    /** There is one turn that waits before each reading of the clock, and one
        more exactly when the run broke off, in the first sleep that failed. */
    ghost predicate PausesAreRight(pauses: seq<Pause>, broken: bool, readings: nat, all: seq<Firing>, start: nat,
                                   zero: nat, clock: seq<nat>, slept: seq<int>)
    {
      && |pauses| == readings + (if broken then 1 else 0) <= |clock| == |slept|
      && (forall i :: 0 <= i < |pauses| ==> PauseIsRight(pauses[i], i, all, start, zero, clock))
      && (forall i :: 0 <= i < |pauses| ==> (SleepFails(pauses[i], slept[i]) <==> broken && i == readings))
    }

    /** Events are played in the turns between two waits, at the sequence time
        the latter wait begins with, and after the last one, at `now`. */
    ghost predicate PlayedBetween(pauses: seq<Pause>, at: seq<int>, now: int)
    {
      && (forall i :: 0 <= i < |pauses| ==> pauses[i].played <= |at|)
      && (forall i, q :: 0 <= i < |pauses| && 0 <= q < |at| ==>
            (i == 0 || pauses[i - 1].played <= q) && q < pauses[i].played ==> at[q] == pauses[i].from)
      && (forall q :: 0 <= q < |at| && (pauses == [] || pauses[|pauses| - 1].played <= q) ==> at[q] == now)
    }

    /** The status tells whether a sleep was asked for, and how the one that
        failed ended. */
    ghost predicate StatusIsRight(run: Run, slept: seq<int>)
      requires run.broken ==> run.readings < |run.pauses| && run.readings < |slept|
    {
      run.status == if Awake(run.pauses) then 1
                    else if !run.broken then 0
                    else if run.pauses[run.readings].nap.Some? && run.pauses[run.readings].nap.value < 0 then 22
                    else slept[run.readings]
    }

    /** How the run waited, from the start. */
    ghost predicate WaitedRight(run: Run, all: seq<Firing>, start: nat, zero: nat, now: int, clock: seq<nat>,
                                slept: seq<int>)
    {
      && PausesAreRight(run.pauses, run.broken, run.readings, all, start, zero, clock, slept)
      && PlayedBetween(run.pauses, run.at, now)
      && StatusIsRight(run, slept)
    }

    /** One more turn that waits. */
    lemma PauseAdds(run: Run, next: Run, pause: Pause, all: seq<Firing>, start: nat, zero: nat, now: int, later: int,
                    clock: seq<nat>, slept: seq<int>)
      requires WaitedRight(run, all, start, zero, now, clock, slept) && !run.broken
      requires run.readings < |clock| && PauseIsRight(pause, run.readings, all, start, zero, clock)
      requires pause.from == now && pause.played == |run.at|
      requires next.pauses == run.pauses + [pause] && next.at == run.at
      requires next.broken <==> SleepFails(pause, slept[run.readings])
      requires next.readings == if next.broken then run.readings else run.readings + 1
      requires next.status == if pause.nap.None? then run.status else SleepResult(pause.nap.value, slept[run.readings])
      ensures WaitedRight(next, all, start, zero, later, clock, slept)
    {
      PausesStayRight(run.pauses, pause, next.broken, run.readings, all, start, zero, clock, slept);
      PlayedBefore(run.pauses, pause, run.at, now, later);
      if Awake(next.pauses) {
        assert forall i :: 0 <= i < |run.pauses| ==> run.pauses[i] == next.pauses[i];
      }
      assert next.pauses[|run.pauses|] == pause;
    }

    lemma PausesStayRight(pauses: seq<Pause>, pause: Pause, broken: bool, readings: nat, all: seq<Firing>, start: nat,
                          zero: nat, clock: seq<nat>, slept: seq<int>)
      requires PausesAreRight(pauses, false, readings, all, start, zero, clock, slept)
      requires readings < |clock| && PauseIsRight(pause, readings, all, start, zero, clock)
      requires broken <==> SleepFails(pause, slept[readings])
      ensures PausesAreRight(pauses + [pause], broken, if broken then readings else readings + 1, all, start, zero,
                             clock, slept)
    {
    }

    lemma PlayedBefore(pauses: seq<Pause>, pause: Pause, at: seq<int>, now: int, later: int)
      requires PlayedBetween(pauses, at, now) && pause.from == now && pause.played == |at|
      ensures PlayedBetween(pauses + [pause], at, later)
    {
    }

    /** One more event played. */
    lemma PlayAdds(run: Run, next: Run, all: seq<Firing>, start: nat, zero: nat, now: int, clock: seq<nat>,
                   slept: seq<int>)
      requires WaitedRight(run, all, start, zero, now, clock, slept)
      requires next == run.(event := next.event, played := next.played, at := run.at + [now])
      ensures WaitedRight(next, all, start, zero, now, clock, slept)
    {
    }

    /** Plays the event at hand: it is recorded with the sequence time, its
        track moves on, and the next event is looked up. `more` tells whether
        that one is to be played too. */
    method PlayOne(head: Firing, tstop: int, sofar: seq<Firing>, times: seq<int>)
      returns (next: Option<Firing>, more: bool, played: seq<Firing>, at: seq<int>)
      requires Valid() && First(Best(tracks, idx, |tracks|), idx) == Some(head)
      requires When(tracks, head) <= Total(ntime) && NoneEarly(sofar, times)
      modifies this`idx
      ensures Valid() && NoneEarly(played, at)
      ensures played == sofar + [head] && at == times + [Total(ntime)]
      ensures played + Merged(tracks, idx) == old(sofar + Merged(tracks, idx))
      ensures played + (if more then PlayedFrom(tracks, idx, tstop) else []) == old(sofar + PlayedFrom(tracks, idx, tstop))
      ensures Left(tracks, idx) < old(Left(tracks, idx))
      ensures more ==> next == First(Best(tracks, idx, |tracks|), idx) && next.Some?
    {
      PlayHead(tracks, idx, tstop, head.track);
      idx := idx[head.track := head.k + 1];
      next := GetNextEvent();
      more := next.Some? && Total(tracks[next.value.track][next.value.k]) <= tstop;
      played, at := sofar + [head], times + [Total(ntime)];
      MoveHead(sofar, head, Merged(tracks, idx));
      MoveHead(sofar, head, if more then PlayedFrom(tracks, idx, tstop) else []);
    }

    /** What holds at the head of the loop of seq_proc: `all` was to come and
        `goal` was to be played when the call began, at sequence time `start`;
        `zero` is the system time of sequence time zero. */
    ghost predicate LoopInv(run: Run, all: seq<Firing>, goal: seq<Firing>, start: Time, zero: Time, tstop: int,
                            clock: seq<nat>, sleepStatus: seq<int>)
      requires Valid()
      reads this
    {
      && run.readings < |clock|
      && (if run.readings > 0 then Total(ntime) == Saturating(clock[run.readings], Total(zero)) else ntime == start)
      && clock[run.readings] <= Total(ntime) + Total(zero)
      && run.played + Merged(tracks, idx) == all
      && (run.event.Some? ==>
            && run.event == First(Best(tracks, idx, |tracks|), idx)
            && !run.broken
            && run.played + PlayedFrom(tracks, idx, tstop) == goal)
      && (run.event.None? ==> if run.broken then run.played <= goal else run.played == goal)
      && NoneEarly(run.played, run.at)
      && WaitedRight(run, all, Total(start), Total(zero), Total(ntime), clock, sleepStatus)
    }

    /** One turn of the loop of seq_proc: the event is played if it is due,
        otherwise the thread waits. */
    method Turn(run: Run, ghost all: seq<Firing>, ghost goal: seq<Firing>, ghost start: Time, zero: Time, tstop: int,
                clock: seq<nat>, sleepStatus: seq<int>)
      returns (next: Run)
      requires Valid() && IsClock(clock) && |sleepStatus| == |clock| && Normal(zero)
      requires Reaches(clock[|clock| - 1], Total(zero), tracks, goal)
      requires LoopInv(run, all, goal, start, zero, tstop, clock, sleepStatus) && run.event.Some?
      modifies this
      ensures Valid() && LoopInv(next, all, goal, start, zero, tstop, clock, sleepStatus)
      ensures next.event.None? || Left(tracks, idx) < old(Left(tracks, idx))
              || (idx == old(idx) && next.readings > run.readings)
    {
      var head := run.event.value;
      if DiffNs(ntime, tracks[head.track][head.k]) >= 0 {
        var event, more, played, at := PlayOne(head, tstop, run.played, run.at);
        next := run.(event := if more then event else None, played := played, at := at);
        PlayAdds(run, next, all, Total(start), Total(zero), Total(ntime), clock, sleepStatus);
      } else {
        next := WaitOnce(run, all, goal, start, zero, tstop, clock, sleepStatus);
      }
    }

    /** The turn of an event that is not due. */
    method WaitOnce(run: Run, ghost all: seq<Firing>, ghost goal: seq<Firing>, ghost start: Time, zero: Time, tstop: int,
                    clock: seq<nat>, sleepStatus: seq<int>)
      returns (next: Run)
      requires Valid() && IsClock(clock) && |sleepStatus| == |clock| && Normal(zero)
      requires Reaches(clock[|clock| - 1], Total(zero), tracks, goal)
      requires LoopInv(run, all, goal, start, zero, tstop, clock, sleepStatus) && run.event.Some?
      requires Total(ntime) < When(tracks, run.event.value)
      modifies this`ntime
      ensures Valid() && LoopInv(next, all, goal, start, zero, tstop, clock, sleepStatus)
      ensures next.event.None? || next.readings > run.readings
    {
      var head := run.event.value;
      WaitIsBounded(tracks, idx, run.played, goal, tstop, head, clock, Total(zero), Total(ntime), run.readings);
      NextIs(run.played, all, head, tstop);
      var from, due := Total(ntime), Total(tracks[head.track][head.k]);
      var nap, status, broken := Wait(due, zero, run.status, sleepStatus[run.readings], clock[run.readings + 1]);
      var pause := Pause(from, |run.played|, due, nap);
      next := run.(pauses := run.pauses + [pause], status := status, broken := broken,
                   event := if broken then None else run.event,
                   readings := if broken then run.readings else run.readings + 1);
      PauseAdds(run, next, pause, all, Total(start), Total(zero), from, Total(ntime), clock, sleepStatus);
    }

    lemma NextIs(played: seq<Firing>, all: seq<Firing>, head: Firing, tstop: int)
      requires Valid() && First(Best(tracks, idx, |tracks|), idx) == Some(head)
      requires played + Merged(tracks, idx) == all
      ensures |played| < |all| && all[|played|] == head
    {
      PlayHead(tracks, idx, tstop, head.track);
    }

    /** How a run went that began at sequence time `start` with the events of
        `all` to come, and ended at `now`. With nothing to come it ends at once
        with NOT_OK. */
    ghost predicate WentRight(run: Run, all: seq<Firing>, start: nat, now: int, clock: seq<nat>, slept: seq<int>)
      requires |clock| > 0
    {
      && |run.at| == |run.played| && run.played <= all && run.readings < |clock|
      && NoneEarly(run.played, run.at)
      && (if all == [] then run == Run(None, [], [], [], 0, false, 0)
          else WaitedRight(run, all, start, Saturating(clock[0], start), now, clock, slept))
    }

    /** Sleeps that the system does not break off fail only for margins that
        run over 32 bits. */
    lemma NothingFails(run: Run, all: seq<Firing>, start: nat, now: int, clock: seq<nat>, slept: seq<int>)
      requires |clock| > 0 && WentRight(run, all, start, now, clock, slept)
      requires AllZero(slept) && wakeLatency + schedulerUncertainty < U32
      ensures !run.broken
    {
      if run.broken {
        SoundSleepHolds(run.pauses[run.readings], run.readings, all, start, Saturating(clock[0], start), clock);
      }
    }

    /** With margins that fit 32 bits every sleep is a real interval that ends
        wake_latency before its event. */
    lemma SoundSleepHolds(pause: Pause, i: nat, all: seq<Firing>, start: nat, zero: nat, clock: seq<nat>)
      requires i < |clock| && PauseIsRight(pause, i, all, start, zero, clock)
      requires wakeLatency + schedulerUncertainty < U32
      ensures !SleepFails(pause, 0)
      ensures pause.nap.Some? ==> pause.nap.value > 0 && pause.from + pause.nap.value == pause.event - wakeLatency
    {
    }

    /** seq_proc. `sleepStatus` tells what each clock_nanosleep would return in
        each turn; the result records what was played and when, and how the
        thread waited. */
    method Proc(tstop: int, clock: seq<nat>, sleepStatus: seq<int>) returns (run: Run)
      requires Valid() && IsClock(clock) && |sleepStatus| == |clock|
      requires Reaches(clock[|clock| - 1], Saturating(clock[0], Total(ntime)), tracks, PlayedFrom(tracks, idx, tstop))
      modifies this
      ensures Valid()
      ensures run.played + Merged(tracks, idx) == old(Merged(tracks, idx))
      ensures run.played <= old(PlayedFrom(tracks, idx, tstop))
      ensures !run.broken ==> run.played == old(PlayedFrom(tracks, idx, tstop))
      ensures AllZero(sleepStatus) && wakeLatency + schedulerUncertainty < U32 ==> !run.broken
      ensures WentRight(run, old(Merged(tracks, idx)), old(Total(ntime)), Total(ntime), clock, sleepStatus)
      ensures if run.readings == 0 then ntime == old(ntime)
              else Total(ntime) == Saturating(clock[run.readings], Saturating(clock[0], old(Total(ntime))))
    {
      ghost var all, goal, start := Merged(tracks, idx), PlayedFrom(tracks, idx, tstop), ntime;
      var zero := SystimeLess(clock[0], ntime);
      var event := GetNextEvent();
      run := Run(event, [], [], [], OK, false, 0);
      while run.event.Some?
        invariant Valid() && LoopInv(run, all, goal, start, zero, tstop, clock, sleepStatus)
        decreases run.event.Some?, Left(tracks, idx), |clock| - run.readings
      {
        run := Turn(run, all, goal, start, zero, tstop, clock, sleepStatus);
      }
      if event.None? {
        run := run.(status := NOT_OK);
      }
      if AllZero(sleepStatus) && wakeLatency + schedulerUncertainty < U32 {
        NothingFails(run, all, Total(start), Total(ntime), clock, sleepStatus);
      }
    }

    /** seq_run: plays to the time of the latest last event, which is every
        event there is, unless a sleep fails. */
    method RunAll(clock: seq<nat>, sleepStatus: seq<int>) returns (run: Run)
      requires Valid() && IsClock(clock) && |sleepStatus| == |clock|
      requires Reaches(clock[|clock| - 1], Saturating(clock[0], Total(ntime)), tracks, Merged(tracks, idx))
      requires Sorted(tracks) && forall t :: 0 <= t < |tracks| ==> tracks[t] != []
      modifies this
      ensures Valid()
      ensures run.played + Merged(tracks, idx) == old(Merged(tracks, idx))
      ensures AllZero(sleepStatus) && wakeLatency + schedulerUncertainty < U32 ==> !run.broken
      ensures !run.broken ==> run.played == old(Merged(tracks, idx)) && Merged(tracks, idx) == []
      ensures WentRight(run, old(Merged(tracks, idx)), old(Total(ntime)), Total(ntime), clock, sleepStatus)
    {
      var max := 0;
      for i := 0 to |tracks|
        invariant forall t :: 0 <= t < i ==> Total(tracks[t][|tracks[t]| - 1]) <= max
      {
        var last := Total(tracks[i][|tracks[i]| - 1]);
        if last > max {
          max := last;
        }
      }
      AllPlayed(tracks, idx, max);
      run := Proc(max, clock, sleepStatus);
    }

    /** seq_run_to_ntime: the first event to come, then all that are not later
        than the stop time. */
    method RunToNtime(stop: Time, clock: seq<nat>, sleepStatus: seq<int>) returns (run: Run)
      requires Valid() && IsClock(clock) && |sleepStatus| == |clock|
      requires Reaches(clock[|clock| - 1], Saturating(clock[0], Total(ntime)), tracks,
                       PlayedFrom(tracks, idx, Total(stop)))
      requires Sorted(tracks)
      modifies this
      ensures Valid()
      ensures run.played + Merged(tracks, idx) == old(Merged(tracks, idx))
      ensures AllZero(sleepStatus) && wakeLatency + schedulerUncertainty < U32 ==> !run.broken
      ensures !run.broken ==> forall f :: f in run.played <==>
        old(ToCome(tracks, idx, f)) && ([f] <= old(Merged(tracks, idx)) || When(tracks, f) <= Total(stop))
      ensures WentRight(run, old(Merged(tracks, idx)), old(Total(ntime)), Total(ntime), clock, sleepStatus)
    {
      forall f
        ensures f in PlayedFrom(tracks, idx, Total(stop)) <==>
                ToCome(tracks, idx, f) && ([f] <= Merged(tracks, idx) || When(tracks, f) <= Total(stop))
      {
        PlayedIsByTime(tracks, idx, Total(stop), f);
      }
      run := Proc(Total(stop), clock, sleepStatus);
    }
  }

  /** A stop time not before the last event of any track cuts nothing off. */
  lemma AllPlayed(tracks: Tracks, idx: seq<nat>, stop: int)
    requires |idx| == |tracks| && Sorted(tracks) && forall t :: 0 <= t < |tracks| ==> tracks[t] != []
    requires forall t :: 0 <= t < |tracks| ==> Total(tracks[t][|tracks[t]| - 1]) <= stop
    ensures PlayedFrom(tracks, idx, stop) == Merged(tracks, idx)
  {
    var s := Merged(tracks, idx);
    MergedExist(tracks, idx);
    if s != [] {
      forall i | 0 <= i < |s| ensures When(tracks, s[i]) <= stop {
        assert Total(tracks[s[i].track][s[i].k]) <= Total(tracks[s[i].track][|tracks[s[i].track]| - 1]);
      }
      UpToEverything(tracks, s[1..], stop);
    }
  }

  /** After reading the clock at `now`, the sequence time is its start value
      plus the time elapsed since the run began at system time `began`, exactly
      when the system had been up at least as long as the start value. */
  lemma SequenceTimeIff(start: nat, began: nat, now: nat)
    requires began <= now
    ensures Saturating(now, Saturating(began, start)) == start + (now - began) <==> start <= began
  {
  }
}
