/** How many steps of its own a call of the message queue takes: every move of
    a thread within a call lowers a rank that the other thread never raises. */
module QueueProgress {
  import opened ControlWord
  import opened QueueProtocol
  import opened QueueSafety
  import opened QueueTheorems

  /** The fields of a snapshot that are still to be read. */
  function Unread(sn: Snapshot): nat
  {
    (if sn.depth.Some? then 0 else 1) + (if sn.idxIn.Some? then 0 else 1)
    + (if sn.idxOut.Some? then 0 else 1) + (if sn.count.Some? then 0 else 1)
  }

  /** A round of the loop that is bound to be lost costs seven moves. */
  const ROUND := 7

  function Lost(torn: bool): nat
  {
    if torn then ROUND else 0
  }

  /** An upper bound on the moves the producer has left in its call: each
      message in the queue may yet cost it a round. */
  function ProducerRank(p: Producer, w: Word, size: nat): int
  {
    var races := ROUND * w.count;
    match p
    case PIdle => 0
    case PInCount(m) => races + |Image(m, size)| + 16
    case PInDepth(m, _) => races + |Image(m, size)| + 15
    case PInIdx(m) => races + |Image(m, size)| + 14
    case PLen(m, _) => races + |Image(m, size)| + 13
    case PCopy(m, _, k) => races + |Image(m, size)| - k + 12
    case PEnqCount(_, _) => races + 11
    case PEnqDepth(_, _, _) => races + 10
    case PSnap(_, _, sn, _, _) => races + Lost(Torn(sn, w)) + Unread(sn) + 5
    case PCas(_, _, expected, _, _, _) => races + Lost(expected != w) + 4
    case PRetry(_, _, _, _, _) => races + 10
  }

  /** The consumer's: each free slot may yet cost it a round. */
  function ConsumerRank(c: Consumer, w: Word, size: nat): int
  {
    var races := ROUND * (w.depth - w.count);
    match c
    case CIdle => 0
    case COutCount(_) => races + size + 15
    case COutIdx(_) => races + size + 14
    case CLen(_, _) => races + size + 13
    case CCopy(_, _, n, got) => races + n - |got| + 12
    case CDeqCount(_, _, _) => races + 11
    case CSnap(_, _, _, sn, _, _) => races + Lost(Torn(sn, w)) + Unread(sn) + 5
    case CCas(_, _, _, expected, _, _, _) => races + Lost(expected != w) + 4
    case CRetry(_, _, _, _, _, _) => races + 10
  }

  lemma RanksAreNatural(s: State)
    requires Inv(s)
    ensures ProducerRank(s.p, s.w, s.size) >= 0 && ConsumerRank(s.c, s.w, s.size) >= 0
    ensures !s.p.PIdle? ==> ProducerRank(s.p, s.w, s.size) > 0
    ensures !s.c.CIdle? ==> ConsumerRank(s.c, s.w, s.size) > 0
  {
  }

  /** A lost race, or the installation that ends the call. */
  lemma ProducerExchangeLowersRank(s: State)
    requires Inv(s) && InBounds(s) && s.p.PCas?
    ensures var s' := StepProducer(s); ProducerRank(s'.p, s'.w, s'.size) < ProducerRank(s.p, s.w, s.size)
  {
  }

  lemma ProducerMoveLowersRank(s: State, a: Action)
    requires Inv(s) && InBounds(s) && (a.ProducerStep? || a.ProducerRead?) && Step(s, a).p != s.p
    ensures var s' := Step(s, a); ProducerRank(s'.p, s'.w, s'.size) < ProducerRank(s.p, s.w, s.size)
  {
    if a.ProducerStep? && s.p.PCas? { ProducerExchangeLowersRank(s); }
  }

  lemma ConsumerExchangeLowersRank(s: State)
    requires Inv(s) && InBounds(s) && s.c.CCas?
    ensures var s' := StepConsumer(s); ConsumerRank(s'.c, s'.w, s'.size) < ConsumerRank(s.c, s.w, s.size)
  {
  }

  lemma ConsumerCopyLowersRank(s: State)
    requires Inv(s) && InBounds(s) && (s.c.CLen? || s.c.CCopy?)
    ensures var s' := StepConsumer(s); ConsumerRank(s'.c, s'.w, s'.size) < ConsumerRank(s.c, s.w, s.size)
  {
    assert StoredAt(s.w, s.slots, s.lens, Pending(s)[0], 0);
  }

  lemma ConsumerMoveLowersRank(s: State, a: Action)
    requires Inv(s) && InBounds(s) && (a.ConsumerStep? || a.ConsumerRead?) && Step(s, a).c != s.c
    ensures var s' := Step(s, a); ConsumerRank(s'.c, s'.w, s'.size) < ConsumerRank(s.c, s.w, s.size)
  {
    if a.ConsumerStep? && s.c.CCas? {
      ConsumerExchangeLowersRank(s);
    } else if a.ConsumerStep? && (s.c.CLen? || s.c.CCopy?) {
      ConsumerCopyLowersRank(s);
    }
  }

  lemma ConsumerKeepsProducerRank(s: State, a: Action)
    requires Inv(s) && InBounds(s) && Step(s, a).p == s.p
    ensures ProducerRank(s.p, Step(s, a).w, s.size) <= ProducerRank(s.p, s.w, s.size)
  {
    if a == ConsumerStep && s.c.CCas? && s.w == s.c.expected { DequeueTakesHead(s); }
  }

  lemma ProducerKeepsConsumerRank(s: State, a: Action)
    requires Inv(s) && InBounds(s) && Step(s, a).c == s.c
    ensures ConsumerRank(s.c, Step(s, a).w, s.size) <= ConsumerRank(s.c, s.w, s.size)
  {
    if a == ProducerStep && s.p.PCas? && s.w == s.p.expected { EnqueueTakesEffect(s); }
  }

  /** The moves of the producer in a run from s until its call ends. */
  ghost function ProducerMoves(s: State, actions: seq<Action>): nat
    requires Inv(s)
    decreases |actions|
  {
    if actions == [] || s.p.PIdle? then 0
    else
      StepKeepsInv(s, actions[0]);
      var s' := Step(s, actions[0]);
      (if s'.p != s.p then 1 else 0) + ProducerMoves(s', actions[1..])
  }

  ghost function ConsumerMoves(s: State, actions: seq<Action>): nat
    requires Inv(s)
    decreases |actions|
  {
    if actions == [] || s.c.CIdle? then 0
    else
      StepKeepsInv(s, actions[0]);
      var s' := Step(s, actions[0]);
      (if s'.c != s.c then 1 else 0) + ConsumerMoves(s', actions[1..])
  }

  lemma {:induction false} ProducerMovesAreFew(s: State, actions: seq<Action>)
    requires Inv(s)
    ensures ProducerMoves(s, actions) <= ProducerRank(s.p, s.w, s.size)
    decreases |actions|
  {
    RanksAreNatural(s);
    if actions != [] && !s.p.PIdle? {
      var a := actions[0];
      StepKeepsInv(s, a);
      ProducerMovesAreFew(Step(s, a), actions[1..]);
      if Step(s, a).p == s.p { ConsumerKeepsProducerRank(s, a); } else { ProducerMoveLowersRank(s, a); }
    }
  }

  lemma {:induction false} ConsumerMovesAreFew(s: State, actions: seq<Action>)
    requires Inv(s)
    ensures ConsumerMoves(s, actions) <= ConsumerRank(s.c, s.w, s.size)
    decreases |actions|
  {
    RanksAreNatural(s);
    if actions != [] && !s.c.CIdle? {
      var a := actions[0];
      StepKeepsInv(s, a);
      ConsumerMovesAreFew(Step(s, a), actions[1..]);
      if Step(s, a).c == s.c { ProducerKeepsConsumerRank(s, a); } else { ConsumerMoveLowersRank(s, a); }
    }
  }

  /** Wait-freedom in steps: whatever the other thread does, a call makes at
      most a number of moves that the queue's own measures bound. */
  lemma CallsAreBounded(s: State, actions: seq<Action>)
    requires Inv(s)
    ensures s.p.PInCount? ==> ProducerMoves(s, actions) <= ROUND * s.w.depth + s.size + 16
    ensures s.c.COutCount? ==> ConsumerMoves(s, actions) <= ROUND * s.w.depth + s.size + 15
  {
    ProducerMovesAreFew(s, actions);
    ConsumerMovesAreFew(s, actions);
  }

  function FirstUnread(sn: Snapshot): Field
  {
    if sn.depth.None? then Depth else if sn.idxIn.None? then IdxIn else if sn.idxOut.None? then IdxOut else Count
  }

  /** The producer's next move. */
  function ProducerNext(p: Producer): Action
  {
    if p.PSnap? && !Complete(p.sn) then ProducerRead(FirstUnread(p.sn)) else ProducerStep
  }

  /** The producer is in a call that has not been refused and will not be:
      anywhere in it, torn snapshots and lost races included. */
  predicate ProducerUnderway(w: Word, p: Producer)
  {
    !p.PIdle? && w.count < w.depth && (p.PInDepth? ==> p.seen < w.depth)
  }

  lemma ProducerAdvances(q: State)
    requires Inv(q) && InBounds(q) && ProducerUnderway(q.w, q.p)
    ensures var a := ProducerNext(q.p); var q' := Step(q, a);
      if q.p.PCas? && q.p.expected == q.w then Meaning(q, a) == Put(q.p.m)
      else Meaning(q, a).Stutter? && ProducerUnderway(q'.w, q'.p) && q'.p.m == q.p.m
  {
  }

  lemma ProducerComesCloser(q: State)
    requires Inv(q) && InBounds(q) && ProducerUnderway(q.w, q.p)
    ensures var q' := Step(q, ProducerNext(q.p));
      0 <= ProducerRank(q'.p, q'.w, q'.size) < ProducerRank(q.p, q.w, q.size)
  {
    ProducerMoveLowersRank(q, ProducerNext(q.p));
    StepKeepsInv(q, ProducerNext(q.p));
    RanksAreNatural(Step(q, ProducerNext(q.p)));
  }

  function ConsumerNext(c: Consumer): Action
  {
    if c.CSnap? && !Complete(c.sn) then ConsumerRead(FirstUnread(c.sn)) else ConsumerStep
  }

  predicate ConsumerUnderway(w: Word, c: Consumer)
  {
    !c.CIdle? && w.count > 0
  }

  lemma ConsumerAdvances(q: State)
    requires Inv(q) && InBounds(q) && ConsumerUnderway(q.w, q.c)
    ensures var a := ConsumerNext(q.c); var q' := Step(q, a);
      if q.c.CCas? && q.c.expected == q.w then Meaning(q, a) == Take(Receipt(q.c.want, Fitting(Pending(q)[0], q.c.want)))
      else Meaning(q, a).Stutter? && ConsumerUnderway(q'.w, q'.c) && q'.c.want == q.c.want
  {
  }

  lemma ConsumerComesCloser(q: State)
    requires Inv(q) && InBounds(q) && ConsumerUnderway(q.w, q.c)
    ensures var q' := Step(q, ConsumerNext(q.c));
      0 <= ConsumerRank(q'.c, q'.w, q'.size) < ConsumerRank(q.c, q.w, q.size)
  {
    ConsumerMoveLowersRank(q, ConsumerNext(q.c));
    StepKeepsInv(q, ConsumerNext(q.c));
    RanksAreNatural(Step(q, ConsumerNext(q.c)));
  }
}
