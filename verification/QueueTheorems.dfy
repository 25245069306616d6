/** The promises of the message queue, over every run. */
module QueueTheorems {
  import opened Wrappers
  import opened ControlWord
  import opened QueueProtocol
  import opened QueueSafety

  /** The queue a caller has in mind: it holds at most `depth` messages, takes
      one at the back, gives one at the front, and refuses when it is full or
      empty. */
  datatype FifoStep = Stutter | Put(m: Message) | Take(receipt: Receipt) | RefuseFull | RefuseEmpty

  predicate FifoAllows(depth: nat, queue: seq<Message>, step: FifoStep, queue': seq<Message>)
  {
    match step
    case Stutter => queue' == queue
    case Put(m) => |queue| < depth && queue' == queue + [m]
    case Take(r) => |queue| > 0 && queue' == queue[1..] && r.got == Fitting(queue[0], r.want)
    case RefuseFull => |queue| == depth && queue' == queue
    case RefuseEmpty => queue == [] && queue' == queue
  }

  /** What one action of either thread means to the caller. A call is refused
      at the read that finds the queue full, or empty. */
  function Meaning(s: State, a: Action): FifoStep
  {
    if a == ProducerStep && s.p.PCas? && s.w == s.p.expected then Put(s.p.m)
    else if a == ConsumerStep && s.c.CCas? && s.w == s.c.expected then Take(Receipt(s.c.want, s.c.got))
    else if a == ProducerStep && s.p.PInCount? && s.w.count == s.w.depth then RefuseFull
    else if a == ConsumerStep && s.c.COutCount? && s.w.count == 0 then RefuseEmpty
    else Stutter
  }

  lemma QuietStepsKeepHistory(s: State, a: Action)
    requires InBounds(s) && !Meaning(s, a).Put? && !Meaning(s, a).Take?
    ensures Step(s, a).sent == s.sent && Step(s, a).delivered == s.delivered
  {
  }

  /** Refinement: every action is a step of the bounded FIFO, and the history
      of the queue records exactly the Puts and the Takes. */
  lemma StepRefinesFifo(s: State, a: Action)
    requires Inv(s)
    ensures InBounds(s) && Inv(Step(s, a))
    ensures FifoAllows(s.w.depth, Pending(s), Meaning(s, a), Pending(Step(s, a)))
    ensures Step(s, a).sent == if Meaning(s, a).Put? then s.sent + [Meaning(s, a).m] else s.sent
    ensures Step(s, a).delivered ==
            if Meaning(s, a).Take? then s.delivered + [Meaning(s, a).receipt] else s.delivered
  {
    StepKeepsInv(s, a);
    match Meaning(s, a)
    case Put(_) => EnqueueTakesEffect(s);
    case Take(_) => DequeueTakesEffect(s);
    case _ => QuietStepsKeepHistory(s, a);
  }

  /** A send that returns has put its message, or it is on its way out since
      the read that refused it. */
  lemma SendsEndAsMeant(s: State, a: Action)
    requires Inv(s) && InBounds(s) && !s.p.PIdle?
    ensures Step(s, a).p.PIdle? ==> Meaning(s, a) == Put(s.p.m) || (s.p.PInDepth? && s.p.seen == s.w.depth)
    ensures Meaning(s, a).RefuseFull? <==> !s.p.PInDepth? && Step(s, a).p == PInDepth(s.p.m, s.w.depth)
  {
  }

  /** A receive that returns has taken a message or was refused just now. */
  lemma ReceivesEndAsMeant(s: State, a: Action)
    requires Inv(s) && InBounds(s) && !s.c.CIdle?
    ensures Step(s, a).c.CIdle? <==> Meaning(s, a).Take? || Meaning(s, a).RefuseEmpty?
  {
  }

  /** The word as either thread installs it is the true successor, whatever
      was torn while it was read. */
  lemma InstalledWordIsSuccessor(s: State)
    requires Inv(s) && InBounds(s)
    ensures s.p.PCas? && s.w == s.p.expected ==>
      StepProducer(s).w == s.w.(idxIn := (s.w.idxIn + 1) % s.w.depth, count := s.w.count + 1)
    ensures s.c.CCas? && s.w == s.c.expected ==>
      StepConsumer(s).w == s.w.(idxOut := (s.w.idxOut + 1) % s.w.depth, count := s.w.count - 1)
  {
    if s.p.PCas? && s.w == s.p.expected {
      EnqueueTakesEffect(s);
      ModIsWrap(s.w.idxIn + 1, s.w.depth);
    }
    if s.c.CCas? && s.w == s.c.expected {
      DequeueTakesEffect(s);
      ModIsWrap(s.w.idxOut + 1, s.w.depth);
    }
  }

  /** What a caller gets of a message: nothing without a buffer, the whole
      message in a buffer that is large enough, otherwise its first bytes, as
      many as the buffer holds. */
  lemma FittingIsPrefix(m: Message, want: Option<nat>)
    ensures want.None? ==> Fitting(m, want) == []
    ensures want.Some? ==> Fitting(m, want) == m[..if want.value < |m| then want.value else |m|]
  {
    assert m[..|m|] == m;
  }

  /** In every reachable state: the k-th receipt is the k-th message sent, cut
      only to the caller's buffer; the count is what was sent and not yet
      delivered; the ring relation holds. */
  lemma DeliveredInOrder(depth: nat, mem: Memory, actions: seq<Action>)
    requires Shaped(mem, depth)
    ensures var s := Run(depth, mem, actions);
      && s.w.count == |s.sent| - |s.delivered| <= depth
      && Consistent(s.w)
    ensures var s := Run(depth, mem, actions);
      forall k :: 0 <= k < |s.delivered| ==>
        var m, r := s.sent[k], s.delivered[k];
        r.got == if r.want.None? then [] else m[..if r.want.value < |m| then r.want.value else |m|]
  {
    var s := Run(depth, mem, actions);
    forall k | 0 <= k < |s.delivered| ensures s.delivered[k].got == Fitting(s.sent[k], s.delivered[k].want) {}
    forall k | 0 <= k < |s.delivered|
      ensures var m, r := s.sent[k], s.delivered[k];
        r.got == if r.want.None? then [] else m[..if r.want.value < |m| then r.want.value else |m|]
    {
      FittingIsPrefix(s.sent[k], s.delivered[k].want);
    }
  }

  /** The i-th message still queued lies i slots after idx_out, with its length
      beside it; the slot of an empty one is all zeros. */
  lemma QueuedInSlots(s: State, i: nat)
    requires Inv(s) && i < s.w.count
    ensures var m, pos := s.sent[|s.delivered| + i], (s.w.idxOut + i) % s.w.depth;
      && pos < |s.slots| == |s.lens| && s.lens[pos] == |m| <= s.size == |s.slots[pos]|
      && s.slots[pos][..|m|] == m
      && (m == [] ==> forall k :: 0 <= k < s.size ==> s.slots[pos][k] == 0)
  {
    assert StoredAt(s.w, s.slots, s.lens, Pending(s)[i], i);
    ModIsWrap(s.w.idxOut + i, s.w.depth);
  }

  /** Receivers whose buffers are large enough have seen a prefix of the
      messages sent, every one whole. */
  lemma WholeMessagesArePrefix(depth: nat, mem: Memory, actions: seq<Action>)
    requires Shaped(mem, depth)
    ensures var s := Run(depth, mem, actions);
      (forall i :: 0 <= i < |s.delivered| ==> s.delivered[i].want.Some? && s.delivered[i].want.value >= mem.size)
      ==> Payloads(s.delivered) <= s.sent
  {
    var s := Run(depth, mem, actions);
    MessagesFit(depth, mem, actions);
    if forall i :: 0 <= i < |s.delivered| ==> s.delivered[i].want.Some? && s.delivered[i].want.value >= mem.size {
      forall i | 0 <= i < |s.delivered| ensures Payloads(s.delivered)[i] == s.sent[i] {
        assert s.delivered[i].got == Fitting(s.sent[i], s.delivered[i].want);
      }
    }
  }

  function Payloads(receipts: seq<Receipt>): seq<Message>
  {
    seq(|receipts|, i requires 0 <= i < |receipts| => receipts[i].got)
  }

  ghost predicate AllFit(sent: seq<Message>, size: nat)
  {
    forall i :: 0 <= i < |sent| ==> |sent[i]| <= size
  }

  lemma {:induction false} MessagesFit(depth: nat, mem: Memory, actions: seq<Action>)
    requires Shaped(mem, depth)
    ensures AllFit(Run(depth, mem, actions).sent, mem.size)
  {
    if actions != [] {
      var s := Run(depth, mem, actions[..|actions| - 1]);
      var a := actions[|actions| - 1];
      MessagesFit(depth, mem, actions[..|actions| - 1]);
      StepRefinesFifo(s, a);
      if Meaning(s, a).Put? {
        assert |s.p.m| <= mem.size;
      }
    }
  }

  /** While both threads have a slot in hand, it is not the same slot, so a
      payload is never read while it is being written. */
  lemma SlotsNeverShared(depth: nat, mem: Memory, actions: seq<Action>)
    requires Shaped(mem, depth)
    ensures var s := Run(depth, mem, actions);
      ProducerHoldsSlot(s.p) && ConsumerHoldsSlot(s.c) ==> s.p.idx != s.c.idx
  {
  }

  /** A send is turned away only when it reads a full queue, a receive only
      when it reads an empty one; once past that test neither is ever turned
      away by the compare-exchange loop. */
  lemma RefusalsAreHonest(depth: nat, mem: Memory, actions: seq<Action>)
    requires Shaped(mem, depth)
    ensures var s := Run(depth, mem, actions);
      && s.lateFull == 0 && s.lateEmpty == 0
      && (s.p.PInCount? ==> (StepProducer(s).p.seen == s.w.depth <==> |Pending(s)| == depth))
      && (s.c.COutCount? ==> (StepConsumer(s).c.CIdle? <==> |Pending(s)| == 0))
  {
    InvInBounds(Run(depth, mem, actions));
  }

  /** Wait-freedom: the producer loses at most as many compare-exchanges as
      there were messages when it entered the loop, the consumer at most as
      many as there were free slots. */
  lemma LoopsAreBounded(depth: nat, mem: Memory, actions: seq<Action>)
    requires Shaped(mem, depth)
    ensures var s := Run(depth, mem, actions);
      && (s.p.PSnap? || s.p.PCas? || s.p.PRetry? ==> s.p.failures <= s.p.entry <= depth)
      && (s.c.CSnap? || s.c.CCas? || s.c.CRetry? ==> s.c.failures <= depth - s.c.entry)
  {
  }
}
