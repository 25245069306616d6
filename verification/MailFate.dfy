/** From which states of the mail queue a send or a receive can ever return ok
    again, and how the others are reached. */
module MailFate {
  import opened Wrappers
  import opened QueueProtocol
  import opened MailQueue
  import opened MailTheorems
  import opened MailProgress

  /** Some run from here has a receive, a send, that returns ok; `unaided`
      when it takes no spurious wake-up. */
  ghost predicate ReceivesAgain(s: Mail, unaided: bool)
    requires MailInv(s)
  {
    exists actions :: (unaided ==> Unaided(actions)) && MailRun(s, actions).okReceives > s.okReceives
  }

  ghost predicate SendsAgain(s: Mail, unaided: bool)
    requires MailInv(s)
  {
    exists actions :: (unaided ==> Unaided(actions)) && MailRun(s, actions).okSends > s.okSends
  }

  /** The receiver's wait has timed out and only has to get the mutex back. */
  predicate TimedOut(s: Mail)
  {
    s.receiver.RWoken? && s.receiver.timedOut
  }

  /** Every slot holds a message without a wake-up. */
  predicate Wedged(s: Mail)
  {
    s.coalesced + s.refused == s.q.w.depth
  }

  predicate NoMoreReceives(s: Mail)
  {
    s.abandoned || TimedOut(s) || Wedged(s)
  }

  /** The send under way has its message in the queue. */
  predicate Enqueued(s: Mail)
  {
    s.sender.SLock? || s.sender.SOr? || s.sender.SSignal? || s.sender.SUnlock?
  }

  /** The receive under way will be refused for want of a size. */
  predicate WillBeRefused(s: Mail)
  {
    !s.receiver.RIdle? && !s.receiver.RDequeue? && s.receiver.request.NoSize?
  }

  predicate NoMoreSends(s: Mail)
  {
    s.abandoned
    || (s.q.w.count == s.q.w.depth && !Enqueued(s) && (TimedOut(s) || WillBeRefused(s) || Wedged(s)))
  }

  /** Without a token nobody has a message on its way in or out. */
  lemma WedgedIsIdle(s: Mail)
    requires MailInv(s) && Wedged(s)
    ensures s.q.w.count == s.q.w.depth && !s.val && !Enqueued(s) && s.q.c.CIdle?
    ensures s.sender.SIdle? || s.q.p.PInCount? || (s.q.p.PInDepth? && s.q.p.seen == s.q.w.depth)
    ensures !s.receiver.RDequeue? && !s.receiver.RClear? && !s.receiver.RUnlock?
  {
  }

  lemma WedgedSenderBlocks(s: Mail, a: MailAction)
    requires MailInv(s) && Wedged(s) && InBounds(s.q) && (a.SenderStep? || a.SenderQueue? || a.SendCall?)
    ensures var s' := MailStep(s, a);
      && s'.coalesced == s.coalesced && s'.refused == s.refused && s'.q.w.depth == s.q.w.depth
      && s'.okSends == s.okSends && s'.okReceives == s.okReceives
  {
    WedgedIsIdle(s);
  }

  lemma WedgedStepBlocks(s: Mail, a: MailAction)
    requires MailInv(s) && Wedged(s)
    ensures InBounds(s.q)
    ensures var s' := MailStep(s, a);
      && MailInv(s') && Wedged(s')
      && s'.okSends == s.okSends && s'.okReceives == s.okReceives
  {
    MailStepKeepsInv(s, a);
    WedgedIsIdle(s);
    if a.SenderStep? || a.SenderQueue? || a.SendCall? { WedgedSenderBlocks(s, a); }
  }

  lemma TimedOutStepBlocks(s: Mail, a: MailAction)
    requires MailInv(s) && TimedOut(s)
    ensures InBounds(s.q)
    ensures var s' := MailStep(s, a);
      MailInv(s') && (s'.abandoned || TimedOut(s')) && s'.okReceives == s.okReceives
  {
    MailStepKeepsInv(s, a);
  }

  lemma ReceivesStayLost(s: Mail, a: MailAction)
    requires MailInv(s) && NoMoreReceives(s)
    ensures InBounds(s.q)
    ensures var s' := MailStep(s, a); MailInv(s') && NoMoreReceives(s') && s'.okReceives == s.okReceives
  {
    MailStepKeepsInv(s, a);
    if s.abandoned {
      AbandonedStepBlocks(s, a);
    } else if TimedOut(s) {
      TimedOutStepBlocks(s, a);
    } else {
      WedgedStepBlocks(s, a);
    }
  }

  lemma {:induction false} NoReceiveReturnsOk(s: Mail, actions: seq<MailAction>)
    requires MailInv(s) && NoMoreReceives(s)
    ensures MailRun(s, actions).okReceives == s.okReceives
    decreases |actions|
  {
    if actions != [] {
      ReceivesStayLost(s, actions[0]);
      NoReceiveReturnsOk(MailStep(s, actions[0]), actions[1..]);
    }
  }

  /** A full queue whose sender is not past its enqueue takes nothing in; the
      receiver's timeout or refusal takes nothing out. */
  lemma FullStepBlocks(s: Mail, a: MailAction)
    requires MailInv(s) && !s.abandoned && !Wedged(s) && NoMoreSends(s)
    ensures InBounds(s.q)
    ensures var s' := MailStep(s, a); MailInv(s') && NoMoreSends(s') && s'.okSends == s.okSends
  {
    MailStepKeepsInv(s, a);
    if a.SenderQueue? { QueueStepEffects(s.q, a.sa); }
  }

  lemma SendsStayLost(s: Mail, a: MailAction)
    requires MailInv(s) && NoMoreSends(s)
    ensures InBounds(s.q)
    ensures var s' := MailStep(s, a); MailInv(s') && NoMoreSends(s') && s'.okSends == s.okSends
  {
    MailStepKeepsInv(s, a);
    if s.abandoned {
      AbandonedStepBlocks(s, a);
    } else if Wedged(s) {
      WedgedStepBlocks(s, a);
    } else {
      FullStepBlocks(s, a);
    }
  }

  lemma {:induction false} NoSendReturnsOk(s: Mail, actions: seq<MailAction>)
    requires MailInv(s) && NoMoreSends(s)
    ensures MailRun(s, actions).okSends == s.okSends
    decreases |actions|
  {
    if actions != [] {
      SendsStayLost(s, actions[0]);
      NoSendReturnsOk(MailStep(s, actions[0]), actions[1..]);
    }
  }

  /** What a receiver that lets the mutex go leaves alone. */
  predicate LeftAlone(s: Mail, s': Mail)
  {
    && !s'.abandoned && s'.sender == s.sender && s'.q.p == s.q.p && s'.q.w == s.q.w
    && s'.okSends == s.okSends && s'.okReceives >= s.okReceives
  }

  predicate FallsAsleep(s: Mail, s': Mail)
  {
    && s'.okReceives == s.okReceives && s'.receiver.RAsleep? && !s'.val
    && s'.coalesced == s.coalesced && s'.refused == s.refused
  }

  lemma ReceiverStepsOn(s: Mail)
    requires MailInv(s) && InBounds(s.q) && !s.abandoned && s.mutex.Receiver?
    ensures var s' := StepReceiver(s);
      && LeftAlone(s, s')
      && (s.receiver.RTest? && !s.val ==> FallsAsleep(s, s'))
      && (if s'.mutex.Receiver? then
            (s.receiver.RTest? ==> s.val) && ReceiverRank(s'.receiver) < ReceiverRank(s.receiver)
          else s'.mutex.Free?)
  {
  }

  /** A receiver that holds the mutex, no wait having timed out, lets go. */
  lemma {:induction false} ReceiverLetsGo(s: Mail) returns (actions: seq<MailAction>)
    requires MailInv(s) && !s.abandoned && s.mutex.Receiver?
    ensures Unaided(actions)
    ensures var s' := MailRun(s, actions);
      s'.mutex.Free? && LeftAlone(s, s') && (s.receiver.RTest? && !s.val ==> FallsAsleep(s, s'))
    decreases ReceiverRank(s.receiver)
  {
    MailRunCons(s, ReceiverStep, []);
    ReceiverStepsOn(s);
    var s1 := MailStep(s, ReceiverStep);
    if s1.mutex.Receiver? {
      var rest := ReceiverLetsGo(s1);
      MailRunCons(s, ReceiverStep, rest);
      actions := [ReceiverStep] + rest;
    } else {
      actions := [ReceiverStep];
    }
  }

  /** A new send on a queue with room. */
  lemma SendFromIdle(s: Mail) returns (actions: seq<MailAction>)
    requires MailInv(s) && !s.mutex.Receiver? && s.sender.SIdle? && s.q.w.count < s.q.w.depth
    ensures Unaided(actions)
    ensures var s' := MailRun(s, actions);
      && s'.mutex.Free? && s'.val && s'.receiver == Roused(s.receiver) && s'.abandoned == s.abandoned
      && s'.okSends == s.okSends + 1 && s'.okReceives == s.okReceives
  {
    MailRunCons(s, SendCall([]), []);
    var s1 := MailStep(s, SendCall([]));
    var rest := FinishSend(s1);
    MailRunCons(s, SendCall([]), rest);
    actions := [SendCall([])] + rest;
  }

  /** With room in the queue, or its message already in it, a sender that is
      left alone gets a send through. */
  lemma SendNow(s: Mail) returns (actions: seq<MailAction>)
    requires MailInv(s) && !s.mutex.Receiver? && (s.q.w.count < s.q.w.depth || Enqueued(s))
    ensures Unaided(actions)
    ensures var s' := MailRun(s, actions);
      && s'.mutex.Free? && s'.val && s'.receiver == Roused(s.receiver) && s'.abandoned == s.abandoned
      && s'.okSends == s.okSends + 1 && s'.okReceives == s.okReceives
  {
    if s.sender.SIdle? {
      actions := SendFromIdle(s);
    } else if SenderReady(s) {
      actions := FinishSend(s);
    } else {
      assert s.q.p.PInDepth? && s.q.p.seen == s.q.w.depth;
      MailRunCons(s, SenderQueue(ProducerStep), []);
      var rest := SendFromIdle(MailStep(s, SenderQueue(ProducerStep)));
      MailRunCons(s, SenderQueue(ProducerStep), rest);
      actions := [SenderQueue(ProducerStep)] + rest;
    }
  }

  /** With a wake-up at hand, a receiver that is left alone gets a receive
      through; it takes a message unless the one under way is refused. */
  lemma ReceiveNow(s: Mail) returns (actions: seq<MailAction>)
    requires MailInv(s) && !s.abandoned && !TimedOut(s) && !s.mutex.Sender? && (s.val || ReceiverHolds(s) == 1)
    ensures Unaided(actions)
    ensures var s' := MailRun(s, actions);
      && s'.mutex.Free? && !s'.abandoned && s'.sender == s.sender && s'.okReceives == s.okReceives + 1
      && s'.receiver.RIdle? && s'.q.sent == s.q.sent
      && (!WillBeRefused(s) ==> s'.q.w.count == s.q.w.count - 1)
  {
    if s.receiver.RIdle? {
      var a := ReceiveCall(Into(None));
      MailRunCons(s, a, []);
      var rest := FinishReceive(MailStep(s, a));
      MailRunCons(s, a, rest);
      actions := [a] + rest;
    } else {
      actions := FinishReceive(s);
    }
  }

  lemma ReceiveAgain(s: Mail) returns (actions: seq<MailAction>)
    requires MailInv(s) && !NoMoreReceives(s)
    ensures Unaided(actions)
    ensures MailRun(s, actions).okReceives > s.okReceives
  {
    if !s.mutex.Sender? && (s.val || ReceiverHolds(s) == 1) {
      actions := ReceiveNow(s);
    } else {
      var free := [];
      if s.mutex.Receiver? { free := ReceiverLetsGo(s); }
      var s1 := MailRun(s, free);
      var rest := SignalAndTake(s1);
      RunThen(s, free, rest, MailRun(s1, rest));
      actions := free + rest;
    }
  }

  lemma SignalAndTake(s: Mail) returns (actions: seq<MailAction>)
    requires MailInv(s) && !s.abandoned && !TimedOut(s) && !s.mutex.Receiver?
    requires s.q.w.count < s.q.w.depth || Enqueued(s)
    ensures Unaided(actions)
    ensures MailRun(s, actions).okReceives > s.okReceives
  {
    var signal := SendNow(s);
    var s1 := MailRun(s, signal);
    var take := ReceiveNow(s1);
    RunThen(s, signal, take, MailRun(s1, take));
    actions := signal + take;
  }

  /** A receive can ever return ok again if and only if no wait has timed out
      and some slot is not taken by a message without a wake-up. */
  lemma ReceiveAgainIff(s: Mail, unaided: bool)
    requires MailInv(s)
    ensures ReceivesAgain(s, unaided) <==> !s.abandoned && !TimedOut(s) && !Wedged(s)
  {
    if NoMoreReceives(s) {
      forall actions ensures MailRun(s, actions).okReceives == s.okReceives { NoReceiveReturnsOk(s, actions); }
    } else {
      var actions := ReceiveAgain(s);
    }
  }

  lemma SendAgain(s: Mail) returns (actions: seq<MailAction>)
    requires MailInv(s) && !NoMoreSends(s)
    ensures Unaided(actions)
    ensures MailRun(s, actions).okSends > s.okSends
  {
    var first := [];
    if s.q.w.count < s.q.w.depth || Enqueued(s) {
      if s.mutex.Receiver? { first := ReceiverLetsGo(s); }
    } else {
      first := ReceiveNow(s);
    }
    var s1 := MailRun(s, first);
    var send := SendNow(s1);
    RunThen(s, first, send, MailRun(s1, send));
    actions := first + send;
  }

  /** A send can ever return ok again if and only if the mutex is not lost and
      there is room, or the message of the send under way is in the queue, or
      the receiver can still make room. */
  lemma SendAgainIff(s: Mail, unaided: bool)
    requires MailInv(s)
    ensures SendsAgain(s, unaided) <==>
            !s.abandoned && (s.q.w.count < s.q.w.depth || Enqueued(s)
                             || (!TimedOut(s) && !WillBeRefused(s) && !Wedged(s)))
  {
    if NoMoreSends(s) {
      forall actions ensures MailRun(s, actions).okSends == s.okSends { NoSendReturnsOk(s, actions); }
    } else {
      var actions := SendAgain(s);
    }
  }

  lemma WaitTimesOut(s: Mail) returns (actions: seq<MailAction>)
    requires MailInv(s) && s.receiver.RAsleep? && s.mutex.Free?
    ensures MailRun(s, actions).abandoned
  {
    MailRunCons(s, Timeout, [ReceiverStep]);
    MailRunCons(MailStep(s, Timeout), ReceiverStep, []);
    actions := [Timeout] + [ReceiverStep];
  }

  /** One receive on an empty queue is enough to lose the mutex for ever. */
  lemma TimeoutAbandons(depth: nat, mem: Memory) returns (actions: seq<MailAction>)
    requires Shaped(mem, depth)
    ensures MailInv(InitMail(depth, mem)) && MailRun(InitMail(depth, mem), actions).abandoned
  {
    InitMailInv(depth, mem);
    var s0 := InitMail(depth, mem);
    var sleep := ReceiveSleeps(s0);
    var s1 := MailRun(s0, sleep);
    var timeOut := WaitTimesOut(s1);
    RunThen(s0, sleep, timeOut, MailRun(s1, timeOut));
    actions := sleep + timeOut;
  }

  /** A send followed by a refused receive takes one slot out of use. */
  lemma {:induction false} FillWithRefused(s: Mail) returns (actions: seq<MailAction>)
    requires MailInv(s) && Quiet(s) && !s.val && s.coalesced == 0
    ensures var s' := MailRun(s, actions); Quiet(s') && Wedged(s')
    decreases s.q.w.depth - s.refused
  {
    if Wedged(s) {
      actions := [];
    } else {
      var send := SendAlone(s, []);
      var s1 := MailRun(s, send);
      var refuse := ReceiveAlone(s1, NoSize);
      var s2 := MailRun(s1, refuse);
      var rest := FillWithRefused(s2);
      RunThen(s1, refuse, rest, MailRun(s2, rest));
      RunThen(s, send, refuse + rest, MailRun(s2, rest));
      actions := send + (refuse + rest);
    }
  }

  /** Sends, each followed by a refused receive, wedge the queue with both
      threads idle and the mutex free. */
  lemma RefusedReceivesWedge(depth: nat, mem: Memory) returns (actions: seq<MailAction>)
    requires Shaped(mem, depth)
    ensures MailInv(InitMail(depth, mem))
    ensures var s := MailRun(InitMail(depth, mem), actions);
      Quiet(s) && Wedged(s) && !ReceivesAgain(s, false) && !SendsAgain(s, false)
  {
    InitMailInv(depth, mem);
    actions := FillWithRefused(InitMail(depth, mem));
    var s := MailRun(InitMail(depth, mem), actions);
    WedgedIsIdle(s);
    ReceiveAgainIff(s, false);
    SendAgainIff(s, false);
  }

  /** No wait times out, and every receive with a buffer states its size. */
  predicate Orderly(actions: seq<MailAction>)
  {
    forall i :: 0 <= i < |actions| ==> !actions[i].Timeout? && actions[i] != ReceiveCall(NoSize)
  }

  predicate Alive(s: Mail)
  {
    !s.abandoned && !TimedOut(s) && !WillBeRefused(s) && s.refused == 0
  }

  lemma OrderlyStepKeepsAlive(s: Mail, a: MailAction)
    requires MailInv(s) && InBounds(s.q) && Alive(s) && !a.Timeout? && a != ReceiveCall(NoSize)
    ensures Alive(MailStep(s, a))
  {
  }

  lemma {:induction false} OrderlyRunsStayAlive(s: Mail, actions: seq<MailAction>)
    requires MailInv(s) && Orderly(actions) && Alive(s)
    ensures Alive(MailRun(s, actions))
    decreases |actions|
  {
    if actions != [] {
      MailStepKeepsInv(s, actions[0]);
      OrderlyStepKeepsAlive(s, actions[0]);
      OrderlyRunsStayAlive(MailStep(s, actions[0]), actions[1..]);
    }
  }

  /** In orderly runs the queue never wedges: coalesced signals strand
      messages, but from every state both sends and receives can go on. */
  lemma OrderlyRunsGoOn(depth: nat, mem: Memory, actions: seq<MailAction>)
    requires Shaped(mem, depth) && Orderly(actions)
    ensures MailInv(InitMail(depth, mem))
    ensures var s := MailRun(InitMail(depth, mem), actions); ReceivesAgain(s, true) && SendsAgain(s, true)
  {
    InitMailInv(depth, mem);
    OrderlyRunsStayAlive(InitMail(depth, mem), actions);
    var s := MailRun(InitMail(depth, mem), actions);
    assert TokenInv(s) && Alive(s);
    ReceiveAgainIff(s, true);
    SendAgainIff(s, true);
  }
}
