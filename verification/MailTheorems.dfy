/** The promises of the POSIX mail queue, over every run. */
module MailTheorems {
  import opened QueueProtocol
  import opened QueueSafety
  import opened MailQueue

  lemma InitMailInv(depth: nat, mem: Memory)
    requires Shaped(mem, depth)
    ensures MailInv(InitMail(depth, mem))
  {
    InitInv(depth, mem);
  }

  ghost predicate Kept(s: Mail, s': Mail)
  {
    MailInv(s') && s'.q.w.depth == s.q.w.depth && s'.q.size == s.q.size
  }

  lemma SenderQueueKeeps(s: Mail, sa: Action)
    requires MailInv(s) && InBounds(s.q)
    ensures Kept(s, MailStep(s, SenderQueue(sa)))
  {
    StepKeepsInv(s.q, sa);
    QueueStepEffects(s.q, sa);
  }

  lemma ReceiverQueueKeeps(s: Mail, ra: Action)
    requires MailInv(s) && InBounds(s.q)
    ensures Kept(s, MailStep(s, ReceiverQueue(ra)))
  {
    StepKeepsInv(s.q, ra);
    QueueStepEffects(s.q, ra);
  }

  lemma SendCallKeeps(s: Mail, data: seq<bv8>)
    requires MailInv(s) && InBounds(s.q)
    ensures Kept(s, MailStep(s, SendCall(data)))
  {
    StepKeepsInv(s.q, Send(Narrowed(data)));
    QueueStepEffects(s.q, Send(Narrowed(data)));
  }

  lemma StepSenderKeeps(s: Mail)
    requires MailInv(s) && InBounds(s.q)
    ensures Kept(s, StepSender(s))
  {
  }

  lemma UnlockAndDequeueKeeps(s: Mail)
    requires MailInv(s) && InBounds(s.q) && s.receiver.RUnlock?
    ensures Kept(s, StepReceiver(s))
  {
    if s.receiver.request.Into? {
      StepKeepsInv(s.q, Receive(s.receiver.request.want));
      QueueStepEffects(s.q, Receive(s.receiver.request.want));
    }
  }

  lemma StepReceiverKeeps(s: Mail)
    requires MailInv(s) && InBounds(s.q) && !s.receiver.RUnlock?
    ensures Kept(s, StepReceiver(s))
  {
  }

  lemma CallAndWakeKeep(s: Mail, a: MailAction)
    requires MailInv(s) && InBounds(s.q) && (a.ReceiveCall? || a.SpuriousWake? || a.Timeout?)
    ensures Kept(s, MailStep(s, a))
  {
  }

  lemma MailStepKeepsInv(s: Mail, a: MailAction)
    requires MailInv(s)
    ensures InBounds(s.q) && Kept(s, MailStep(s, a))
  {
    InvInBounds(s.q);
    match a
    case SendCall(data) => SendCallKeeps(s, data);
    case SenderQueue(sa) => SenderQueueKeeps(s, sa);
    case ReceiverQueue(ra) => ReceiverQueueKeeps(s, ra);
    case SenderStep => StepSenderKeeps(s);
    case ReceiverStep => if s.receiver.RUnlock? { UnlockAndDequeueKeeps(s); } else { StepReceiverKeeps(s); }
    case _ => CallAndWakeKeep(s, a);
  }

  /** The state after a run of actions from a given state. */
  ghost function MailRun(s: Mail, actions: seq<MailAction>): (s': Mail)
    requires MailInv(s)
    ensures Kept(s, s')
    decreases |actions|
  {
    if actions == [] then s
    else
      MailStepKeepsInv(s, actions[0]);
      MailRun(MailStep(s, actions[0]), actions[1..])
  }

  /** A receive that returns ok has a message in hand: signals coalesce, but
      never into more wake-ups than messages. Receives that returned ok are
      the deliveries and those refused for want of a size, sends that returned
      ok are in the queue or delivered. */
  lemma OkReceiveHasMessage(depth: nat, mem: Memory, actions: seq<MailAction>)
    requires Shaped(mem, depth)
    ensures MailInv(InitMail(depth, mem))
    ensures var s := MailRun(InitMail(depth, mem), actions);
      && s.emptyReceives == 0
      && s.okReceives == |s.q.delivered| + s.refused
      && s.okSends <= |s.q.sent| <= s.okSends + 1
      && ReceiptsGenuine(s.q.sent, s.q.delivered)
      && s.q.w.count >= SenderOwes(s) + EventStores(s) + ReceiverHolds(s)
  {
    InitMailInv(depth, mem);
  }

  /** Exactly one message is left without a wake-up for each coalesced signal
      and each refused receive. Coalesced signals alone are always fewer than
      the slots; together with refused receives they can fill the queue. */
  lemma StrandedMessages(depth: nat, mem: Memory, actions: seq<MailAction>)
    requires Shaped(mem, depth)
    ensures MailInv(InitMail(depth, mem))
    ensures var s := MailRun(InitMail(depth, mem), actions);
      && |s.q.sent| - |s.q.delivered| - Tokens(s) == s.coalesced + s.refused
      && s.coalesced < depth && s.coalesced + s.refused <= depth
  {
    InitMailInv(depth, mem);
  }

  /** No wake-up is lost: in every reachable state a receiver sleeps beside a
      set event only while the signal that wakes it is still to be sent. */
  lemma NoWakeUpIsLost(depth: nat, mem: Memory, actions: seq<MailAction>)
    requires Shaped(mem, depth)
    ensures MailInv(InitMail(depth, mem))
    ensures var s := MailRun(InitMail(depth, mem), actions);
      s.receiver.RAsleep? && s.val ==> s.sender.SSignal?
  {
    InitMailInv(depth, mem);
  }

  /** What is sent is the front of the data, its length cut to 16 bits: a
      message reaches the queue whole exactly when its size fits. */
  lemma NarrowedIsWhole(data: seq<bv8>)
    ensures Narrowed(data) <= data && |Narrowed(data)| == |data| % 0x1_0000
    ensures Narrowed(data) == data <==> |data| < 0x1_0000
  {
    if |data| >= 0x1_0000 {
      assert |Narrowed(data)| < 0x1_0000;
    } else {
      assert data[..|data|] == data;
    }
  }

  predicate ReceiverOnly(a: MailAction)
  {
    a.ReceiveCall? || a.ReceiverQueue? || a.ReceiverStep? || a.SpuriousWake? || a.Timeout?
  }

  lemma ReceiverStepConserves(s: Mail, a: MailAction)
    requires MailInv(s) && ReceiverOnly(a)
    ensures InBounds(s.q)
    ensures var s' := MailStep(s, a);
      && s'.okReceives + EventStores(s') + ReceiverHolds(s') == s.okReceives + EventStores(s) + ReceiverHolds(s)
      && s'.coalesced == s.coalesced && s'.refused >= s.refused
      && s'.sender == s.sender
  {
    MailStepKeepsInv(s, a);
    if a.ReceiverQueue? {
      QueueStepEffects(s.q, a.ra);
    }
  }

  /** Without a new send, receives can only use up the wake-ups there are:
      however often the receiver calls, at least the stranded messages stay. */
  lemma {:induction false} ReceiverAloneGainsNothing(s: Mail, actions: seq<MailAction>)
    requires MailInv(s) && forall i :: 0 <= i < |actions| ==> ReceiverOnly(actions[i])
    ensures var s' := MailRun(s, actions);
      && s'.okReceives + EventStores(s') + ReceiverHolds(s') == s.okReceives + EventStores(s) + ReceiverHolds(s)
      && s'.coalesced == s.coalesced && s'.refused >= s.refused
      && s'.sender == s.sender
      && s'.q.w.count >= s.coalesced + s.refused
    decreases |actions|
  {
    if actions != [] {
      MailStepKeepsInv(s, actions[0]);
      ReceiverStepConserves(s, actions[0]);
      ReceiverAloneGainsNothing(MailStep(s, actions[0]), actions[1..]);
    }
  }

  lemma AbandonedStepBlocks(s: Mail, a: MailAction)
    requires MailInv(s) && s.abandoned
    ensures InBounds(s.q)
    ensures var s' := MailStep(s, a);
      && s'.abandoned && s'.mutex.Receiver?
      && s'.okSends == s.okSends && s'.okReceives == s.okReceives
      && s'.val == s.val
  {
    MailStepKeepsInv(s, a);
  }

  /** A wait that times out keeps the mutex: from then on no send and no
      receive ever returns ok again, whatever either thread does. */
  lemma {:induction false} TimeoutIsForever(s: Mail, actions: seq<MailAction>)
    requires MailInv(s) && s.abandoned
    ensures var s' := MailRun(s, actions);
      s'.abandoned && s'.okSends == s.okSends && s'.okReceives == s.okReceives
    decreases |actions|
  {
    if actions != [] {
      MailStepKeepsInv(s, actions[0]);
      AbandonedStepBlocks(s, actions[0]);
      TimeoutIsForever(MailStep(s, actions[0]), actions[1..]);
    }
  }
}
