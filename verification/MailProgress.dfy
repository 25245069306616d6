/** What one thread of the mail queue achieves when it runs alone, and with it
    exactly when receives by themselves can empty the queue. */
module MailProgress {
  import opened Wrappers
  import opened QueueProtocol
  import opened QueueProgress
  import opened QueueSafety
  import opened QueueTheorems
  import opened MailQueue
  import opened MailTheorems

  lemma {:induction false} MailRunAppend(s: Mail, a: seq<MailAction>, b: seq<MailAction>)
    requires MailInv(s)
    ensures MailRun(s, a + b) == MailRun(MailRun(s, a), b)
    decreases |a|
  {
    if a == [] {
      assert a + b == b;
    } else {
      MailStepKeepsInv(s, a[0]);
      assert (a + b)[1..] == a[1..] + b;
      MailRunAppend(MailStep(s, a[0]), a[1..], b);
    }
  }

  lemma MailRunCons(s: Mail, a: MailAction, rest: seq<MailAction>)
    requires MailInv(s)
    ensures InBounds(s.q) && MailInv(MailStep(s, a))
    ensures MailRun(s, [a] + rest) == MailRun(MailStep(s, a), rest)
  {
    MailStepKeepsInv(s, a);
    assert ([a] + rest)[1..] == rest;
  }

  function SenderRank(at: SenderAt): nat
  {
    match at
    case SIdle => 0
    case SEnqueue => 5
    case SLock => 4
    case SOr => 3
    case SSignal => 2
    case SUnlock => 1
  }

  function SenderNext(s: Mail): MailAction
  {
    if s.sender.SEnqueue? then SenderQueue(ProducerNext(s.q.p)) else SenderStep
  }

  /** The send will succeed if the sender is left alone, wherever in it. */
  predicate SenderReady(s: Mail)
  {
    !s.sender.SIdle? && !s.mutex.Receiver? && (s.sender.SEnqueue? ==> ProducerUnderway(s.q.w, s.q.p))
  }

  /** What the queue will have accepted once the current send is through. */
  function Owed(s: Mail): seq<Message>
  {
    if s.sender.SEnqueue? && !s.q.p.PIdle? then s.q.sent + [s.q.p.m] else s.q.sent
  }

  function SendRank(s: Mail): int
  {
    ProducerRank(s.q.p, s.q.w, s.q.size)
  }

  /** Where a signal leaves the receiver: a sleeping one is woken. */
  function Roused(r: ReceiverAt): ReceiverAt
  {
    if r.RAsleep? then RWoken(r.request, false) else r
  }

  /** No wake-up that nobody sent, and no wait that times out. */
  predicate Unaided(actions: seq<MailAction>)
  {
    forall i :: 0 <= i < |actions| ==> !actions[i].SpuriousWake? && !actions[i].Timeout?
  }

  function WillCoalesce(s: Mail): nat
  {
    if s.val && (s.sender.SEnqueue? || s.sender.SLock? || s.sender.SOr?) then 1 else 0
  }

  lemma SenderAdvances(s: Mail)
    requires MailInv(s) && InBounds(s.q) && SenderReady(s)
    ensures var s' := MailStep(s, SenderNext(s));
      && s'.q.delivered == s.q.delivered && s'.abandoned == s.abandoned
      && Roused(s'.receiver) == Roused(s.receiver)
      && s'.okReceives == s.okReceives && s'.refused == s.refused
      && s'.okSends == s.okSends + (if s'.sender.SIdle? then 1 else 0)
      && s'.coalesced + WillCoalesce(s') == s.coalesced + WillCoalesce(s)
      && Owed(s') == Owed(s)
      && (if s'.sender.SIdle? then s'.mutex.Free? && s'.val && !s'.receiver.RAsleep?
          else SenderReady(s') && (SenderRank(s'.sender) < SenderRank(s.sender)
               || (s'.sender == s.sender && 0 <= SendRank(s') < SendRank(s))))
  {
    if s.sender.SEnqueue? {
      ProducerAdvances(s.q);
      ProducerComesCloser(s.q);
      StepRefinesFifo(s.q, ProducerNext(s.q.p));
      QueueStepEffects(s.q, ProducerNext(s.q.p));
    }
  }

  /** A sender left alone finishes its send, and wakes the receiver if it is
      asleep. */
  lemma {:induction false} FinishSend(s: Mail) returns (actions: seq<MailAction>)
    requires MailInv(s) && SenderReady(s)
    ensures Unaided(actions)
    ensures var s' := MailRun(s, actions);
      && s'.sender.SIdle? && s'.mutex.Free? && s'.val
      && s'.okSends == s.okSends + 1
      && s'.q.sent == Owed(s) && s'.q.delivered == s.q.delivered
      && s'.coalesced == s.coalesced + WillCoalesce(s)
      && s'.receiver == (if s.receiver.RAsleep? then RWoken(s.receiver.request, false) else s.receiver)
      && s'.abandoned == s.abandoned
      && s'.okReceives == s.okReceives && s'.refused == s.refused
    decreases SenderRank(s.sender), SendRank(s)
  {
    var a := SenderNext(s);
    MailRunCons(s, a, []);
    SenderAdvances(s);
    var s1 := MailStep(s, a);
    if s1.sender.SIdle? {
      actions := [a];
    } else {
      var rest := FinishSend(s1);
      MailRunCons(s, a, rest);
      actions := [a] + rest;
    }
  }

  function ReceiverRank(at: ReceiverAt): nat
  {
    match at
    case RIdle => 0
    case RAsleep(_) => 0
    case RWoken(_, _) => 6
    case RLock(_) => 6
    case RTest(_) => 5
    case RClear(_) => 4
    case RUnlock(_) => 3
    case RDequeue => 2
  }

  function ReceiverNext(s: Mail): MailAction
  {
    if s.receiver.RDequeue? then ReceiverQueue(ConsumerNext(s.q.c)) else ReceiverStep
  }

  /** The receive will succeed if the receiver is left alone, wherever in it. */
  predicate ReceiverReady(s: Mail)
  {
    && !s.receiver.RIdle? && !s.receiver.RAsleep? && !(s.receiver.RWoken? && s.receiver.timedOut)
    && !s.mutex.Sender? && !s.abandoned
    && (s.val || ReceiverHolds(s) == 1)
    && (s.receiver.RDequeue? ==> ConsumerUnderway(s.q.w, s.q.c))
  }

  function ReceiveRank(s: Mail): int
  {
    ConsumerRank(s.q.c, s.q.w, s.q.size)
  }

  /** The arguments of the receive under way. */
  function Requested(s: Mail): Request
  {
    if s.receiver.RDequeue? then Into(if s.q.c.CIdle? then None else s.q.c.want)
    else if s.receiver.RIdle? then Into(None)
    else s.receiver.request
  }

  /** Whether the event will still be set when the receive is through. */
  predicate SignalLeft(s: Mail)
  {
    s.val && (ReceiverHolds(s) == 1 || s.receiver.RIdle?)
  }

  /** What a receive that returns ok has done: taken the oldest message, or
      left it because the receive was refused. */
  ghost predicate Received(s: Mail, request: Request, s': Mail)
    requires Inv(s.q)
  {
    && s'.okReceives == s.okReceives + 1
    && match request
       case Into(want) =>
         && Pending(s.q) != [] && s'.refused == s.refused
         && s'.q.delivered == s.q.delivered + [Receipt(want, Fitting(Pending(s.q)[0], want))]
       case NoSize =>
         s'.refused == s.refused + 1 && s'.q.delivered == s.q.delivered
  }

  ghost predicate ReceiverCloser(s: Mail, s': Mail)
    requires Inv(s.q)
  {
    && s'.sender == s.sender && s'.coalesced == s.coalesced && s'.q.sent == s.q.sent
    && SignalLeft(s') == SignalLeft(s)
    && (if s'.receiver.RIdle? then
          Received(s, Requested(s), s') && !s'.abandoned && s'.mutex.Free?
        else
          && ReceiverReady(s') && Requested(s') == Requested(s)
          && s'.q.delivered == s.q.delivered && s'.okReceives == s.okReceives && s'.refused == s.refused
          && (ReceiverRank(s'.receiver) < ReceiverRank(s.receiver)
              || (s'.receiver == s.receiver && 0 <= ReceiveRank(s') < ReceiveRank(s))))
  }

  lemma DequeueAdvances(s: Mail)
    requires MailInv(s) && InBounds(s.q) && ReceiverReady(s) && s.receiver.RDequeue?
    ensures ReceiverCloser(s, MailStep(s, ReceiverNext(s)))
  {
    ConsumerAdvances(s.q);
    ConsumerComesCloser(s.q);
    StepRefinesFifo(s.q, ConsumerNext(s.q.c));
    QueueStepEffects(s.q, ConsumerNext(s.q.c));
  }

  lemma ReceiverAdvances(s: Mail)
    requires MailInv(s) && InBounds(s.q) && ReceiverReady(s)
    ensures ReceiverCloser(s, MailStep(s, ReceiverNext(s)))
  {
    if s.receiver.RDequeue? {
      DequeueAdvances(s);
    }
  }

  predicate AllReceiver(actions: seq<MailAction>)
  {
    forall i :: 0 <= i < |actions| ==> ReceiverOnly(actions[i])
  }

  /** A receiver that has been signalled and is left alone returns ok. */
  lemma {:induction false} FinishReceive(s: Mail) returns (actions: seq<MailAction>)
    requires MailInv(s) && ReceiverReady(s)
    ensures AllReceiver(actions) && Unaided(actions)
    ensures var s' := MailRun(s, actions);
      && s'.receiver.RIdle? && s'.mutex.Free? && !s'.abandoned
      && s'.sender == s.sender && s'.coalesced == s.coalesced && s'.q.sent == s.q.sent
      && s'.val == SignalLeft(s)
      && Received(s, Requested(s), s')
    decreases ReceiverRank(s.receiver), ReceiveRank(s)
  {
    var a := ReceiverNext(s);
    MailRunCons(s, a, []);
    ReceiverAdvances(s);
    var s1 := MailStep(s, a);
    if s1.receiver.RIdle? {
      actions := [a];
    } else {
      var rest := FinishReceive(s1);
      MailRunCons(s, a, rest);
      actions := [a] + rest;
    }
  }

  /** A send beside a sleeping receiver wakes it, and the receive it sleeps in
      then returns ok, both left alone: with the oldest message, which is the
      one sent when the queue was empty. */
  lemma SendWakesReceiver(s: Mail) returns (actions: seq<MailAction>)
    requires MailInv(s) && SenderReady(s) && s.receiver.RAsleep?
    ensures Unaided(actions)
    ensures var s' := MailRun(s, actions);
      && s'.receiver.RIdle? && s'.sender.SIdle? && s'.mutex.Free? && !s'.abandoned && !s'.val
      && s'.okSends == s.okSends + 1 && s'.okReceives == s.okReceives + 1
      && s'.q.sent == Owed(s) && |Owed(s)| > |s.q.delivered|
      && s'.q.delivered == s.q.delivered +
           match s.receiver.request
           case Into(want) => [Receipt(want, Fitting(Owed(s)[|s.q.delivered|], want))]
           case NoSize => []
  {
    var send := FinishSend(s);
    var s1 := MailRun(s, send);
    assert s1.q.w.count == |s1.q.sent| - |s1.q.delivered|;
    var receive := FinishReceive(s1);
    MailRunAppend(s, send, receive);
    actions := send + receive;
  }

  /** A spurious wake-up changes nothing: the receiver tests the event under
      the mutex and goes back to sleep. */
  lemma SpuriousWakeSleepsAgain(s: Mail)
    requires MailInv(s) && InBounds(s.q) && s.receiver.RAsleep? && s.mutex.Free? && !s.val
    ensures var woken := MailStep(s, SpuriousWake);
      && woken.receiver == RWoken(s.receiver.request, false)
      && var testing := MailStep(woken, ReceiverStep);
      && testing.receiver == RTest(s.receiver.request)
      && MailStep(testing, ReceiverStep) == s
  {
  }

  /** Nothing under way, and no wait has ever timed out. */
  predicate Quiet(s: Mail)
  {
    s.sender.SIdle? && s.receiver.RIdle? && s.mutex.Free?
  }

  lemma SendAlone(s: Mail, data: seq<bv8>) returns (actions: seq<MailAction>)
    requires MailInv(s) && Quiet(s)
    requires s.q.w.count < s.q.w.depth && |Narrowed(data)| <= s.q.size
    ensures Unaided(actions)
    ensures var s' := MailRun(s, actions);
      && Quiet(s') && s'.val
      && s'.q.sent == s.q.sent + [Narrowed(data)] && s'.q.delivered == s.q.delivered
      && s'.coalesced == s.coalesced + EventStores(s)
      && s'.okSends == s.okSends + 1 && s'.okReceives == s.okReceives && s'.refused == s.refused
  {
    MailRunCons(s, SendCall(data), []);
    var s1 := MailStep(s, SendCall(data));
    var rest := FinishSend(s1);
    MailRunCons(s, SendCall(data), rest);
    actions := [SendCall(data)] + rest;
  }

  lemma ReceiveAlone(s: Mail, request: Request) returns (actions: seq<MailAction>)
    requires MailInv(s) && Quiet(s) && s.val
    ensures AllReceiver(actions) && Unaided(actions)
    ensures var s' := MailRun(s, actions);
      && Quiet(s') && !s'.val
      && s'.q.sent == s.q.sent && s'.coalesced == s.coalesced && s'.okSends == s.okSends
      && Received(s, request, s')
  {
    MailRunCons(s, ReceiveCall(request), []);
    var s1 := MailStep(s, ReceiveCall(request));
    var rest := FinishReceive(s1);
    MailRunCons(s, ReceiveCall(request), rest);
    actions := [ReceiveCall(request)] + rest;
  }

  /** Exactly when the receiver can empty the queue with no further send: when
      no signal was ever merged into a pending one and no receive was refused
      for want of a size. */
  lemma ReceiverCanDrainIff(s: Mail)
    requires MailInv(s) && Quiet(s)
    ensures (exists actions :: AllReceiver(actions) && MailRun(s, actions).q.w.count == 0)
        <==> s.coalesced == 0 && s.refused == 0
  {
    if s.coalesced == 0 && s.refused == 0 {
      if s.val {
        var actions := ReceiveAlone(s, Into(None));
        assert AllReceiver(actions) && MailRun(s, actions).q.w.count == 0;
      } else {
        assert AllReceiver([]) && MailRun(s, []).q.w.count == 0;
      }
    } else {
      forall actions | AllReceiver(actions) ensures MailRun(s, actions).q.w.count > 0 {
        ReceiverAloneGainsNothing(s, actions);
      }
    }
  }

  lemma RunThen(s: Mail, a: seq<MailAction>, b: seq<MailAction>, s': Mail)
    requires MailInv(s) && MailRun(MailRun(s, a), b) == s'
    ensures MailRun(s, a + b) == s'
  {
    MailRunAppend(s, a, b);
  }

  /** A receive that finds no signal goes to sleep, message or not. */
  lemma LockAndSleep(s: Mail)
    requires MailInv(s) && s.mutex.Free? && !s.val && s.receiver.RLock?
    ensures MailRun(s, [ReceiverStep] + [ReceiverStep]) == s.(receiver := RAsleep(s.receiver.request))
  {
    MailRunCons(s, ReceiverStep, [ReceiverStep]);
    MailRunCons(MailStep(s, ReceiverStep), ReceiverStep, []);
  }

  lemma ReceiveSleeps(s: Mail) returns (actions: seq<MailAction>)
    requires MailInv(s) && Quiet(s) && !s.val
    ensures MailRun(s, actions) == s.(receiver := RAsleep(Into(None)))
  {
    MailRunCons(s, ReceiveCall(Into(None)), [ReceiverStep] + [ReceiverStep]);
    LockAndSleep(MailStep(s, ReceiveCall(Into(None))));
    actions := [ReceiveCall(Into(None))] + ([ReceiverStep] + [ReceiverStep]);
  }

  /** The documented promise of a receive, that it waits only until a message
      is available, fails: two sends before the first receive leave one
      message in the queue while the next receive sleeps. */
  lemma ReceiveCanSleepOnMessage(depth: nat, mem: Memory) returns (actions: seq<MailAction>)
    requires Shaped(mem, depth) && depth >= 2
    ensures MailInv(InitMail(depth, mem))
    ensures var s := MailRun(InitMail(depth, mem), actions);
      s.receiver.RAsleep? && s.sender.SIdle? && s.mutex.Free? && !s.val && s.q.w.count == 1
  {
    InitMailInv(depth, mem);
    var s0 := InitMail(depth, mem);
    var first := SendAlone(s0, []);
    var s1 := MailRun(s0, first);
    var second := SendAlone(s1, []);
    var s2 := MailRun(s1, second);
    var third := ReceiveAlone(s2, Into(None));
    var s3 := MailRun(s2, third);
    var last := ReceiveSleeps(s3);
    var s4 := MailRun(s3, last);
    RunThen(s2, third, last, s4);
    RunThen(s1, second, third + last, s4);
    RunThen(s0, first, second + (third + last), s4);
    actions := first + (second + (third + last));
  }
}
