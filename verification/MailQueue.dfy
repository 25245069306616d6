/** The POSIX mail queue: the lock-free message queue plus an event flag under
    a mutex and a condition variable. One sender thread, one receiver thread;
    each lock, flag access, condition call and queue step is a step of its own. */
module MailQueue {
  import opened Wrappers
  import opened QueueProtocol
  import opened QueueSafety
  import opened QueueTheorems

  datatype Holder = Free | Sender | Receiver

  /** ddi_queue_send: inside ddi_message_enqueue, then event_signal. */
  datatype SenderAt = SIdle | SEnqueue | SLock | SOr | SSignal | SUnlock

  /** The arguments of a receive: a buffer of the size its caller states, None
      for no buffer; or a buffer without a size, which ddi_message_dequeue
      refuses while the receive returns ok all the same. */
  datatype Request = Into(want: Option<nat>) | NoSize

  /** ddi_queue_receive: event_wait, then inside ddi_message_dequeue. A thread
      woken in pthread_cond_timedwait still has to get the mutex back. */
  datatype ReceiverAt =
    | RIdle
    | RLock(request: Request)
    | RTest(request: Request)
    | RAsleep(request: Request)
    | RWoken(request: Request, timedOut: bool)
    | RClear(request: Request)
    | RUnlock(request: Request)
    | RDequeue

  /** `val` tells whether the event value is nonzero (only 1 is ever or-ed in).
      History: sends and receives that returned ok, dequeues that found no
      message, signals that found the value already set, receives that returned
      ok although their dequeue was refused for want of a size, and whether a
      timed-out wait has left the mutex locked. */
  datatype Mail = Mail(
    q: State,
    val: bool,
    mutex: Holder,
    sender: SenderAt,
    receiver: ReceiverAt,
    okSends: nat,
    okReceives: nat,
    emptyReceives: nat,
    coalesced: nat,
    refused: nat,
    abandoned: bool)

  datatype MailAction =
    | SendCall(data: seq<bv8>)
    | SenderQueue(sa: Action)
    | SenderStep
    | ReceiveCall(request: Request)
    | ReceiverQueue(ra: Action)
    | ReceiverStep
    | SpuriousWake
    | Timeout

  /** The 32-bit size of a send is narrowed to the 16-bit length of the queue. */
  function Narrowed(data: seq<bv8>): Message
  {
    data[..|data| % 0x1_0000]
  }

  function InitMail(depth: nat, mem: Memory): Mail
  {
    Mail(Init(depth, mem), false, Free, SIdle, RIdle, 0, 0, 0, 0, 0, false)
  }

  function MailStep(s: Mail, a: MailAction): Mail
    requires InBounds(s.q)
  {
    match a
    case SendCall(data) =>
      if s.sender.SIdle? && |Narrowed(data)| <= s.q.size then
        s.(q := Step(s.q, Send(Narrowed(data))), sender := SEnqueue)
      else s
    case SenderQueue(sa) =>
      if s.sender.SEnqueue? && (sa.ProducerStep? || sa.ProducerRead?) then
        s.(q := Step(s.q, sa),
           sender := if Meaning(s.q, sa).Put? then SLock
                     else if Step(s.q, sa).p.PIdle? then SIdle
                     else SEnqueue)
      else s
    case SenderStep => StepSender(s)
    case ReceiveCall(request) => if s.receiver.RIdle? then s.(receiver := RLock(request)) else s
    case ReceiverQueue(ra) =>
      if s.receiver.RDequeue? && (ra.ConsumerStep? || ra.ConsumerRead?) then
        s.(q := Step(s.q, ra),
           receiver := if Step(s.q, ra).c.CIdle? then RIdle else RDequeue,
           okReceives := if Step(s.q, ra).c.CIdle? then s.okReceives + 1 else s.okReceives,
           emptyReceives := if Step(s.q, ra).c.CIdle? && !Meaning(s.q, ra).Take? then s.emptyReceives + 1
                            else s.emptyReceives)
      else s
    case ReceiverStep => StepReceiver(s)
    case SpuriousWake => if s.receiver.RAsleep? then s.(receiver := RWoken(s.receiver.request, false)) else s
    case Timeout => if s.receiver.RAsleep? then s.(receiver := RWoken(s.receiver.request, true)) else s
  }

  function StepSender(s: Mail): Mail
  {
    match s.sender
    case SIdle => s
    case SEnqueue => s
    case SLock => if s.mutex.Free? then s.(mutex := Sender, sender := SOr) else s
    case SOr => s.(val := true, coalesced := if s.val then s.coalesced + 1 else s.coalesced, sender := SSignal)
    case SSignal =>
      s.(receiver := if s.receiver.RAsleep? then RWoken(s.receiver.request, false) else s.receiver, sender := SUnlock)
    case SUnlock => s.(mutex := Free, sender := SIdle, okSends := s.okSends + 1)
  }

  function StepReceiver(s: Mail): Mail
    requires InBounds(s.q)
  {
    match s.receiver
    case RIdle => s
    case RDequeue => s
    case RAsleep(_) => s
    case RLock(request) => if s.mutex.Free? then s.(mutex := Receiver, receiver := RTest(request)) else s
    case RTest(request) =>
      if s.val then s.(receiver := RClear(request)) else s.(mutex := Free, receiver := RAsleep(request))
    case RWoken(request, timedOut) =>
      if !s.mutex.Free? then s
      else if timedOut then s.(mutex := Receiver, receiver := RIdle, abandoned := true)
      else s.(mutex := Receiver, receiver := RTest(request))
    case RClear(request) => s.(val := false, receiver := RUnlock(request))
    case RUnlock(Into(want)) => s.(mutex := Free, q := Step(s.q, Receive(want)), receiver := RDequeue)
    case RUnlock(NoSize) =>
      s.(mutex := Free, receiver := RIdle, okReceives := s.okReceives + 1, refused := s.refused + 1)
  }

  /** Permissions to take one message: owed by a sender that has enqueued but
      not signalled, stored in the event, or held by a woken receiver. */
  function SenderOwes(s: Mail): nat { if s.sender.SLock? || s.sender.SOr? then 1 else 0 }
  function EventStores(s: Mail): nat { if s.val then 1 else 0 }
  function ReceiverHolds(s: Mail): nat { if s.receiver.RUnlock? || s.receiver.RDequeue? then 1 else 0 }
  function Tokens(s: Mail): nat { SenderOwes(s) + EventStores(s) + ReceiverHolds(s) }

  ghost predicate LockInv(s: Mail)
  {
    && (s.mutex.Sender? <==> s.sender.SOr? || s.sender.SSignal? || s.sender.SUnlock?)
    && (s.mutex.Receiver? <==> s.abandoned || s.receiver.RTest? || s.receiver.RClear? || s.receiver.RUnlock?)
    && (s.abandoned ==> s.receiver.RIdle? || s.receiver.RLock?)
    && (s.receiver.RClear? ==> s.val)
    && (s.receiver.RUnlock? ==> !s.val)
    && (s.sender.SSignal? || s.sender.SUnlock? ==> s.val)
    && (s.receiver.RAsleep? && s.val ==> s.sender.SSignal?)
    && (s.sender.SEnqueue? <==> !s.q.p.PIdle?)
    && (s.receiver.RDequeue? <==> !s.q.c.CIdle?)
  }

  /** Conservation: messages in the queue are exactly the tokens, plus one
      message for every signal that was merged into a pending one and for every
      dequeue that was refused. */
  ghost predicate TokenInv(s: Mail)
  {
    && s.q.w.count == Tokens(s) + s.coalesced + s.refused
    && s.coalesced < s.q.w.depth
    && s.emptyReceives == 0
    && s.okReceives == |s.q.delivered| + s.refused
    && s.okSends + (if s.sender.SIdle? || s.sender.SEnqueue? then 0 else 1) == |s.q.sent|
  }

  ghost predicate MailInv(s: Mail)
  {
    Inv(s.q) && LockInv(s) && TokenInv(s)
  }

  /** A consumer with at least one message behind it finishes only by a Take. */
  lemma QueueStepEffects(q: State, a: Action)
    requires Inv(q) && InBounds(q)
    ensures Step(q, a).w.count == q.w.count + (if Meaning(q, a).Put? then 1 else if Meaning(q, a).Take? then -1 else 0)
    ensures |Step(q, a).sent| == |q.sent| + (if Meaning(q, a).Put? then 1 else 0)
    ensures |Step(q, a).delivered| == |q.delivered| + (if Meaning(q, a).Take? then 1 else 0)
    ensures Step(q, a).w.depth == q.w.depth
    ensures a == ConsumerStep && q.w.count > 0 && !q.c.CIdle? ==> (Step(q, a).c.CIdle? <==> Meaning(q, a).Take?)
    ensures a.ConsumerRead? && !q.c.CIdle? ==> !Step(q, a).c.CIdle?
    ensures a == ProducerStep && Meaning(q, a).Put? ==> Step(q, a).p.PIdle?
    ensures a.ProducerStep? || a.ProducerRead? || a.Send? ==> Step(q, a).c == q.c
    ensures a.ConsumerStep? || a.ConsumerRead? || a.Receive? ==> Step(q, a).p == q.p
    ensures a.ProducerRead? && !q.p.PIdle? ==> !Step(q, a).p.PIdle?
  {
    StepRefinesFifo(q, a);
    StepKeepsInv(q, a);
  }
}
