/** The lock-free message queue as a step system: one producer inside
    ddi_message_enqueue, one consumer inside ddi_message_dequeue, every
    volatile read, payload byte and compare-exchange a step of its own. */
module QueueProtocol {
  import opened Wrappers
  import opened ControlWord

  type Message = seq<bv8>

  /** Where the producer stands. `failures` counts lost compare-exchanges of
      the current call and `entry` is the count when its loop was entered. */
  datatype Producer =
    | PIdle
    | PInCount(m: Message)
    | PInDepth(m: Message, seen: nat)
    | PInIdx(m: Message)
    | PLen(m: Message, idx: nat)
    | PCopy(m: Message, idx: nat, k: nat)
    | PEnqCount(m: Message, idx: nat)
    | PEnqDepth(m: Message, idx: nat, seen: nat)
    | PSnap(m: Message, idx: nat, sn: Snapshot, entry: nat, failures: nat)
    | PCas(m: Message, idx: nat, expected: Word, desired: Word, entry: nat, failures: nat)
    | PRetry(m: Message, idx: nat, expected: Word, entry: nat, failures: nat)

  /** Where the consumer stands. `want` is the size of the caller's buffer,
      None when it passed no buffer. */
  datatype Consumer =
    | CIdle
    | COutCount(want: Option<nat>)
    | COutIdx(want: Option<nat>)
    | CLen(want: Option<nat>, idx: nat)
    | CCopy(want: Option<nat>, idx: nat, n: nat, got: Message)
    | CDeqCount(want: Option<nat>, idx: nat, got: Message)
    | CSnap(want: Option<nat>, idx: nat, got: Message, sn: Snapshot, entry: nat, failures: nat)
    | CCas(want: Option<nat>, idx: nat, got: Message, expected: Word, desired: Word, entry: nat, failures: nat)
    | CRetry(want: Option<nat>, idx: nat, got: Message, expected: Word, entry: nat, failures: nat)

  datatype Receipt = Receipt(want: Option<nat>, got: Message)

  /** The shared memory, both threads, and the history: every message whose
      enqueue took effect, every receipt of a finished dequeue, and how often
      either loop reported full (empty) after the first test had passed. */
  datatype State = State(
    w: Word,
    size: nat,
    slots: seq<seq<bv8>>,
    lens: seq<nat>,
    p: Producer,
    c: Consumer,
    sent: seq<Message>,
    delivered: seq<Receipt>,
    lateFull: nat,
    lateEmpty: nat)

  datatype Action =
    | Send(m: Message)
    | ProducerStep
    | ProducerRead(pf: Field)
    | Receive(want: Option<nat>)
    | ConsumerStep
    | ConsumerRead(cf: Field)

  function Zeros(n: nat): (z: seq<bv8>)
  {
    seq(n, _ => 0)
  }

  /** The bytes ddi_message_enqueue writes into the slot: the payload, or a
      whole slot of zeros when there is no payload. */
  function Image(m: Message, size: nat): seq<bv8>
  {
    if m == [] then Zeros(size) else m
  }

  /** The part of a message that fits the caller's buffer. */
  function Fitting(m: Message, want: Option<nat>): Message
  {
    if want.None? then [] else if want.value <= |m| then m[..want.value] else m
  }

  function Min(a: nat, b: nat): nat { if a < b then a else b }

  /** The caller's memory, with whatever was in it: the slots, each of `size`
      bytes, and the lengths. */
  datatype Memory = Memory(size: nat, slots: seq<seq<bv8>>, lens: seq<nat>)

  predicate Shaped(mem: Memory, depth: nat)
  {
    && 1 <= depth <= 255
    && |mem.slots| == |mem.lens| == depth
    && forall i :: 0 <= i < depth ==> |mem.slots[i]| == mem.size
  }

  function Init(depth: nat, mem: Memory): State
  {
    State(InitialWord(depth), mem.size, mem.slots, mem.lens, PIdle, CIdle, [], [], 0, 0)
  }

  /** Indices in the threads' hands address existing slots. */
  predicate InBounds(s: State)
  {
    && s.w.depth > 0
    && |s.slots| == |s.lens| == s.w.depth
    && (forall i :: 0 <= i < |s.slots| ==> |s.slots[i]| == s.size)
    && (s.p.PLen? ==> s.p.idx < s.w.depth && |s.p.m| <= s.size)
    && (s.p.PCopy? ==> s.p.idx < s.w.depth && |s.p.m| <= s.size)
    && (s.c.CLen? ==> s.c.idx < s.w.depth)
    && (s.c.CCopy? ==> s.c.idx < s.w.depth && s.c.n <= s.size)
  }

  function Step(s: State, a: Action): State
    requires InBounds(s)
  {
    match a
    case Send(m) => if s.p.PIdle? && |m| <= s.size then s.(p := PInCount(m)) else s
    case ProducerStep => StepProducer(s)
    case ProducerRead(f) => if s.p.PSnap? then s.(p := s.p.(sn := ReadField(s.p.sn, f, s.w))) else s
    case Receive(want) => if s.c.CIdle? then s.(c := COutCount(want)) else s
    case ConsumerStep => StepConsumer(s)
    case ConsumerRead(f) => if s.c.CSnap? then s.(c := s.c.(sn := ReadField(s.c.sn, f, s.w))) else s
  }

  function StepProducer(s: State): State
    requires InBounds(s)
  {
    match s.p
    case PIdle => s
    case PInCount(m) => s.(p := PInDepth(m, s.w.count))
    case PInDepth(m, seen) => s.(p := if seen == s.w.depth then PIdle else PInIdx(m))
    case PInIdx(m) => s.(p := PLen(m, s.w.idxIn))
    case PLen(m, idx) => s.(lens := s.lens[idx := |m|], p := PCopy(m, idx, 0))
    case PCopy(m, idx, k) =>
      if k < |Image(m, s.size)| then
        s.(slots := s.slots[idx := s.slots[idx][k := Image(m, s.size)[k]]], p := PCopy(m, idx, k + 1))
      else
        s.(p := PEnqCount(m, idx))
    case PEnqCount(m, idx) => s.(p := PEnqDepth(m, idx, s.w.count))
    case PEnqDepth(m, idx, seen) =>
      if seen == s.w.depth then s.(p := PIdle, lateFull := s.lateFull + 1)
      else s.(p := PSnap(m, idx, NOTHING_READ, s.w.count, 0))
    case PSnap(m, idx, sn, entry, failures) =>
      if Complete(sn) then s.(p := PCas(m, idx, WordOf(sn), EnqueueDesired(WordOf(sn), s.w.depth), entry, failures))
      else s
    case PCas(m, idx, expected, desired, entry, failures) =>
      if s.w == expected then s.(w := desired, p := PIdle, sent := s.sent + [m])
      else s.(p := PRetry(m, idx, s.w, entry, failures + 1))
    case PRetry(m, idx, expected, entry, failures) =>
      if expected.count == s.w.depth then s.(p := PIdle, lateFull := s.lateFull + 1)
      else s.(p := PSnap(m, idx, NOTHING_READ, entry, failures))
  }

  function StepConsumer(s: State): State
    requires InBounds(s)
  {
    match s.c
    case CIdle => s
    case COutCount(want) => s.(c := if s.w.count == 0 then CIdle else COutIdx(want))
    case COutIdx(want) => s.(c := CLen(want, s.w.idxOut))
    case CLen(want, idx) =>
      s.(c := if want.None? then CDeqCount(want, idx, [])
              else CCopy(want, idx, Min(want.value, s.lens[idx]), []))
    case CCopy(want, idx, n, got) =>
      s.(c := if |got| < n then CCopy(want, idx, n, got + [s.slots[idx][|got|]])
              else CDeqCount(want, idx, got))
    case CDeqCount(want, idx, got) =>
      if s.w.count == 0 then s.(c := CIdle, lateEmpty := s.lateEmpty + 1)
      else s.(c := CSnap(want, idx, got, NOTHING_READ, s.w.count, 0))
    case CSnap(want, idx, got, sn, entry, failures) =>
      if Complete(sn) then s.(c := CCas(want, idx, got, WordOf(sn), DequeueDesired(WordOf(sn), s.w.depth), entry, failures))
      else s
    case CCas(want, idx, got, expected, desired, entry, failures) =>
      if s.w == expected then s.(w := desired, c := CIdle, delivered := s.delivered + [Receipt(want, got)])
      else s.(c := CRetry(want, idx, got, s.w, entry, failures + 1))
    case CRetry(want, idx, got, expected, entry, failures) =>
      if expected.count == 0 then s.(c := CIdle, lateEmpty := s.lateEmpty + 1)
      else s.(c := CSnap(want, idx, got, NOTHING_READ, entry, failures))
  }
}
