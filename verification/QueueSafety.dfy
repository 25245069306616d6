/** What every step of the message queue keeps, over every interleaving of
    one producer and one consumer. */
module QueueSafety {
  import opened Wrappers
  import opened ControlWord
  import opened QueueProtocol

  /** The slot stores the message: its length and its image. */
  predicate Holds(slot: seq<bv8>, len: nat, m: Message)
  {
    && len == |m| <= |slot|
    && (m != [] ==> slot[..|m|] == m)
    && (m == [] ==> slot == Zeros(|slot|))
  }

  /** Messages sent and not yet delivered, oldest first. */
  function Pending(s: State): seq<Message>
    requires |s.delivered| <= |s.sent|
  {
    s.sent[|s.delivered|..]
  }

  ghost predicate StoredAt(w: Word, slots: seq<seq<bv8>>, lens: seq<nat>, m: Message, i: nat)
    requires i < w.count && Consistent(w) && |slots| == |lens| == w.depth
  {
    var pos := Wrap(w.idxOut + i, w.depth);
    Holds(slots[pos], lens[pos], m)
  }

  /** The i-th message still in the queue lies i slots after idx_out. */
  ghost predicate PendingStored(w: Word, slots: seq<seq<bv8>>, lens: seq<nat>, pending: seq<Message>)
    requires Consistent(w) && |slots| == |lens| == w.depth && |pending| == w.count
  {
    forall i :: 0 <= i < w.count ==> StoredAt(w, slots, lens, pending[i], i)
  }

  ghost predicate ReceiptsGenuine(sent: seq<Message>, delivered: seq<Receipt>)
  {
    && |delivered| <= |sent|
    && forall i :: 0 <= i < |delivered| ==> delivered[i].got == Fitting(sent[i], delivered[i].want)
  }

  ghost predicate MemoryInv(w: Word, size: nat, slots: seq<seq<bv8>>, lens: seq<nat>, pending: seq<Message>)
  {
    && Consistent(w)
    && |slots| == |lens| == w.depth
    && (forall i :: 0 <= i < |slots| ==> |slots[i]| == size)
    && |pending| == w.count
    && PendingStored(w, slots, lens, pending)
  }

  predicate ProducerHoldsSlot(p: Producer)
  {
    !p.PIdle? && !p.PInCount? && !p.PInDepth? && !p.PInIdx?
  }

  predicate ConsumerHoldsSlot(c: Consumer)
  {
    !c.CIdle? && !c.COutCount? && !c.COutIdx?
  }

  /** The producer's snapshot: its own fields are exact, the count can only
      have dropped since, and each lost race is paid for by a dequeue. */
  ghost predicate ProducerView(w: Word, sn: Snapshot, entry: nat, failures: nat)
  {
    && (sn.depth.Some? ==> sn.depth.value == w.depth)
    && (sn.idxIn.Some? ==> sn.idxIn.value == w.idxIn)
    && (sn.count.Some? ==> w.count <= sn.count.value < w.depth)
    && failures + (if Torn(sn, w) then 1 else 0) + w.count <= entry <= w.depth
  }

  ghost predicate ConsumerView(w: Word, sn: Snapshot, entry: nat, failures: nat)
  {
    && (sn.depth.Some? ==> sn.depth.value == w.depth)
    && (sn.idxOut.Some? ==> sn.idxOut.value == w.idxOut)
    && (sn.count.Some? ==> 0 < sn.count.value <= w.count)
    && failures + (if Torn(sn, w) then 1 else 0) + entry <= w.count
  }

  function SnapshotOf(w: Word): Snapshot
  {
    Snapshot(Some(w.depth), Some(w.idxIn), Some(w.idxOut), Some(w.count))
  }

  ghost predicate ProducerInv(w: Word, size: nat, slots: seq<seq<bv8>>, lens: seq<nat>, p: Producer)
    requires |slots| == |lens| == w.depth
  {
    && (!p.PIdle? ==> |p.m| <= size)
    && (p.PInDepth? ==> w.count <= p.seen <= w.depth)
    && (p.PInIdx? ==> w.count < w.depth)
    && (ProducerHoldsSlot(p) ==> w.count < w.depth && p.idx == w.idxIn < w.depth)
    && (p.PCopy? ==>
          && p.k <= |Image(p.m, size)| <= |slots[p.idx]|
          && lens[p.idx] == |p.m|
          && slots[p.idx][..p.k] == Image(p.m, size)[..p.k])
    && (ProducerHoldsSlot(p) && !p.PLen? && !p.PCopy? ==> Holds(slots[p.idx], lens[p.idx], p.m))
    && (p.PEnqDepth? ==> w.count <= p.seen < w.depth)
    && (p.PSnap? ==> ProducerView(w, p.sn, p.entry, p.failures))
    && (p.PCas? ==>
          && ProducerView(w, SnapshotOf(p.expected), p.entry, p.failures)
          && p.desired == EnqueueDesired(p.expected, w.depth))
    && (p.PRetry? ==> p.expected.count < w.depth && p.failures + w.count <= p.entry <= w.depth)
  }

  ghost predicate ConsumerInv(w: Word, pending: seq<Message>, c: Consumer)
    requires w.depth > 0
  {
    && (c.COutIdx? ==> w.count > 0)
    && (ConsumerHoldsSlot(c) ==> w.count > 0 && pending != [] && c.idx == w.idxOut)
    && (c.CCopy? ==>
          && c.want.Some?
          && c.n == Min(c.want.value, |pending[0]|)
          && |c.got| <= c.n
          && c.got == pending[0][..|c.got|])
    && (ConsumerHoldsSlot(c) && !c.CLen? && !c.CCopy? ==> c.got == Fitting(pending[0], c.want))
    && (c.CSnap? ==> ConsumerView(w, c.sn, c.entry, c.failures))
    && (c.CCas? ==>
          && ConsumerView(w, SnapshotOf(c.expected), c.entry, c.failures)
          && c.desired == DequeueDesired(c.expected, w.depth))
    && (c.CRetry? ==> c.expected.count > 0 && c.failures + c.entry <= w.count)
  }

  ghost predicate Inv(s: State)
  {
    && ReceiptsGenuine(s.sent, s.delivered)
    && MemoryInv(s.w, s.size, s.slots, s.lens, Pending(s))
    && ProducerInv(s.w, s.size, s.slots, s.lens, s.p)
    && ConsumerInv(s.w, Pending(s), s.c)
    && s.lateFull == 0 && s.lateEmpty == 0
  }

  lemma InvInBounds(s: State)
    requires Inv(s)
    ensures InBounds(s)
  {
    if s.c.CCopy? {
      assert StoredAt(s.w, s.slots, s.lens, Pending(s)[0], 0);
    }
  }

  lemma InitInv(depth: nat, mem: Memory)
    requires Shaped(mem, depth)
    ensures Inv(Init(depth, mem))
  {
  }

  /** Writes to the free slot, which is none of the pending ones, leave every
      pending message alone. */
  lemma FillingKeepsPending(w: Word, slots: seq<seq<bv8>>, lens: seq<nat>, pending: seq<Message>,
                            slots': seq<seq<bv8>>, lens': seq<nat>)
    requires Consistent(w) && |slots| == |lens| == |slots'| == |lens'| == w.depth && |pending| == w.count
    requires w.count < w.depth && PendingStored(w, slots, lens, pending)
    requires forall j :: 0 <= j < w.depth && j != w.idxIn ==> slots'[j] == slots[j] && lens'[j] == lens[j]
    ensures PendingStored(w, slots', lens', pending)
  {
    forall i | 0 <= i < w.count
      ensures StoredAt(w, slots', lens', pending[i], i)
    {
      assert StoredAt(w, slots, lens, pending[i], i);
      assert Wrap(w.idxOut + i, w.depth) != w.idxIn;
    }
  }

  lemma CopyStep(s: State)
    requires Inv(s) && s.p.PCopy? && InBounds(s)
    ensures Inv(StepProducer(s))
  {
    var s' := StepProducer(s);
    FillingKeepsPending(s.w, s.slots, s.lens, Pending(s), s'.slots, s'.lens);
    var m, idx, k := s.p.m, s.p.idx, s.p.k;
    if k < |Image(m, s.size)| {
      assert s'.slots[idx][..k] == s.slots[idx][..k];
      assert s'.slots[idx][..k + 1] == s.slots[idx][..k] + [Image(m, s.size)[k]];
      assert Image(m, s.size)[..k + 1] == Image(m, s.size)[..k] + [Image(m, s.size)[k]];
    } else {
      assert Image(m, s.size)[..k] == Image(m, s.size);
      assert m == [] ==> s.slots[idx][..k] == s.slots[idx];
    }
  }

  lemma LenStep(s: State)
    requires Inv(s) && s.p.PLen? && InBounds(s)
    ensures Inv(StepProducer(s))
  {
    var s' := StepProducer(s);
    FillingKeepsPending(s.w, s.slots, s.lens, Pending(s), s'.slots, s'.lens);
  }

  /** The pending messages after one more has been published in the free slot. */
  lemma PublishKeepsPending(w: Word, slots: seq<seq<bv8>>, lens: seq<nat>, pending: seq<Message>, m: Message)
    requires Consistent(w) && |slots| == |lens| == w.depth && |pending| == w.count < w.depth
    requires PendingStored(w, slots, lens, pending)
    requires Holds(slots[w.idxIn], lens[w.idxIn], m)
    ensures var w' := w.(idxIn := Wrap(w.idxIn + 1, w.depth), count := w.count + 1);
      Consistent(w') && PendingStored(w', slots, lens, pending + [m])
  {
    var w' := w.(idxIn := Wrap(w.idxIn + 1, w.depth), count := w.count + 1);
    forall i | 0 <= i < w'.count
      ensures StoredAt(w', slots, lens, (pending + [m])[i], i)
    {
      if i < w.count {
        assert StoredAt(w, slots, lens, pending[i], i);
      }
    }
  }

  lemma RetireKeepsPending(w: Word, slots: seq<seq<bv8>>, lens: seq<nat>, pending: seq<Message>)
    requires Consistent(w) && |slots| == |lens| == w.depth && |pending| == w.count > 0
    requires PendingStored(w, slots, lens, pending)
    ensures var w' := w.(idxOut := Wrap(w.idxOut + 1, w.depth), count := w.count - 1);
      Consistent(w') && PendingStored(w', slots, lens, pending[1..])
  {
    var w' := w.(idxOut := Wrap(w.idxOut + 1, w.depth), count := w.count - 1);
    forall i | 0 <= i < w'.count
      ensures StoredAt(w', slots, lens, pending[1..][i], i)
    {
      assert StoredAt(w, slots, lens, pending[i + 1], i + 1);
    }
  }

  /** Interference: an enqueue leaves the consumer's assertions standing. */
  lemma EnqueueKeepsConsumer(w: Word, w': Word, pending: seq<Message>, m: Message, c: Consumer)
    requires w.depth > 0 && ConsumerInv(w, pending, c)
    requires w' == w.(idxIn := w'.idxIn, count := w.count + 1)
    ensures ConsumerInv(w', pending + [m], c)
  {
    if pending != [] {
      assert (pending + [m])[0] == pending[0];
    }
  }

  /** Interference: a dequeue leaves the producer's assertions standing. */
  lemma DequeueKeepsProducer(w: Word, w': Word, size: nat, slots: seq<seq<bv8>>, lens: seq<nat>, p: Producer)
    requires |slots| == |lens| == w.depth && ProducerInv(w, size, slots, lens, p)
    requires w.count > 0 && w' == w.(idxOut := w'.idxOut, count := w.count - 1)
    ensures ProducerInv(w', size, slots, lens, p)
  {
  }

  /** The installed word is the successor, and the message is the newest. */
  lemma EnqueueAppends(s: State)
    requires Inv(s) && s.p.PCas? && s.w == s.p.expected && InBounds(s)
    ensures var s' := StepProducer(s);
      && s' == s.(w := s'.w, p := PIdle, sent := s.sent + [s.p.m])
      && s'.w == s.w.(idxIn := Wrap(s.w.idxIn + 1, s.w.depth), count := s.w.count + 1)
      && ReceiptsGenuine(s'.sent, s'.delivered)
      && Pending(s') == Pending(s) + [s.p.m]
  {
    EnqueueIsSuccessor(s.w);
  }

  /** A successful producer compare-exchange appends exactly its message. */
  lemma EnqueueTakesEffect(s: State)
    requires Inv(s) && s.p.PCas? && s.w == s.p.expected && InBounds(s)
    ensures var s' := StepProducer(s);
      && Inv(s')
      && s'.w == s.w.(idxIn := Wrap(s.w.idxIn + 1, s.w.depth), count := s.w.count + 1)
      && Pending(s') == Pending(s) + [s.p.m]
  {
    var s' := StepProducer(s);
    EnqueueAppends(s);
    PublishKeepsPending(s.w, s.slots, s.lens, Pending(s), s.p.m);
    EnqueueKeepsConsumer(s.w, s'.w, Pending(s), s.p.m, s.c);
  }

  /** The tests and the look at idx_in before the payload is copied, and the
      test at the head of ddi_enqueue. */
  lemma ProducerTestStep(s: State)
    requires Inv(s) && InBounds(s)
    requires s.p.PIdle? || s.p.PInCount? || s.p.PInDepth? || s.p.PInIdx? || s.p.PEnqCount? || s.p.PEnqDepth?
    ensures Inv(StepProducer(s))
  {
  }

  /** The loop of ddi_enqueue, except for the exchange that succeeds. */
  lemma ProducerLoopStep(s: State)
    requires Inv(s) && InBounds(s)
    requires s.p.PSnap? || (s.p.PCas? && s.w != s.p.expected) || s.p.PRetry?
    ensures Inv(StepProducer(s))
  {
  }

  lemma ProducerKeepsInv(s: State)
    requires Inv(s) && InBounds(s)
    ensures Inv(StepProducer(s))
  {
    match s.p
    case PCopy(_, _, _) => CopyStep(s);
    case PLen(_, _) => LenStep(s);
    case PSnap(_, _, _, _, _) => ProducerLoopStep(s);
    case PRetry(_, _, _, _, _) => ProducerLoopStep(s);
    case PCas(_, _, expected, _, _, _) => if s.w == expected { EnqueueTakesEffect(s); } else { ProducerLoopStep(s); }
    case _ => ProducerTestStep(s);
  }

  lemma ReceiptExtends(sent: seq<Message>, delivered: seq<Receipt>, want: Option<nat>)
    requires ReceiptsGenuine(sent, delivered) && |delivered| < |sent|
    ensures ReceiptsGenuine(sent, delivered + [Receipt(want, Fitting(sent[|delivered|..][0], want))])
  {
  }

  /** What the consumer's compare-exchange leaves behind, the producer apart. */
  lemma DequeueTakesHead(s: State)
    requires Inv(s) && s.c.CCas? && s.w == s.c.expected && InBounds(s)
    ensures var s' := StepConsumer(s);
      && s'.w == s.w.(idxOut := Wrap(s.w.idxOut + 1, s.w.depth), count := s.w.count - 1)
      && s'.delivered == s.delivered + [Receipt(s.c.want, Fitting(Pending(s)[0], s.c.want))]
      && ReceiptsGenuine(s'.sent, s'.delivered) && Pending(s') == Pending(s)[1..]
      && MemoryInv(s'.w, s'.size, s'.slots, s'.lens, Pending(s'))
  {
    DequeueIsSuccessor(s.w);
    RetireKeepsPending(s.w, s.slots, s.lens, Pending(s));
    ReceiptExtends(s.sent, s.delivered, s.c.want);
    assert Pending(StepConsumer(s)) == Pending(s)[1..];
  }

  /** A successful consumer compare-exchange removes exactly the head. */
  lemma DequeueTakesEffect(s: State)
    requires Inv(s) && s.c.CCas? && s.w == s.c.expected && InBounds(s)
    ensures var s' := StepConsumer(s);
      && Inv(s')
      && s'.w == s.w.(idxOut := Wrap(s.w.idxOut + 1, s.w.depth), count := s.w.count - 1)
      && s'.delivered == s.delivered + [Receipt(s.c.want, Fitting(Pending(s)[0], s.c.want))]
      && Pending(s') == Pending(s)[1..]
  {
    DequeueTakesHead(s);
    DequeueKeepsProducer(s.w, StepConsumer(s).w, s.size, s.slots, s.lens, s.p);
  }

  /** While the consumer copies, its slot holds the head message. */
  lemma ConsumerCopyStep(s: State)
    requires Inv(s) && (s.c.CLen? || s.c.CCopy?) && InBounds(s)
    ensures Inv(StepConsumer(s))
  {
    assert StoredAt(s.w, s.slots, s.lens, Pending(s)[0], 0);
    var head := Pending(s)[0];
    if s.c.CCopy? && |s.c.got| < s.c.n {
      assert s.slots[s.c.idx][|s.c.got|] == head[|s.c.got|];
      assert head[..|s.c.got| + 1] == head[..|s.c.got|] + [head[|s.c.got|]];
    }
  }

  lemma ConsumerKeepsInv(s: State)
    requires Inv(s) && InBounds(s)
    ensures Inv(StepConsumer(s))
  {
    if s.c.CLen? || s.c.CCopy? {
      ConsumerCopyStep(s);
    } else if s.c.CCas? && s.w == s.c.expected {
      DequeueTakesEffect(s);
    }
  }

  /** Reading one more field keeps each thread's view of the word. */
  lemma ReadKeepsViews(w: Word, sn: Snapshot, f: Field, entry: nat, failures: nat)
    ensures ProducerView(w, sn, entry, failures) && w.count < w.depth ==>
      ProducerView(w, ReadField(sn, f, w), entry, failures)
    ensures ConsumerView(w, sn, entry, failures) && w.count > 0 ==>
      ConsumerView(w, ReadField(sn, f, w), entry, failures)
  {
  }

  lemma ReadKeepsInv(s: State, f: Field)
    requires Inv(s) && InBounds(s)
    ensures Inv(Step(s, ProducerRead(f)))
    ensures Inv(Step(s, ConsumerRead(f)))
  {
    if s.p.PSnap? {
      ReadKeepsViews(s.w, s.p.sn, f, s.p.entry, s.p.failures);
    }
    if s.c.CSnap? {
      ReadKeepsViews(s.w, s.c.sn, f, s.c.entry, s.c.failures);
    }
  }

  lemma StepKeepsInv(s: State, a: Action)
    requires Inv(s)
    ensures InBounds(s) && Inv(Step(s, a))
    ensures Step(s, a).w.depth == s.w.depth && Step(s, a).size == s.size
  {
    InvInBounds(s);
    match a
    case ProducerStep => ProducerKeepsInv(s);
    case ConsumerStep => ConsumerKeepsInv(s);
    case ProducerRead(f) => ReadKeepsInv(s, f);
    case ConsumerRead(f) => ReadKeepsInv(s, f);
    case _ =>
  }

  /** The state after the actions of a run, in order, from an empty queue. */
  ghost function Run(depth: nat, mem: Memory, actions: seq<Action>): (s: State)
    requires Shaped(mem, depth)
    ensures Inv(s) && s.w.depth == depth && s.size == mem.size
  {
    if actions == [] then
      InitInv(depth, mem);
      Init(depth, mem)
    else
      var before := Run(depth, mem, actions[..|actions| - 1]);
      var a := actions[|actions| - 1];
      StepKeepsInv(before, a);
      Step(before, a)
  }
}
