/** The functions of the message queue as they run in one thread, on the real
    flat buffer, while the other thread's calls take effect between any two of
    their accesses to the control word and between any two bytes they copy. */
module MessageQueue {
  import opened Wrappers
  import opened ControlWord
  import opened QueueProtocol
  import opened QueueSafety

  /** Where slot i starts in the flat buffer. */
  function Offset(i: nat, size: nat): nat
  {
    if i == 0 then 0 else Offset(i - 1, size) + size
  }

  lemma {:induction false} OffsetIsProduct(i: nat, size: nat)
    ensures Offset(i, size) == size * i
  {
    if i > 0 {
      OffsetIsProduct(i - 1, size);
    }
  }

  lemma {:induction false} OffsetsOrdered(i: nat, j: nat, size: nat)
    requires i < j
    ensures Offset(i, size) + size <= Offset(j, size)
    decreases j
  {
    if i < j - 1 {
      OffsetsOrdered(i, j - 1, size);
    }
  }

  function Slot(bytes: seq<bv8>, i: nat, size: nat): seq<bv8>
  {
    if Offset(i, size) + size <= |bytes| then bytes[Offset(i, size)..Offset(i, size) + size] else []
  }

  /** The flat buffer cut into its slots. */
  function SlotsOf(bytes: seq<bv8>, depth: nat, size: nat): seq<seq<bv8>>
  {
    seq(depth, i requires 0 <= i < depth => Slot(bytes, i, size))
  }

  lemma SlotsShaped(bytes: seq<bv8>, depth: nat, size: nat)
    requires |bytes| == Offset(depth, size)
    ensures forall i :: 0 <= i < depth ==> |SlotsOf(bytes, depth, size)[i]| == size
  {
    forall i | 0 <= i < depth ensures |SlotsOf(bytes, depth, size)[i]| == size {
      OffsetsOrdered(i, depth, size);
    }
  }

  /** Storing one byte in one slot changes that byte of that slot only. */
  lemma StoreByte(bytes: seq<bv8>, depth: nat, size: nat, idx: nat, k: nat, b: bv8)
    requires |bytes| == Offset(depth, size) && idx < depth && k < size
    ensures Offset(idx, size) + k < |bytes| && |Slot(bytes, idx, size)| == size
    ensures SlotsOf(bytes[Offset(idx, size) + k := b], depth, size) ==
            SlotsOf(bytes, depth, size)[idx := Slot(bytes, idx, size)[k := b]]
  {
    OffsetsOrdered(idx, depth, size);
    var bytes' := bytes[Offset(idx, size) + k := b];
    var slots, slots' := SlotsOf(bytes, depth, size), SlotsOf(bytes', depth, size);
    forall j | 0 <= j < depth ensures slots'[j] == slots[idx := Slot(bytes, idx, size)[k := b]][j] {
      OffsetsOrdered(j, depth, size);
      if j < idx {
        OffsetsOrdered(j, idx, size);
      } else if j > idx {
        OffsetsOrdered(idx, j, size);
      }
    }
  }

  /** One dequeue: the word moves on and the oldest message leaves. */
  lemma Dequeued(w: Word, size: nat, slots: seq<seq<bv8>>, lens: seq<nat>, log: seq<Message>, taken: nat)
    requires taken <= |log| && MemoryInv(w, size, slots, lens, log[taken..]) && w.count > 0
    ensures taken < |log|
    ensures var w' := DequeueDesired(w, w.depth);
      && w' == w.(idxOut := Wrap(w.idxOut + 1, w.depth), count := w.count - 1)
      && MemoryInv(w', size, slots, lens, log[taken + 1..])
  {
    DequeueIsSuccessor(w);
    RetireKeepsPending(w, slots, lens, log[taken..]);
    assert log[taken..][1..] == log[taken + 1..];
  }

  /** One enqueue of the message stored at idx_in. */
  lemma Enqueued(w: Word, size: nat, slots: seq<seq<bv8>>, lens: seq<nat>, log: seq<Message>, taken: nat, m: Message)
    requires taken <= |log| && MemoryInv(w, size, slots, lens, log[taken..]) && w.count < w.depth
    requires Holds(slots[w.idxIn], lens[w.idxIn], m)
    ensures var w' := EnqueueDesired(w, w.depth);
      && w' == w.(idxIn := Wrap(w.idxIn + 1, w.depth), count := w.count + 1)
      && MemoryInv(w', size, slots, lens, (log + [m])[taken..])
  {
    EnqueueIsSuccessor(w);
    PublishKeepsPending(w, slots, lens, log[taken..], m);
    assert (log + [m])[taken..] == log[taken..] + [m];
  }

  /** A byte stored in the free slot leaves the queue as it was. */
  lemma ByteStored(w: Word, size: nat, bytes: seq<bv8>, lens: seq<nat>, pending: seq<Message>, k: nat, b: bv8)
    requires Consistent(w) && |bytes| == Offset(w.depth, size)
    requires MemoryInv(w, size, SlotsOf(bytes, w.depth, size), lens, pending)
    requires w.count < w.depth && k < size
    ensures Offset(w.idxIn, size) + k < |bytes|
    ensures var slots := SlotsOf(bytes, w.depth, size);
      var slots' := SlotsOf(bytes[Offset(w.idxIn, size) + k := b], w.depth, size);
      && slots'[w.idxIn] == slots[w.idxIn][k := b]
      && MemoryInv(w, size, slots', lens, pending)
  {
    var slots := SlotsOf(bytes, w.depth, size);
    StoreByte(bytes, w.depth, size, w.idxIn, k, b);
    FillingKeepsPending(w, slots, lens, pending, slots[w.idxIn := slots[w.idxIn][k := b]], lens);
  }

  class MessageQueue {
    var w: Word
    const size: nat
    const messages: array<bv8>
    const len: array<nat>
    /** Every message enqueued so far, and how many of them are dequeued. */
    ghost var log: seq<Message>
    ghost var taken: nat

    ghost predicate Valid()
      reads this, messages, len
    {
      && (messages as object) != len
      && messages.Length == Offset(w.depth, size)
      && taken <= |log|
      && MemoryInv(w, size, SlotsOf(messages[..], w.depth, size), len[..], log[taken..])
    }

    /** ddi_message_queue_init on a caller's buffer of depth times size bytes,
        whatever is in it. */
    constructor (messages: array<bv8>, len: array<nat>, size: nat, depth: nat)
      requires 1 <= depth <= 255 && messages.Length == Offset(depth, size) && len.Length == depth
      requires (messages as object) != len
      ensures Valid() && log == [] && taken == 0
      ensures w.depth == depth && w.idxIn == w.idxOut == depth - 1 && this.size == size
      ensures this.messages == messages && this.len == len
    {
      SlotsShaped(messages[..], depth, size);
      w := InitialWord(depth);
      this.size := size;
      this.messages := messages;
      this.len := len;
      log := [];
      taken := 0;
    }

    /** ddi_atomic_compare_exchange on the control word; `seen` is what
        *pexpected holds afterwards. */
    method CompareExchange(expected: Word, desired: Word) returns (ok: bool, seen: Word)
      modifies this`w
      ensures ok <==> old(w) == expected
      ensures w == if ok then desired else old(w)
      ensures seen == old(w)
    {
      seen := w;
      ok := seen == expected;
      if ok {
        w := desired;
      }
    }

    /** The consumer finishes up to n dequeues here. */
    method ConsumerTakes(n: nat)
      requires Valid()
      modifies this`w, this`taken
      ensures Valid() && w == old(w).(idxOut := w.idxOut, count := w.count)
      ensures old(taken) <= taken <= old(taken) + n
      ensures taken == old(taken) ==> w == old(w)
    {
      var k := 0;
      while k < n && w.count != 0
        invariant Valid()
        invariant w == old(w).(idxOut := w.idxOut, count := w.count)
        invariant old(taken) <= taken <= old(taken) + k && k <= n
        invariant taken == old(taken) ==> w == old(w)
      {
        ConsumerTakesOne();
        k := k + 1;
      }
    }

    method ConsumerTakesOne()
      requires Valid() && w.count != 0
      modifies this`w, this`taken
      ensures Valid() && w == old(w).(idxOut := w.idxOut, count := w.count) && taken == old(taken) + 1
    {
      Dequeued(w, size, SlotsOf(messages[..], w.depth, size), len[..], log, taken);
      w, taken := DequeueDesired(w, w.depth), taken + 1;
    }

    /** `expected.i = *q` as the producer does it: field by field, the consumer
        running in between. A snapshot is torn only if the consumer ran. */
    method ProducerSnapshot(consumer: nat -> nat, t: nat) returns (expected: Word)
      requires Valid()
      modifies this`w, this`taken
      ensures Valid() && w == old(w).(idxOut := w.idxOut, count := w.count)
      ensures old(taken) <= taken
      ensures expected.depth == w.depth && expected.idxIn == w.idxIn
      ensures w.count <= expected.count <= old(w.count)
      ensures taken == old(taken) ==> w == expected == old(w)
    {
      ConsumerTakes(consumer(t));
      var depth := w.depth;
      ConsumerTakes(consumer(t + 1));
      var idxOut := w.idxOut;
      ConsumerTakes(consumer(t + 2));
      var idxIn := w.idxIn;
      ConsumerTakes(consumer(t + 3));
      var count := w.count;
      ConsumerTakes(consumer(t + 4));
      expected := Word(depth, idxIn, idxOut, count);
    }

    /** ddi_queue_in: refuses exactly when the queue is full at the first read. */
    method QueueIn(consumer: nat -> nat) returns (idx: int)
      requires Valid()
      modifies this`w, this`taken
      ensures Valid() && w == old(w).(idxOut := w.idxOut, count := w.count) && old(taken) <= taken
      ensures idx == if |log| - old(taken) == w.depth then -1 else w.idxIn
      ensures idx >= 0 ==> w.count < w.depth
      ensures (forall t :: consumer(t) == 0) ==> taken == old(taken) && w == old(w)
    {
      var count := w.count;
      ConsumerTakes(consumer(0));
      if count == w.depth {
        return -1;
      }
      ConsumerTakes(consumer(1));
      return w.idxIn;
    }

    /** One round of the loop of ddi_enqueue. A lost round means that the
        consumer took a message meanwhile. */
    method TryEnqueue(consumer: nat -> nat, t: nat, ghost m: Message) returns (installed: bool, seen: Word, desired: Word)
      requires Valid() && w.count < w.depth
      requires Holds(SlotsOf(messages[..], w.depth, size)[w.idxIn], len[w.idxIn], m)
      modifies this`w, this`taken, this`log
      ensures Valid() && w.depth == old(w.depth) && old(taken) <= taken <= |old(log)|
      ensures installed ==> log == old(log) + [m] && w == desired && w.idxIn == Wrap(old(w.idxIn) + 1, w.depth)
      ensures !installed ==>
        log == old(log) && taken > old(taken) && w.count < old(w.count) && w.idxIn == old(w.idxIn) && seen == w
    {
      var expected := ProducerSnapshot(consumer, t);
      desired := EnqueueDesired(expected, w.depth);
      ConsumerTakes(consumer(t + 5));
      ghost var atCas := w;
      installed, seen := CompareExchange(expected, desired);
      if installed {
        Enqueued(atCas, size, SlotsOf(messages[..], w.depth, size), len[..], log, taken, m);
        log := log + [m];
      }
    }

    /** ddi_enqueue, with the consumer's dequeues between its accesses chosen by
        `consumer`. It reports full exactly when it finds depth messages at the
        first test; otherwise it publishes the message stored at idx_in, returns
        the new idx_in, and loses at most one round for each message the
        consumer took meanwhile. */
    method Enqueue(consumer: nat -> nat, ghost m: Message) returns (r: int, ghost rounds: nat)
      requires Valid()
      requires w.count < w.depth ==> Holds(SlotsOf(messages[..], w.depth, size)[w.idxIn], len[w.idxIn], m)
      modifies this`w, this`taken, this`log
      ensures Valid() && w.depth == old(w.depth)
      ensures old(w.count) == w.depth ==>
        r == -1 && log == old(log) && w == old(w).(idxOut := w.idxOut, count := w.count)
      ensures old(w.count) < w.depth ==>
        r == w.idxIn == Wrap(old(w.idxIn) + 1, w.depth) && log == old(log) + [m]
      ensures old(taken) <= taken <= |old(log)|
      ensures rounds <= taken - old(taken) + 1
    {
      rounds := 0;
      var t := 1;
      var count := w.count;
      ConsumerTakes(consumer(0));
      if count == w.depth {
        return -1, 0;
      }
      var installed, full, seen, desired := false, false, w, w;
      while !installed && !full
        invariant Valid() && w.depth == old(w.depth) && !full
        invariant old(taken) <= taken <= |old(log)|
        invariant !installed ==>
          log == old(log) && w.count < w.depth && w.idxIn == old(w.idxIn) && rounds <= taken - old(taken)
        invariant installed ==>
          && log == old(log) + [m] && rounds <= taken - old(taken) + 1
          && w == desired && w.idxIn == Wrap(old(w.idxIn) + 1, w.depth)
        decreases !installed, w.count
      {
        installed, seen, desired := TryEnqueue(consumer, t, m);
        rounds, t := rounds + 1, t + 7;
        if !installed {
          ConsumerTakes(consumer(t - 1));
          full := seen.count == w.depth;
        }
      }
      r := if installed then desired.idxIn else -1;
    }

    /** The producer's writes before its enqueue: the length, then the payload
        byte by byte, or a whole slot of zeros when there is no payload; the
        consumer runs before every byte. */
    method Store(idx: nat, m: Message, consumer: nat -> nat)
      requires Valid() && w.count < w.depth && idx == w.idxIn && |m| <= size
      modifies this`w, this`taken, messages, len
      ensures Valid() && w == old(w).(idxOut := w.idxOut, count := w.count) && w.count < w.depth
      ensures old(taken) <= taken
      ensures (forall t :: consumer(t) == 0) ==> taken == old(taken) && w == old(w)
      ensures Holds(SlotsOf(messages[..], w.depth, size)[idx], len[idx], m)
    {
      var image := Image(m, size);
      ghost var quiet := forall t :: consumer(t) == 0;
      ConsumerTakes(consumer(0));
      StoreLength(idx, |m|);
      var k := 0;
      while k < |image|
        invariant k <= |image| && Valid()
        invariant w == old(w).(idxOut := w.idxOut, count := w.count) && w.count < w.depth
        invariant old(taken) <= taken
        invariant quiet ==> taken == old(taken) && w == old(w)
        invariant len[idx] == |m|
        invariant SlotsOf(messages[..], w.depth, size)[idx][..k] == image[..k]
      {
        StoreNext(idx, k, image, consumer(k + 1));
        k := k + 1;
      }
      assert image[..|image|] == image;
    }

    method StoreNext(idx: nat, k: nat, image: seq<bv8>, takes: nat)
      requires Valid() && w.count < w.depth && idx == w.idxIn && k < |image| <= size
      requires SlotsOf(messages[..], w.depth, size)[idx][..k] == image[..k]
      modifies this`w, this`taken, messages
      ensures Valid() && w == old(w).(idxOut := w.idxOut, count := w.count) && w.count < w.depth
      ensures old(taken) <= taken && (takes == 0 ==> taken == old(taken) && w == old(w))
      ensures SlotsOf(messages[..], w.depth, size)[idx][..k + 1] == image[..k + 1]
    {
      ConsumerTakes(takes);
      StoreOne(idx, k, image[k]);
      assert image[..k + 1] == image[..k] + [image[k]];
    }

    method StoreLength(idx: nat, n: nat)
      requires Valid() && w.count < w.depth && idx == w.idxIn && n <= size
      modifies len
      ensures Valid() && len[idx] == n
    {
      ghost var bytes, lens := messages[..], len[..];
      ghost var slots := SlotsOf(bytes, w.depth, size);
      FillingKeepsPending(w, slots, lens, log[taken..], slots, lens[idx := n]);
      len[idx] := n;
      assert len[..] == lens[idx := n];
      assert messages[..] == bytes;
    }

    /** One byte of the free slot. */
    method StoreOne(idx: nat, k: nat, b: bv8)
      requires Valid() && w.count < w.depth && idx == w.idxIn && k < size
      modifies messages
      ensures Valid() && len[..] == old(len[..])
      ensures SlotsOf(messages[..], w.depth, size)[idx] ==
              old(SlotsOf(messages[..], w.depth, size))[idx][k := b]
    {
      ghost var before, lens := messages[..], len[..];
      ByteStored(w, size, before, lens, log[taken..], k, b);
      messages[Offset(idx, size) + k] := b;
      assert messages[..] == before[Offset(idx, size) + k := b];
      assert len[..] == lens;
    }

    /** ddi_message_enqueue: -2 when the message does not fit a slot, -1 when
        the queue is full, otherwise the new idx_in; the message then is the
        newest one, whatever the consumer did meanwhile. `data` is None for a
        NULL pointer. The consumer's dequeues between the accesses of the test,
        of the copy and of ddi_enqueue are chosen by the last three. */
    method MessageEnqueue(data: Option<Message>, testing: nat -> nat, copying: nat -> nat, looping: nat -> nat)
      returns (r: int)
      requires Valid() && (data.Some? ==> |data.value| < 0x1_0000)
      modifies this`w, this`taken, this`log, messages, len
      ensures Valid() && w.depth == old(w.depth)
      ensures r == if data.Some? && |data.value| > size then -2
                   else if |old(log)| - old(taken) == w.depth then -1
                   else w.idxIn
      ensures r == -2 ==> w == old(w) && taken == old(taken)
      ensures r < 0 ==> log == old(log) && w == old(w).(idxOut := w.idxOut, count := w.count)
      ensures r < 0 ==> messages[..] == old(messages[..]) && len[..] == old(len[..])
      ensures r >= 0 ==>
        && w.idxIn == Wrap(old(w.idxIn) + 1, w.depth)
        && log == old(log) + [if data.None? then [] else data.value]
        && old(taken) <= taken <= |old(log)|
    {
      if data.Some? && |data.value| > size {
        return -2;
      }
      r := QueueIn(testing);
      if r >= 0 {
        var m := if data.None? then [] else data.value;
        Store(r, m, copying);
        ghost var rounds;
        r, rounds := Enqueue(looping, m);
      }
    }

    /** The producer finishes a few enqueues here: each message that fits a
        slot, as long as there is room. */
    method ProducerPuts(ms: seq<Message>)
      requires Valid()
      modifies this`w, this`taken, this`log, messages, len
      ensures Valid() && w == old(w).(idxIn := w.idxIn, count := w.count)
      ensures old(log) <= log && taken == old(taken)
      ensures log == old(log) ==> w == old(w)
    {
      var i := 0;
      while i < |ms|
        invariant Valid() && w == old(w).(idxIn := w.idxIn, count := w.count)
        invariant old(log) <= log && taken == old(taken)
        invariant log == old(log) ==> w == old(w)
      {
        if w.count != w.depth && |ms[i]| <= size {
          Store(w.idxIn, ms[i], _ => 0);
          ghost var slots, lens := SlotsOf(messages[..], w.depth, size), len[..];
          Enqueued(w, size, slots, lens, log, taken, ms[i]);
          w, log := EnqueueDesired(w, w.depth), log + [ms[i]];
        }
        i := i + 1;
      }
    }

    /** `expected.i = *q` as the consumer does it. */
    method ConsumerSnapshot(producer: nat -> seq<Message>, t: nat) returns (expected: Word)
      requires Valid()
      modifies this`w, this`taken, this`log, messages, len
      ensures Valid() && w == old(w).(idxIn := w.idxIn, count := w.count)
      ensures old(log) <= log && taken == old(taken)
      ensures expected.depth == w.depth && expected.idxOut == w.idxOut
      ensures old(w.count) <= expected.count <= w.count
      ensures log == old(log) ==> w == expected == old(w)
    {
      ProducerPuts(producer(t));
      var depth := w.depth;
      ProducerPuts(producer(t + 1));
      var idxIn := w.idxIn;
      ProducerPuts(producer(t + 2));
      var idxOut := w.idxOut;
      ProducerPuts(producer(t + 3));
      var count := w.count;
      ProducerPuts(producer(t + 4));
      expected := Word(depth, idxIn, idxOut, count);
    }

    /** ddi_queue_out: refuses exactly when the queue is empty at the read. */
    method QueueOut(producer: nat -> seq<Message>) returns (idx: int)
      requires Valid()
      modifies this`w, this`taken, this`log, messages, len
      ensures Valid() && w == old(w).(idxIn := w.idxIn, count := w.count)
      ensures old(log) <= log && taken == old(taken)
      ensures idx == if taken == |old(log)| then -1 else w.idxOut
      ensures idx < 0 ==> w == old(w) && log == old(log)
      ensures idx >= 0 ==> w.count > 0
    {
      if w.count == 0 {
        return -1;
      }
      ProducerPuts(producer(0));
      return w.idxOut;
    }

    /** One round of the loop of ddi_dequeue. */
    method TryDequeue(producer: nat -> seq<Message>, t: nat) returns (installed: bool, seen: Word, desired: Word)
      requires Valid() && w.count > 0
      modifies this`w, this`taken, this`log, messages, len
      ensures Valid() && w.depth == old(w.depth) && old(log) <= log
      ensures installed ==>
        taken == old(taken) + 1 <= |old(log)| && w == desired && w.idxOut == Wrap(old(w.idxOut) + 1, w.depth)
      ensures !installed ==>
        && taken == old(taken) && |log| > |old(log)|
        && w.count > old(w.count) && w.idxOut == old(w.idxOut) && seen == w
    {
      var expected := ConsumerSnapshot(producer, t);
      desired := DequeueDesired(expected, w.depth);
      ProducerPuts(producer(t + 5));
      ghost var atCas := w;
      installed, seen := CompareExchange(expected, desired);
      if installed {
        Dequeued(atCas, size, SlotsOf(messages[..], w.depth, size), len[..], log, taken);
        taken := taken + 1;
      }
    }

    /** ddi_dequeue, with the producer's enqueues between its accesses chosen by
        `producer`. It reports empty exactly when it finds no message at the
        first test; otherwise it removes exactly the oldest message, returns the
        new idx_out, and loses at most one round for each message the producer
        put meanwhile. */
    method Dequeue(producer: nat -> seq<Message>) returns (r: int, ghost rounds: nat)
      requires Valid()
      modifies this`w, this`taken, this`log, messages, len
      ensures Valid() && w.depth == old(w.depth) && old(log) <= log
      ensures old(w.count) == 0 ==> r == -1 && taken == old(taken) && w == old(w) && log == old(log)
      ensures old(w.count) > 0 ==>
        r == w.idxOut == Wrap(old(w.idxOut) + 1, w.depth) && taken == old(taken) + 1 <= |old(log)|
      ensures rounds <= |log| - |old(log)| + 1
    {
      rounds := 0;
      var t := 0;
      if w.count == 0 {
        return -1, 0;
      }
      var installed, empty, seen, desired := false, false, w, w;
      while !installed && !empty
        invariant Valid() && w.depth == old(w.depth) && !empty && old(log) <= log
        invariant !installed ==>
          taken == old(taken) && w.count > 0 && w.idxOut == old(w.idxOut) && rounds <= |log| - |old(log)|
        invariant installed ==>
          && taken == old(taken) + 1 && rounds <= |log| - |old(log)| + 1
          && w == desired && w.idxOut == Wrap(old(w.idxOut) + 1, w.depth)
        decreases !installed, w.depth - w.count
      {
        installed, seen, desired := TryDequeue(producer, t);
        rounds, t := rounds + 1, t + 6;
        empty := !installed && seen.count == 0;
      }
      r := if installed then desired.idxOut else -1;
    }

    /** The oldest message, read in the slot at idx_out. */
    lemma HeadInSlot(k: nat)
      requires Valid() && w.count > 0 && k < |log[taken]|
      ensures Offset(w.idxOut, size) + k < messages.Length
      ensures messages[Offset(w.idxOut, size) + k] == log[taken][k]
    {
      assert StoredAt(w, SlotsOf(messages[..], w.depth, size), len[..], log[taken..][0], 0);
      OffsetsOrdered(w.idxOut, w.depth, size);
      assert SlotsOf(messages[..], w.depth, size)[w.idxOut][..|log[taken]|][k] == log[taken][k];
    }

    lemma HeadLength()
      requires Valid() && w.count > 0
      ensures len[w.idxOut] == |log[taken]|
    {
      assert StoredAt(w, SlotsOf(messages[..], w.depth, size), len[..], log[taken..][0], 0);
    }

    /** memcpy from the slot at idx_out into the caller's buffer; the producer's
        enqueues before each byte are chosen by `producer`. */
    method CopyHead(data: array<bv8>, count: nat, producer: nat -> seq<Message>)
      requires Valid() && w.count > 0 && data != messages && (data as object) != len
      requires count <= |log[taken]| && count <= data.Length
      modifies this`w, this`taken, this`log, messages, len, data
      ensures Valid() && w == old(w).(idxIn := w.idxIn, count := w.count) && w.count > 0
      ensures old(log) <= log && taken == old(taken) < |old(log)|
      ensures data[..count] == old(log[taken])[..count]
      ensures data[count..] == old(data[count..])
    {
      ghost var head := log[taken];
      var k := 0;
      while k < count
        invariant k <= count && Valid() && w == old(w).(idxIn := w.idxIn, count := w.count) && w.count > 0
        invariant old(log) <= log && taken == old(taken) < |log| && log[taken] == head
        invariant data[..k] == head[..k]
        invariant data[count..] == old(data[count..])
      {
        ProducerPuts(producer(k));
        HeadInSlot(k);
        data[k] := messages[Offset(w.idxOut, size) + k];
        k := k + 1;
      }
    }

    /** ddi_message_dequeue: -2 when a buffer comes without a length, -1 when
        the queue is empty, otherwise the old idx_out; the oldest message has
        then left the queue and its first bytes, as many as fit, are in `data`.
        `want` is *len on entry and `n` *len on return; the producer's enqueues
        after the test, before each byte and in the loop are chosen by the last
        three. */
    method MessageDequeue(data: array?<bv8>, want: Option<nat>, testing: nat -> seq<Message>,
                          copying: nat -> seq<Message>, looping: nat -> seq<Message>)
      returns (r: int, n: Option<nat>)
      requires Valid() && data != messages && (data as object?) != len
      requires data != null && want.Some? ==> want.value <= data.Length
      modifies this`w, this`taken, this`log, messages, len, if data == null then {} else {data}
      ensures Valid() && w.depth == old(w.depth) && old(log) <= log
      ensures r == if data != null && want.None? then -2 else if old(taken) == |old(log)| then -1 else old(w.idxOut)
      ensures r < 0 ==> log == old(log) && taken == old(taken) && w == old(w)
      ensures r >= 0 ==> taken == old(taken) + 1
      ensures if data == null || r < 0 || want.value == 0 then n == want
              else
                var head := old(log[taken]);
                && n == Some(if want.value < |head| then want.value else |head|)
                && data[..n.value] == head[..n.value]
                && data[n.value..] == old(data[..])[n.value..]
      ensures data != null && (r < 0 || want.value == 0) ==> data[..] == old(data[..])
    {
      n := want;
      if data != null && want.None? {
        return -2, n;
      }
      r := QueueOut(testing);
      if r >= 0 {
        ProducerPuts(testing(1));
        if data != null && want.value > 0 {
          HeadLength();
          n := Some(Min(want.value, len[r]));
          CopyHead(data, n.value, copying);
        }
        var ignored;
        ghost var rounds;
        ignored, rounds := Dequeue(looping);
      }
    }
  }

  /** The caller's own writes through the pointer ddi_message_queue_in gives it. */
  method FillSlot(q: MessageQueue, idx: nat, data: Message)
    requires q.Valid() && q.w.count < q.w.depth && idx == q.w.idxIn && |data| <= q.size
    modifies q.messages
    ensures q.Valid() && q.len[..] == old(q.len[..])
    ensures SlotsOf(q.messages[..], q.w.depth, q.size)[idx][..|data|] == data
  {
    var k := 0;
    while k < |data|
      invariant k <= |data| && q.Valid() && q.len[..] == old(q.len[..])
      invariant SlotsOf(q.messages[..], q.w.depth, q.size)[idx][..k] == data[..k]
    {
      q.StoreOne(idx, k, data[k]);
      assert data[..k + 1] == data[..k] + [data[k]];
      k := k + 1;
    }
    assert data[..|data|] == data;
  }

  /** The slot ddi_message_queue_out hands out, when its message is empty. */
  method ReadHead(q: MessageQueue) returns (idx: int)
    requires q.Valid() && q.w.count > 0 && q.log[q.taken] == []
    modifies q, q.messages, q.len
    ensures q.Valid() && 0 <= idx == q.w.idxOut < q.w.depth
    ensures q.size * idx + q.size <= q.messages.Length && q.len[idx] == 0
    ensures forall i :: q.size * idx <= i < q.size * idx + q.size ==> q.messages[i] == 0
  {
    idx := q.QueueOut(_ => []);
    assert StoredAt(q.w, SlotsOf(q.messages[..], q.w.depth, q.size), q.len[..], q.log[q.taken..][0], 0);
    OffsetIsProduct(idx, q.size);
    OffsetsOrdered(idx, q.w.depth, q.size);
    ghost var slot := SlotsOf(q.messages[..], q.w.depth, q.size)[idx];
    assert forall i :: q.size * idx <= i < q.size * idx + q.size ==> q.messages[i] == slot[i - q.size * idx];
  }

  /** Example 1 of ddi_queue.h: the producer writes its data into the slot and
      enqueues without data. Whatever it wrote, the consumer reads a slot of
      zeros and the length 0. */
  method ExampleOne(q: MessageQueue, data: Message) returns (idx: int)
    requires q.Valid() && q.taken == |q.log| && |data| <= q.size
    modifies q, q.messages, q.len
    ensures q.Valid() && 0 <= idx == q.w.idxOut < q.w.depth
    ensures q.size * idx + q.size <= q.messages.Length && q.len[idx] == 0
    ensures forall i :: q.size * idx <= i < q.size * idx + q.size ==> q.messages[i] == 0
  {
    var slot := q.QueueIn(_ => 0);
    FillSlot(q, slot, data);
    var r := q.MessageEnqueue(None, _ => 0, _ => 0, _ => 0);
    assert q.log == old(q.log) + [[]] && q.taken == |old(q.log)|;
    idx := ReadHead(q);
  }
}
