/** The buffer queue of ddi_os_freertos.c: a ring of buffer indices next to a
    kernel queue that carries them. The sender claims an index in a critical
    section and posts it to the kernel queue later; the receiver takes it from
    the kernel queue and gives the ring slot back later. */
module BufferRing {
  import opened Wrappers
  import opened ControlWord

  class BufferQueue {
    const depth: nat
    const tFull: int
    var idxIn: nat
    var idxOut: nat

    predicate Valid()
      reads this
    {
      depth > 0 && tFull == 1 - depth && idxIn < depth && idxOut < depth
    }

    /** ddi_buffer_queue_create */
    constructor (depth: nat)
      requires depth > 0
      ensures Valid() && this.depth == depth && idxIn == idxOut == 0
    {
      this.depth := depth;
      idxIn, idxOut := 0, 0;
      tFull := -(depth - 1);
    }

    /** _priv_enqueue: refuses exactly when one more step would meet idx_out. */
    method PrivEnqueue() returns (idx: int)
      requires Valid()
      modifies this`idxIn
      ensures Valid()
      ensures Full(old(idxIn), idxOut, depth) ==> idx == -1 && idxIn == old(idxIn)
      ensures !Full(old(idxIn), idxOut, depth) ==> idx == idxIn == Wrap(old(idxIn) + 1, depth)
    {
      var t := idxOut - idxIn;
      if t == 1 || t == tFull {
        return -1;
      }
      ModIsWrap(idxIn + 1, depth);
      idxIn := (idxIn + 1) % depth;
      idx := idxIn;
    }

    /** _priv_dequeue */
    method PrivDequeue() returns (idx: int)
      requires Valid()
      modifies this`idxOut
      ensures Valid()
      ensures old(idxOut) == idxIn ==> idx == -1 && idxOut == old(idxOut)
      ensures old(idxOut) != idxIn ==> idx == idxOut == Wrap(old(idxOut) + 1, depth)
    {
      if idxOut == idxIn {
        return -1;
      }
      ModIsWrap(idxOut + 1, depth);
      idxOut := (idxOut + 1) % depth;
      idx := idxOut;
    }
  }

  predicate Full(idxIn: nat, idxOut: nat, depth: nat)
    requires depth > 0
  {
    (idxIn + 1) % depth == idxOut
  }

  /** One sender and one receiver between their steps. */
  datatype Ring = Ring(
    idxIn: nat,
    idxOut: nat,
    kernel: seq<nat>,      // the kernel queue
    posting: Option<nat>,  // claimed by the sender, not posted yet
    taken: bool,           // taken by the receiver, ring slot not given back yet
    sent: seq<nat>,        // all indices posted so far
    received: seq<nat>,    // all indices taken so far
    reserved: Option<nat>, // the buffer handed out for the next message
    filled: seq<Option<nat>>) // for each message claimed, the buffer handed out for it

  datatype Action = Reserve | Claim | Refuse | Post | Take | GiveBack

  function Initial(): Ring
  {
    Ring(0, 0, [], None, false, [], [], None, [])
  }

  /** The kernel queue holds `depth` indices: a full one blocks the sender, an
      empty one the receiver. */
  predicate Step(r: Ring, a: Action, s: Ring, depth: nat)
    requires depth > 0
  {
    match a
    case Reserve => r.posting.None? && s == r.(reserved := Some(r.idxIn))
    case Claim =>
      var next := (r.idxIn + 1) % depth;
      && r.posting.None? && !Full(r.idxIn, r.idxOut, depth)
      && s == r.(idxIn := next, posting := Some(next), reserved := None, filled := r.filled + [r.reserved])
    case Refuse => r.posting.None? && Full(r.idxIn, r.idxOut, depth) && s == r
    case Post =>
      && r.posting.Some? && |r.kernel| < depth
      && s == r.(kernel := r.kernel + [r.posting.value], posting := None, sent := r.sent + [r.posting.value])
    case Take =>
      && !r.taken && r.kernel != []
      && s == r.(kernel := r.kernel[1..], taken := true, received := r.received + [r.kernel[0]])
    case GiveBack =>
      r.taken && s == r.(taken := false, idxOut := if r.idxOut == r.idxIn then r.idxOut else (r.idxOut + 1) % depth)
  }

  /** The indices on their way, oldest first. */
  function Pending(r: Ring): seq<nat>
  {
    r.kernel + if r.posting.Some? then [r.posting.value] else []
  }

  predicate Consecutive(q: seq<nat>, base: nat, depth: nat)
  {
    forall k :: 0 <= k < |q| ==> q[k] == Wrap(base + k + 1, depth)
  }

  /** The ring position before the oldest pending index. */
  function Base(r: Ring, depth: nat): nat
  {
    if r.taken then Wrap(r.idxOut + 1, depth) else r.idxOut
  }

  predicate Inv(r: Ring, depth: nat)
  {
    && depth > 0 && r.idxIn < depth && r.idxOut < depth
    && Consecutive(Pending(r), Base(r, depth), depth)
    && |Pending(r)| + (if r.taken then 1 else 0) < depth
    && r.idxIn == Wrap(Base(r, depth) + |Pending(r)|, depth)
    && r.received + r.kernel == r.sent
  }

  lemma InitialInv(depth: nat)
    requires depth > 0
    ensures Inv(Initial(), depth)
  {
  }

  /** The ring refuses exactly when depth - 1 indices are claimed and not given
      back: one slot is never used. */
  lemma FullIff(r: Ring, depth: nat)
    requires Inv(r, depth)
    ensures Full(r.idxIn, r.idxOut, depth) <==> |Pending(r)| + (if r.taken then 1 else 0) == depth - 1
  {
    ModIsWrap(r.idxIn + 1, depth);
  }

  lemma ClaimExtends(r: Ring, s: Ring, next: nat, depth: nat)
    requires Inv(r, depth) && r.posting.None? && next == Wrap(r.idxIn + 1, depth)
    requires |r.kernel| + (if r.taken then 1 else 0) < depth - 1
    requires s == r.(idxIn := next, posting := Some(next), reserved := None, filled := r.filled + [r.reserved])
    ensures Inv(s, depth)
  {
    assert Pending(r) == r.kernel && Pending(s) == r.kernel + [next];
  }

  lemma ClaimKeepsInv(r: Ring, s: Ring, depth: nat)
    requires Inv(r, depth) && Step(r, Claim, s, depth)
    ensures Inv(s, depth)
  {
    ModIsWrap(r.idxIn + 1, depth);
    FullIff(r, depth);
    ClaimExtends(r, s, (r.idxIn + 1) % depth, depth);
  }

  lemma PostKeepsInv(r: Ring, s: Ring, depth: nat)
    requires Inv(r, depth) && Step(r, Post, s, depth)
    ensures Inv(s, depth)
  {
    assert Pending(s) == Pending(r);
  }

  lemma TakeKeepsInv(r: Ring, s: Ring, depth: nat)
    requires Inv(r, depth) && Step(r, Take, s, depth)
    ensures Inv(s, depth)
  {
    assert Pending(r) == [r.kernel[0]] + Pending(s);
    forall k | 0 <= k < |Pending(s)| ensures Pending(s)[k] == Wrap(Base(s, depth) + k + 1, depth) {
      assert Pending(s)[k] == Pending(r)[k + 1];
    }
  }

  lemma GiveBackKeepsInv(r: Ring, s: Ring, depth: nat)
    requires Inv(r, depth) && Step(r, GiveBack, s, depth)
    ensures Inv(s, depth)
  {
    ModIsWrap(r.idxOut + 1, depth);
    WrapInjective(r.idxOut, 0, 1 + |Pending(r)|, depth);
    assert Pending(s) == Pending(r);
  }

  lemma StepKeepsInv(r: Ring, a: Action, s: Ring, depth: nat)
    requires Inv(r, depth) && Step(r, a, s, depth)
    ensures Inv(s, depth)
  {
    match a
    case Reserve => assert Pending(s) == Pending(r);
    case Claim => ClaimKeepsInv(r, s, depth);
    case Refuse =>
    case Post => PostKeepsInv(r, s, depth);
    case Take => TakeKeepsInv(r, s, depth);
    case GiveBack => GiveBackKeepsInv(r, s, depth);
  }

  predicate IsRun(run: seq<Ring>, actions: seq<Action>, depth: nat)
    requires depth > 0
  {
    && |run| == |actions| + 1 && run[0] == Initial()
    && forall i :: 0 <= i < |actions| ==> Step(run[i], actions[i], run[i + 1], depth)
  }

  lemma {:induction false} Run(run: seq<Ring>, actions: seq<Action>, depth: nat, i: nat)
    requires depth > 0 && IsRun(run, actions, depth) && i < |run|
    ensures Inv(run[i], depth)
  {
    if i == 0 {
      InitialInv(depth);
    } else {
      Run(run, actions, depth, i - 1);
      StepKeepsInv(run[i - 1], actions[i - 1], run[i], depth);
    }
  }

  /** In every reachable state: a sender that passed the ring test finds room
      in the kernel queue, a receiver that took an index finds the ring not
      empty, and indices arrive in the order they were posted. */
  lemma NeitherSideBlocks(run: seq<Ring>, actions: seq<Action>, depth: nat, i: nat)
    requires depth > 0 && IsRun(run, actions, depth) && i < |run|
    ensures run[i].posting.Some? ==> |run[i].kernel| < depth - 1
    ensures run[i].taken ==> run[i].idxIn != run[i].idxOut
    ensures run[i].received <= run[i].sent
  {
    Run(run, actions, depth, i);
    var r := run[i];
    if r.taken { WrapInjective(r.idxOut, 0, 1 + |Pending(r)|, depth); }
    assert r.received == r.sent[..|r.received|];
  }

  /** The indices of all messages claimed so far. */
  function Claimed(r: Ring): seq<nat>
  {
    r.sent + if r.posting.Some? then [r.posting.value] else []
  }

  /** The buffer handed out is the one at idx_in, which is also the one whose
      index was claimed last; each message went out under the index after that
      of its buffer. */
  predicate BufferInv(r: Ring, depth: nat)
  {
    && |r.filled| == |Claimed(r)|
    && (r.reserved.Some? ==> r.reserved.value == r.idxIn)
    && (Claimed(r) != [] ==> Claimed(r)[|Claimed(r)| - 1] == r.idxIn)
    && forall k :: 0 <= k < |r.filled| && r.filled[k].Some? ==>
         r.filled[k].value < depth && Claimed(r)[k] == Wrap(r.filled[k].value + 1, depth)
  }

  lemma ClaimKeepsBufferInv(r: Ring, s: Ring, next: nat, depth: nat)
    requires Inv(r, depth) && BufferInv(r, depth) && r.posting.None? && next == Wrap(r.idxIn + 1, depth)
    requires s == r.(idxIn := next, posting := Some(next), reserved := None, filled := r.filled + [r.reserved])
    ensures BufferInv(s, depth)
  {
    assert Claimed(r) == r.sent && Claimed(s) == r.sent + [next];
  }

  lemma StepKeepsBufferInv(r: Ring, a: Action, s: Ring, depth: nat)
    requires Inv(r, depth) && BufferInv(r, depth) && Step(r, a, s, depth)
    ensures BufferInv(s, depth)
  {
    if a.Claim? {
      ModIsWrap(r.idxIn + 1, depth);
      ClaimKeepsBufferInv(r, s, (r.idxIn + 1) % depth, depth);
    } else {
      assert Claimed(s) == Claimed(r);
    }
  }

  lemma {:induction false} BufferRun(run: seq<Ring>, actions: seq<Action>, depth: nat, i: nat)
    requires depth > 0 && IsRun(run, actions, depth) && i < |run|
    ensures BufferInv(run[i], depth)
  {
    if i > 0 {
      BufferRun(run, actions, depth, i - 1);
      Run(run, actions, depth, i - 1);
      StepKeepsBufferInv(run[i - 1], actions[i - 1], run[i], depth);
    }
  }

  /** No message is ever received in the buffer that was handed out for it. */
  lemma NeverTheBufferFilled(run: seq<Ring>, actions: seq<Action>, depth: nat, i: nat, k: nat)
    requires depth > 0 && IsRun(run, actions, depth) && i < |run| && k < |run[i].received|
    ensures k < |run[i].filled|
    ensures run[i].filled[k].Some? ==> run[i].received[k] != run[i].filled[k].value
  {
    BufferRun(run, actions, depth, i);
    Run(run, actions, depth, i);
    NeitherSideBlocks(run, actions, depth, i);
    TwoSlotsAtLeast(run, actions, depth, i);
    assert Claimed(run[i])[k] == run[i].received[k];
  }

  /** With one slot nothing is ever claimed. */
  lemma {:induction false} TwoSlotsAtLeast(run: seq<Ring>, actions: seq<Action>, depth: nat, i: nat)
    requires depth > 0 && IsRun(run, actions, depth) && i < |run|
    ensures depth == 1 ==> run[i].filled == []
  {
    if i > 0 {
      TwoSlotsAtLeast(run, actions, depth, i - 1);
      Run(run, actions, depth, i - 1);
      assert Step(run[i - 1], actions[i - 1], run[i], depth);
    }
  }

  /** What is handed out for the next message is the buffer under whose index
      the last one went out: the receiver reads where the sender is writing. */
  lemma HandsOutTheLastSent(run: seq<Ring>, actions: seq<Action>, depth: nat, i: nat)
    requires depth > 0 && IsRun(run, actions, depth) && i < |run|
    requires run[i].reserved.Some? && run[i].posting.None? && run[i].sent != []
    ensures run[i].reserved.value == run[i].sent[|run[i].sent| - 1]
  {
    BufferRun(run, actions, depth, i);
  }
}
