/** The 32-bit control word of a ddi_queue_t: four 8-bit fields that are
    always replaced together by one compare-exchange. */
module ControlWord {
  import opened Wrappers

  datatype Word = Word(depth: nat, idxIn: nat, idxOut: nat, count: nat)

  /** What a value becomes when it is stored in an 8-bit field. */
  function Byte(x: int): (b: nat)
  {
    x % 256
  }

  /** Both indices start at the last slot; a depth above 255 does not fit. */
  function InitialWord(depth: nat): (w: Word)
    ensures 1 <= depth <= 255 ==> Consistent(w) && w.count == 0 && w.idxIn == w.idxOut == depth - 1
    ensures w.depth == depth <==> depth <= 255
  {
    Word(Byte(depth), Byte(depth - 1), Byte(depth - 1), 0)
  }

  /** The word a producer wants to install, given its snapshot of the old one
      and the depth it re-reads for the modulus. */
  function EnqueueDesired(expected: Word, depth: nat): Word
    requires depth > 0
  {
    expected.(idxIn := Byte((expected.idxIn + 1) % depth), count := Byte(expected.count + 1))
  }

  function DequeueDesired(expected: Word, depth: nat): Word
    requires depth > 0
  {
    expected.(idxOut := Byte((expected.idxOut + 1) % depth), count := Byte(expected.count - 1))
  }

  /** i reduced into a ring of the given depth, for i below twice the depth. */
  function Wrap(i: nat, depth: nat): nat
  {
    if i < depth then i else i - depth
  }

  predicate Consistent(w: Word)
  {
    && 1 <= w.depth <= 255
    && w.idxIn < w.depth
    && w.idxOut < w.depth
    && w.count <= w.depth
    && w.idxIn == Wrap(w.idxOut + w.count, w.depth)
  }

  /** The ring relation is the modular one. */
  lemma RingPosition(w: Word)
    requires Consistent(w)
    ensures w.idxIn == (w.idxOut + w.count) % w.depth
  {
    ModIsWrap(w.idxOut + w.count, w.depth);
  }

  /** Neither index nor count ever wraps its 8 bits: the installed word is the
      true successor of the word it replaces. */
  lemma EnqueueIsSuccessor(w: Word)
    requires Consistent(w) && w.count < w.depth
    ensures EnqueueDesired(w, w.depth) == w.(idxIn := Wrap(w.idxIn + 1, w.depth), count := w.count + 1)
    ensures Consistent(EnqueueDesired(w, w.depth))
  {
    ModIsWrap(w.idxIn + 1, w.depth);
  }

  lemma DequeueIsSuccessor(w: Word)
    requires Consistent(w) && w.count > 0
    ensures DequeueDesired(w, w.depth) == w.(idxOut := Wrap(w.idxOut + 1, w.depth), count := w.count - 1)
    ensures Consistent(DequeueDesired(w, w.depth))
  {
    ModIsWrap(w.idxOut + 1, w.depth);
  }

  lemma ModIsWrap(i: nat, depth: nat)
    requires i < 2 * depth
    ensures i % depth == Wrap(i, depth)
  {
    if i >= depth {
      assert i == depth * 1 + (i - depth);
    }
  }

  /** Two ring positions less than one lap apart are different slots. */
  lemma WrapInjective(base: nat, i: nat, j: nat, depth: nat)
    requires base < depth && i < j < depth + i && j <= depth
    ensures Wrap(base + i, depth) != Wrap(base + j, depth)
  {
  }

  /** A snapshot of the word that is taken one volatile field at a time, in
      any order, while the other thread keeps running. */
  datatype Field = Depth | IdxIn | IdxOut | Count

  datatype Snapshot = Snapshot(depth: Option<nat>, idxIn: Option<nat>, idxOut: Option<nat>, count: Option<nat>)

  const NOTHING_READ := Snapshot(None, None, None, None)

  function ReadField(sn: Snapshot, f: Field, w: Word): Snapshot
  {
    match f
    case Depth => if sn.depth.Some? then sn else sn.(depth := Some(w.depth))
    case IdxIn => if sn.idxIn.Some? then sn else sn.(idxIn := Some(w.idxIn))
    case IdxOut => if sn.idxOut.Some? then sn else sn.(idxOut := Some(w.idxOut))
    case Count => if sn.count.Some? then sn else sn.(count := Some(w.count))
  }

  predicate Complete(sn: Snapshot)
  {
    sn.depth.Some? && sn.idxIn.Some? && sn.idxOut.Some? && sn.count.Some?
  }

  function WordOf(sn: Snapshot): Word
    requires Complete(sn)
  {
    Word(sn.depth.value, sn.idxIn.value, sn.idxOut.value, sn.count.value)
  }

  /** Some field already read no longer has the value that was read. */
  predicate Torn(sn: Snapshot, w: Word)
  {
    || (sn.depth.Some? && sn.depth.value != w.depth)
    || (sn.idxIn.Some? && sn.idxIn.value != w.idxIn)
    || (sn.idxOut.Some? && sn.idxOut.value != w.idxOut)
    || (sn.count.Some? && sn.count.value != w.count)
  }
}
