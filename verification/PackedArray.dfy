/** Arrays of small entries packed into 32-bit words: the ARRAY32 macros of ddi_macros.h. */
module PackedArray {
  import opened DivMod

  /** A uint32_t as its bits, lowest first. */
  type Word = w: seq<bool> | |w| == 32 witness seq(32, i => false)

  function And(a: Word, b: Word): Word
  {
    seq(32, i requires 0 <= i < 32 => a[i] && b[i])
  }

  function Or(a: Word, b: Word): Word
  {
    seq(32, i requires 0 <= i < 32 => a[i] || b[i])
  }

  function Not(a: Word): Word
  {
    seq(32, i requires 0 <= i < 32 => !a[i])
  }

  /** a << s: bits pushed off the top are lost. */
  function Left(a: Word, s: nat): Word
  {
    seq(32, i requires 0 <= i < 32 => i >= s && a[i - s])
  }

  /** a >> s of an unsigned word. */
  function Right(a: Word, s: nat): Word
  {
    seq(32, i requires 0 <= i < 32 => i + s < 32 && a[i + s])
  }

  function Full(): Word
  {
    seq(32, i => true)
  }

  function Zero(): Word
  {
    seq(32, i => false)
  }

  /** The number a string of bits stands for. */
  function Value(bits: seq<bool>): nat
  {
    if bits == [] then 0 else (if bits[0] then 1 else 0) + 2 * Value(bits[1..])
  }

  function Pow2(e: nat): (p: nat)
    ensures p > 0
  {
    if e == 0 then 1 else 2 * Pow2(e - 1)
  }

  predicate IsEntrySize(e: nat)
  {
    1 <= e <= 32
  }

  /** ARRAY32_SHIFT */
  function ShiftOf(e: nat, i: nat): nat
    requires IsEntrySize(e)
  {
    Nonzero(e);
    (e * i) % (e * (32 / e))
  }

  /** ARRAY32_INDEX */
  function IndexOf(e: nat, i: nat): nat
    requires IsEntrySize(e)
  {
    i / (32 / e)
  }

  /** ARRAY32_SIZE */
  function SizeOf(e: nat, count: nat): nat
    requires IsEntrySize(e)
  {
    (count + (32 / e - 1)) / (32 / e)
  }

  /** ARRAY32_SHIFT where entrysize * index is computed in a type of `width`
      values, 2^32 for a uint32_t index. */
  function ShiftIn(width: nat, e: nat, i: nat): nat
    requires width > 0 && IsEntrySize(e)
  {
    Nonzero(e);
    (e * i) % width % (e * (32 / e))
  }

  /** The bits an entry may hold, as a value and in its place: ARRAY32_MASK. */
  function Low(e: nat): Word
    requires IsEntrySize(e)
  {
    Right(Full(), 32 - e)
  }

  function MaskOf(e: nat, i: nat): Word
    requires IsEntrySize(e)
  {
    Left(Low(e), ShiftOf(e, i))
  }

  lemma Nonzero(e: nat)
    requires IsEntrySize(e)
    ensures 32 / e >= 1 && 1 <= e * (32 / e) <= 32
  {
    var m := 32 / e;
    assert e * m <= 32 && m >= 1;
  }

  /** Entries fill each word from its low end, as many as fit whole; none straddles two words. */
  lemma Layout(e: nat, i: nat)
    requires IsEntrySize(e)
    ensures ShiftOf(e, i) == e * (i % (32 / e))
    ensures ShiftOf(e, i) + e <= 32
  {
    var m := 32 / e;
    var q, r := i / m, i % m;
    Nonzero(e);
    assert e * i == (e * m) * q + e * r by {
      assert i == m * q + r;
      assert e * (m * q + r) == e * (m * q) + e * r;
      assert e * (m * q) == (e * m) * q;
    }
    Spread(e, r, m);
    ModUnique(e * i, e * m, q, e * r);
  }

  lemma Spread(e: nat, r: nat, t: nat)
    requires r < t
    ensures e * r + e <= e * t
  {
    var d := t - r - 1;
    assert e * d >= 0;
    assert e * t == e * (r + 1 + d);
    assert e * (r + 1 + d) == e * r + e + e * d;
  }

  lemma QuotientGrows(i: nat, k: nat, m: nat)
    requires i <= k && m > 0
    ensures i / m <= k / m
  {
    var d := i / m - k / m;
    assert i == m * (i / m) + i % m && k == m * (k / m) + k % m;
    assert m * (i / m) - m * (k / m) == m * d;
    assert d >= 1 ==> m * d >= m;
  }

  /** Every entry lies within an array of ARRAY32_SIZE words, and that is no more words than needed. */
  lemma IndexInSize(e: nat, count: nat, i: nat)
    requires IsEntrySize(e) && i < count
    ensures IndexOf(e, i) < SizeOf(e, count) == IndexOf(e, count - 1) + 1
  {
    var m := 32 / e;
    Nonzero(e);
    var q, r := (count - 1) / m, (count - 1) % m;
    assert count + (m - 1) == m * (q + 1) + r;
    ModUnique(count + (m - 1), m, q + 1, r);
    QuotientGrows(i, count - 1, m);
  }

  /** ARRAY32_SIZE is the least number of words with room for every entry. */
  lemma SizeIsLeast(e: nat, count: nat, n: nat)
    requires IsEntrySize(e)
    ensures SizeOf(e, count) <= n <==> count <= (32 / e) * n
  {
    Nonzero(e);
    RoundedUp(count, 32 / e, SizeOf(e, count), n);
  }

  lemma RoundedUp(x: nat, m: nat, q: nat, n: nat)
    requires m > 0 && q == (x + m - 1) / m
    ensures q <= n <==> x <= m * n
  {
    var y := x + m - 1;
    assert y == m * q + y % m;
    var d: int := n - q;
    assert m * n == m * q + m * d;
    assert d >= 0 ==> m * d >= 0;
    assert d <= -1 ==> m * d + m <= 0;
  }

  lemma SameQuotient(i: nat, j: nat, m: nat)
    requires m > 0 && i < j && i / m == j / m
    ensures i % m < j % m
  {
    assert i == m * (i / m) + i % m && j == m * (j / m) + j % m;
  }

  /** The macro's shift is the entry's if and only if what the product loses by
      wrapping is a whole number of words' worth of entry bits. */
  lemma ShiftWrapsIff(width: nat, e: nat, i: nat)
    requires width > 0 && IsEntrySize(e)
    ensures e * (32 / e) > 0
    ensures ShiftIn(width, e, i) == ShiftOf(e, i) <==> (width * (e * i / width)) % (e * (32 / e)) == 0
  {
    Nonzero(e);
    var m := e * (32 / e);
    var x, lost, kept := e * i, width * (e * i / width), e * i % width;
    assert x == lost + kept;
    var a, b := lost / m, kept / m;
    assert lost == m * a + lost % m && kept == m * b + kept % m;
    var r := lost % m + kept % m;
    if r < m {
      assert x == m * (a + b) + r;
      ModUnique(x, m, a + b, r);
    } else {
      assert x == m * (a + b + 1) + (r - m);
      ModUnique(x, m, a + b + 1, r - m);
    }
  }

  lemma NoWrapIsHarmless(width: nat, e: nat, i: nat)
    requires width > 0 && IsEntrySize(e) && e * i < width
    ensures ShiftIn(width, e, i) == ShiftOf(e, i)
  {
    ModUnique(e * i, width, 0, e * i);
  }

  /** Sizes that divide 32 evenly never mind the wrap of a width that is a
      multiple of 32. */
  lemma EvenSizesNeverMind(words: nat, e: nat, i: nat)
    requires words > 0 && IsEntrySize(e) && e * (32 / e) == 32
    ensures ShiftIn(32 * words, e, i) == ShiftOf(e, i)
  {
    ShiftWrapsIff(32 * words, e, i);
    var q := e * i / (32 * words);
    assert 32 * words * q == 32 * (words * q);
    ModUnique(32 * (words * q), 32, words * q, 0);
  }

  /** Entries of 3 bits behind a 32-bit index: at the first product that wraps
      the macro reaches into two other entries. */
  lemma ThreeBitsWrap()
    ensures var i := 1_431_655_766;
      ShiftOf(3, i) == 18 && ShiftIn(0x1_0000_0000, 3, i) == 2
  {
  }

  /** Two entries of one word do not overlap. */
  lemma Apart(e: nat, i: nat, j: nat)
    requires IsEntrySize(e) && i < j && IndexOf(e, i) == IndexOf(e, j)
    ensures ShiftOf(e, i) + e <= ShiftOf(e, j)
  {
    Nonzero(e);
    Layout(e, i);
    Layout(e, j);
    SameQuotient(i, j, 32 / e);
    Spread(e, i % (32 / e), j % (32 / e));
  }

  /** ARRAY32_GET_ENTRY on the word an entry lies in. */
  function Field(w: Word, e: nat, s: nat): Word
    requires IsEntrySize(e)
  {
    Right(And(w, Left(Low(e), s)), s)
  }

  /** ARRAY32_SET_ENTRY on the word an entry lies in. */
  function Update(w: Word, e: nat, s: nat, v: Word): Word
    requires IsEntrySize(e)
  {
    var m := Left(Low(e), s);
    Or(And(w, Not(m)), And(Left(v, s), m))
  }

  /** A value cut to the entry size. */
  function Cut(v: Word, e: nat): Word
    requires IsEntrySize(e)
  {
    And(v, Low(e))
  }

  /** The bits of an entry are those of the word from the shift on. */
  lemma FieldBits(w: Word, e: nat, s: nat)
    requires IsEntrySize(e) && s + e <= 32
    ensures forall k :: 0 <= k < 32 ==> Field(w, e, s)[k] == (k < e && w[k + s])
  {
  }

  /** Storing an entry changes its bits and no others, not even those of a
      word that belong to no entry. */
  lemma UpdateBits(w: Word, e: nat, s: nat, v: Word)
    requires IsEntrySize(e) && s + e <= 32
    ensures forall k :: 0 <= k < 32 ==> Update(w, e, s, v)[k] == if s <= k < s + e then v[k - s] else w[k]
  {
  }

  /** Storing an entry and reading that one, or another one of the same word. */
  lemma UpdateThenField(w: Word, e: nat, s: nat, v: Word, t: nat)
    requires IsEntrySize(e) && s + e <= 32 && t + e <= 32 && (s == t || s + e <= t || t + e <= s)
    ensures Field(Update(w, e, s, v), e, t) == if s == t then Cut(v, e) else Field(w, e, t)
  {
    FieldBits(Update(w, e, s, v), e, t);
    FieldBits(w, e, t);
  }

  /** Entry i as ARRAY32_GET_ENTRY reads it. */
  function Get(a: seq<Word>, e: nat, i: nat): Word
    requires IsEntrySize(e) && IndexOf(e, i) < |a|
  {
    Field(a[IndexOf(e, i)], e, ShiftOf(e, i))
  }

  predicate Holds(a: seq<Word>, e: nat, count: nat)
  {
    IsEntrySize(e) && |a| >= SizeOf(e, count)
  }

  /** What a packed array stands for: the plain sequence of its entries. */
  ghost function Entries(a: seq<Word>, e: nat, count: nat): (r: seq<Word>)
    requires Holds(a, e, count)
    ensures |r| == count
    ensures forall i :: 0 <= i < count ==> IndexOf(e, i) < |a| && r[i] == Get(a, e, i)
  {
    assert forall i: nat :: i < count ==> IndexOf(e, i) < |a| by {
      forall i: nat | i < count ensures IndexOf(e, i) < |a| { IndexInSize(e, count, i); }
    }
    seq(count, i requires 0 <= i < count => Get(a, e, i))
  }

  /** Where an entry lies: with m = 32 / e entries in a word, entry m * q + r
      is the e bits from e * r on of word q. */
  lemma EntryBits(a: seq<Word>, e: nat, count: nat, i: nat, q: nat, r: nat)
    requires Holds(a, e, count) && i < count && r < 32 / e && i == (32 / e) * q + r
    ensures q == IndexOf(e, i) < |a| && e * r == ShiftOf(e, i) <= 32 - e
    ensures forall k :: 0 <= k < e ==> Entries(a, e, count)[i][k] == a[q][k + e * r]
    ensures forall k :: e <= k < 32 ==> !Entries(a, e, count)[i][k]
  {
    ModUnique(i, 32 / e, q, r);
    Layout(e, i);
    IndexInSize(e, count, i);
    FieldBits(a[q], e, ShiftOf(e, i));
  }

  /** Updating the word of entry i replaces that entry, cut to the entry size, and no other entry of any word. */
  lemma SetEntries(a: seq<Word>, b: seq<Word>, e: nat, count: nat, i: nat, v: Word)
    requires Holds(a, e, count) && i < count && IndexOf(e, i) < |a|
    requires var k := IndexOf(e, i); b == a[k := Update(a[k], e, ShiftOf(e, i), v)]
    ensures Entries(b, e, count) == Entries(a, e, count)[i := Cut(v, e)]
  {
    Layout(e, i);
    forall j | 0 <= j < count ensures Entries(b, e, count)[j] == Entries(a, e, count)[i := Cut(v, e)][j] {
      Layout(e, j);
      if IndexOf(e, j) == IndexOf(e, i) {
        if i < j { Apart(e, i, j); }
        if j < i { Apart(e, j, i); }
        UpdateThenField(a[IndexOf(e, i)], e, ShiftOf(e, i), v, ShiftOf(e, j));
      }
    }
  }

  lemma LowBitApart(low: nat, x: nat, p: nat)
    requires low < 2 && p > 0
    ensures (low + 2 * x) % (2 * p) == low + 2 * (x % p)
  {
    assert x == p * (x / p) + x % p;
    assert (2 * p) * (x / p) == 2 * (p * (x / p));
    ModUnique(low + 2 * x, 2 * p, x / p, low + 2 * (x % p));
  }

  /** Bits are binary digits, lowest first. */
  lemma {:induction false} ValueIsBinary(bits: seq<bool>, k: nat)
    requires k <= |bits|
    ensures Value(bits) == Value(bits[..k]) + Pow2(k) * Value(bits[k..])
  {
    if k > 0 {
      ValueIsBinary(bits[1..], k - 1);
      assert bits[..k][1..] == bits[1..][..k - 1] && bits[1..][k - 1..] == bits[k..];
      Doubled(Pow2(k - 1), Value(bits[k..]));
    } else {
      assert bits[0..] == bits;
    }
  }

  lemma Doubled(p: nat, x: nat)
    ensures 2 * (p * x) == 2 * p * x
  {
  }

  lemma OneBit(b: bool, e: nat)
    ensures Value([b]) == (if b then 1 else 0) && Pow2(0) == 1 && Pow2(e + 1) == 2 * Pow2(e)
  {
    assert [b][1..] == [];
  }

  lemma {:induction false} NoBits(cut: seq<bool>)
    requires forall k :: 0 <= k < |cut| ==> !cut[k]
    ensures Value(cut) == 0
  {
    if cut != [] { NoBits(cut[1..]); }
  }

  lemma {:induction false} CutBits(bits: seq<bool>, cut: seq<bool>, e: nat)
    requires |cut| == |bits| && forall k :: 0 <= k < |bits| ==> cut[k] == (k < e && bits[k])
    ensures Value(cut) == Value(bits) % Pow2(e)
  {
    if e == 0 || bits == [] {
      NoBits(cut);
      assert bits == [] ==> Value(bits) == 0;
    } else {
      CutBits(bits[1..], cut[1..], e - 1);
      LowBitApart(if bits[0] then 1 else 0, Value(bits[1..]), Pow2(e - 1));
    }
  }

  /** Cutting to e bits is the remainder by two to the e; so a value that fits is stored whole. */
  lemma CutIsRemainder(v: Word, e: nat)
    requires IsEntrySize(e)
    ensures Value(Cut(v, e)) == Value(v) % Pow2(e)
  {
    CutBits(v, Cut(v, e), e);
  }

  method GetEntry(a: array<Word>, e: nat, i: nat, ghost count: nat) returns (v: Word)
    requires Holds(a[..], e, count) && i < count
    ensures v == Entries(a[..], e, count)[i]
  {
    IndexInSize(e, count, i);
    v := Right(And(a[IndexOf(e, i)], MaskOf(e, i)), ShiftOf(e, i));
  }

  method SetEntry(a: array<Word>, e: nat, i: nat, v: Word, ghost count: nat)
    requires Holds(a[..], e, count) && i < count
    modifies a
    ensures Entries(a[..], e, count) == old(Entries(a[..], e, count))[i := Cut(v, e)]
    ensures forall k :: 0 <= k < a.Length && k != IndexOf(e, i) ==> a[k] == old(a[k])
  {
    IndexInSize(e, count, i);
    ghost var s := a[..];
    a[IndexOf(e, i)] := Or(And(a[IndexOf(e, i)], Not(MaskOf(e, i))), And(Left(v, ShiftOf(e, i)), MaskOf(e, i)));
    SetEntries(s, a[..], e, count, i, v);
  }

  method ClearEntry(a: array<Word>, e: nat, i: nat, ghost count: nat)
    requires Holds(a[..], e, count) && i < count
    modifies a
    ensures Entries(a[..], e, count) == old(Entries(a[..], e, count))[i := Zero()]
    ensures forall k :: 0 <= k < a.Length && k != IndexOf(e, i) ==> a[k] == old(a[k])
  {
    IndexInSize(e, count, i);
    ghost var s := a[..];
    a[IndexOf(e, i)] := And(a[IndexOf(e, i)], Not(MaskOf(e, i)));
    assert a[IndexOf(e, i)] == Update(s[IndexOf(e, i)], e, ShiftOf(e, i), Zero());
    assert Cut(Zero(), e) == Zero();
    SetEntries(s, a[..], e, count, i, Zero());
  }
}
