/** The Base64 decoder and the round trip. */
module Base64Decoder {
  import opened Wrappers
  import opened Base64

  /** The characters the decoder looks at: the alphabet and '='. */
  function Significant(a: Alphabet, src: seq<bv8>): seq<bv8>
  {
    if src == [] then []
    else (if DecodeChar(a, src[0]) != INVALID then [src[0]] else []) + Significant(a, src[1..])
  }

  lemma {:induction false} SignificantAppend(a: Alphabet, x: seq<bv8>, y: seq<bv8>)
    ensures Significant(a, x + y) == Significant(a, x) + Significant(a, y)
  {
    if x == [] {
      assert x + y == y;
    } else {
      SignificantAppend(a, x[1..], y);
      assert (x + y)[1..] == x[1..] + y;
      Assoc(if DecodeChar(a, x[0]) != INVALID then [x[0]] else [], Significant(a, x[1..]), Significant(a, y));
    }
  }

  function Pads(s: seq<bv8>): nat
  {
    if s == [] then 0 else (if s[0] == PAD then 1 else 0) + Pads(s[1..])
  }

  function Decode4(a: Alphabet, s: seq<bv8>): (r: seq<bv8>)
    requires |s| == 4
    ensures |r| == 3
  {
    var b0, b1, b2, b3 := DecodeChar(a, s[0]), DecodeChar(a, s[1]), DecodeChar(a, s[2]), DecodeChar(a, s[3]);
    [(b0 << 2) | (b1 >> 4), (b1 << 4) | (b2 >> 2), (b2 << 6) | b3]
  }

  /** Quartet by quartet, up to and including the first one with a '='. */
  function DecodeQuartets(a: Alphabet, s: seq<bv8>): Option<seq<bv8>>
    decreases |s|
  {
    if |s| < 4 then Some([])
    else
      var pads := Pads(s[..4]);
      if pads > 2 then None
      else if pads > 0 then Some(Decode4(a, s[..4])[..3 - pads])
      else
        match DecodeQuartets(a, s[4..])
        case None => None
        case Some(rest) => Some(Decode4(a, s[..4]) + rest)
  }

  function MissingPad(n: nat): nat
  {
    (4 - n % 4) % 4
  }

  function PadRun(n: nat): (r: seq<bv8>)
    ensures |r| == n
  {
    seq(n, _ => PAD)
  }

  /** What base64_gen_decode returns, as a function of its significant input. */
  function DecodeText(a: Alphabet, src: seq<bv8>): Option<seq<bv8>>
  {
    var s := Significant(a, src);
    if s == [] then None else DecodeQuartets(a, s + PadRun(MissingPad(|s|)))
  }

  /** Whatever other characters are inserted or deleted anywhere, the result
      stays. */
  lemma JunkIsIgnored(a: Alphabet, x: seq<bv8>, junk: seq<bv8>, y: seq<bv8>)
    requires forall i :: 0 <= i < |junk| ==> !IsKnown(a, junk[i] as char)
    ensures DecodeText(a, x + junk + y) == DecodeText(a, x + y)
  {
    SignificantAppend(a, x + junk, y);
    SignificantAppend(a, x, junk);
    SignificantAppend(a, x, y);
    NothingSignificant(a, junk);
    assert Significant(a, x) + [] == Significant(a, x);
  }

  lemma {:induction false} NothingSignificant(a: Alphabet, junk: seq<bv8>)
    requires forall i :: 0 <= i < |junk| ==> !IsKnown(a, junk[i] as char)
    ensures Significant(a, junk) == []
  {
    if junk != [] {
      DecodesAlphabet(a, junk[0]);
      NothingSignificant(a, junk[1..]);
    }
  }

  /** Decoding is refused exactly when there is nothing significant, or when
      the first quartet with a '=' has more than two of them. */
  lemma {:induction false} QuartetsFailIff(a: Alphabet, s: seq<bv8>)
    ensures DecodeQuartets(a, s).None? <==>
            exists k: nat :: 4 * k + 4 <= |s| && Pads(s[..4 * k]) == 0 && Pads(s[4 * k..4 * k + 4]) > 2
    decreases |s|
  {
    if |s| >= 4 {
      var rest := s[4..];
      QuartetsFailIff(a, rest);
      if Pads(s[..4]) > 2 {
        assert s[..4 * 0] == [] && s[4 * 0..4 * 0 + 4] == s[..4];
      }
      if DecodeQuartets(a, s).None? && Pads(s[..4]) == 0 {
        var k: nat :| 4 * k + 4 <= |rest| && Pads(rest[..4 * k]) == 0 && Pads(rest[4 * k..4 * k + 4]) > 2;
        NextQuartet(s, k);
        assert Pads(s[..4 * (k + 1)]) == 0 && Pads(s[4 * (k + 1)..4 * (k + 1) + 4]) > 2;
      }
      if k: nat :| 4 * k + 4 <= |s| && Pads(s[..4 * k]) == 0 && Pads(s[4 * k..4 * k + 4]) > 2 {
        if k == 0 {
          assert s[4 * 0..4 * 0 + 4] == s[..4];
        } else {
          NextQuartet(s, k - 1);
          assert Pads(rest[..4 * (k - 1)]) == 0 && Pads(rest[4 * (k - 1)..4 * (k - 1) + 4]) > 2;
        }
      }
    }
  }

  /** A quartet of s is one of the rest, four characters on. */
  lemma NextQuartet(s: seq<bv8>, k: nat)
    requires 4 * k + 8 <= |s|
    ensures Pads(s[..4 * (k + 1)]) == Pads(s[..4]) + Pads(s[4..][..4 * k])
    ensures s[4 * (k + 1)..4 * (k + 1) + 4] == s[4..][4 * k..4 * k + 4]
  {
    PadsAppend(s[..4], s[4..][..4 * k]);
    assert s[..4 * (k + 1)] == s[..4] + s[4..][..4 * k];
  }

  lemma {:induction false} PadsAppend(x: seq<bv8>, y: seq<bv8>)
    ensures Pads(x + y) == Pads(x) + Pads(y)
  {
    if x == [] {
      assert x + y == y;
    } else {
      PadsAppend(x[1..], y);
      assert (x + y)[1..] == x[1..] + y;
    }
  }

  // ---- The round trip ----------------------------------------------------

  lemma BlockBits(x: bv8, y: bv8, z: bv8)
    ensures var b0, b1 := (x >> 2) & 0x3f, (((x & 0x03) << 4) | (y >> 4)) & 0x3f;
      var b2, b3 := (((y & 0x0f) << 2) | (z >> 6)) & 0x3f, z & 0x3f;
      (b0 << 2) | (b1 >> 4) == x && (b1 << 4) | (b2 >> 2) == y && (b2 << 6) | b3 == z
  {
  }

  lemma BlockRoundTrip(a: Alphabet, x: bv8, y: bv8, z: bv8)
    ensures Decode4(a, Block3(a, x, y, z)) == [x, y, z]
  {
    CharRoundTrip(a, (x >> 2) & 0x3f);
    CharRoundTrip(a, (((x & 0x03) << 4) | (y >> 4)) & 0x3f);
    CharRoundTrip(a, (((y & 0x0f) << 2) | (z >> 6)) & 0x3f);
    CharRoundTrip(a, z & 0x3f);
    BlockBits(x, y, z);
  }

  /** A block of characters stands for the bits of its three bytes in order. */
  lemma BlockKeepsBits(a: Alphabet, x: bv8, y: bv8, z: bv8) returns (b0: bv8, b1: bv8, b2: bv8, b3: bv8)
    ensures b0 < 64 && b1 < 64 && b2 < 64 && b3 < 64
    ensures Block3(a, x, y, z) == [EncodeChar(a, b0), EncodeChar(a, b1), EncodeChar(a, b2), EncodeChar(a, b3)]
    ensures ((b0 as bv32) << 18) | ((b1 as bv32) << 12) | ((b2 as bv32) << 6) | (b3 as bv32)
         == ((x as bv32) << 16) | ((y as bv32) << 8) | (z as bv32)
  {
    b0, b1 := (x >> 2) & 0x3f, (((x & 0x03) << 4) | (y >> 4)) & 0x3f;
    b2, b3 := (((y & 0x0f) << 2) | (z >> 6)) & 0x3f, z & 0x3f;
  }

  /** And a quartet of characters is decoded to the bits of its values in
      order. */
  lemma QuartetKeepsBits(a: Alphabet, s: seq<bv8>)
    requires |s| == 4 && forall i :: 0 <= i < 4 ==> DecodeChar(a, s[i]) < 64
    ensures var r := Decode4(a, s);
      ((r[0] as bv32) << 16) | ((r[1] as bv32) << 8) | (r[2] as bv32)
      == ((DecodeChar(a, s[0]) as bv32) << 18) | ((DecodeChar(a, s[1]) as bv32) << 12)
         | ((DecodeChar(a, s[2]) as bv32) << 6) | (DecodeChar(a, s[3]) as bv32)
  {
    QuartetBits(DecodeChar(a, s[0]), DecodeChar(a, s[1]), DecodeChar(a, s[2]), DecodeChar(a, s[3]));
  }

  lemma QuartetBits(b0: bv8, b1: bv8, b2: bv8, b3: bv8)
    requires b0 < 64 && b1 < 64 && b2 < 64 && b3 < 64
    ensures var x, y, z := (b0 << 2) | (b1 >> 4), (b1 << 4) | (b2 >> 2), (b2 << 6) | b3;
      ((x as bv32) << 16) | ((y as bv32) << 8) | (z as bv32)
      == ((b0 as bv32) << 18) | ((b1 as bv32) << 12) | ((b2 as bv32) << 6) | (b3 as bv32)
  {
  }

  /** The last byte, or the last two, are encoded as if zeros followed, and
      padded to a quartet or cut. */
  lemma TailOfOne(a: Alphabet, x: bv8, zero: bv8, pad: bool)
    requires zero == 0
    ensures var t, b := Tail(a, [x], pad), Block3(a, x, zero, zero);
      |t| == (if pad then 4 else 2) && t[0] == b[0] && t[1] == b[1] && (pad ==> t[2] == t[3] == PAD)
  {
    assert (((x & 0x03) << 4) | (zero >> 4)) & 0x3f == ((x & 0x03) << 4) & 0x3f;
  }

  lemma TailOfTwo(a: Alphabet, x: bv8, y: bv8, zero: bv8, pad: bool)
    requires zero == 0
    ensures var t, b := Tail(a, [x, y], pad), Block3(a, x, y, zero);
      |t| == (if pad then 4 else 3) && t[0] == b[0] && t[1] == b[1] && t[2] == b[2] && (pad ==> t[3] == PAD)
  {
    assert (((y & 0x0f) << 2) | (zero >> 6)) & 0x3f == ((y & 0x0f) << 2) & 0x3f;
  }

  lemma CharIsKnown(a: Alphabet, i: bv8)
    requires i < 64
    ensures EncodeChar(a, i) != PAD && DecodeChar(a, EncodeChar(a, i)) != INVALID
  {
    CharRoundTrip(a, i);
  }

  lemma BlockIsKnown(a: Alphabet, x: bv8, y: bv8, z: bv8)
    ensures forall i :: 0 <= i < 4 ==> Block3(a, x, y, z)[i] != PAD && DecodeChar(a, Block3(a, x, y, z)[i]) != INVALID
  {
    CharIsKnown(a, (x >> 2) & 0x3f);
    CharIsKnown(a, (((x & 0x03) << 4) | (y >> 4)) & 0x3f);
    CharIsKnown(a, (((y & 0x0f) << 2) | (z >> 6)) & 0x3f);
    CharIsKnown(a, z & 0x3f);
  }

  function IsPad(c: bv8): nat
  {
    if c == PAD then 1 else 0
  }

  lemma PadsOfOne(c: bv8)
    ensures Pads([c]) == IsPad(c)
  {
    assert [c][1..] == [];
  }

  lemma PadsOfFour(s: seq<bv8>)
    requires |s| == 4
    ensures Pads(s) == IsPad(s[0]) + IsPad(s[1]) + IsPad(s[2]) + IsPad(s[3])
  {
    assert s == [s[0]] + ([s[1]] + ([s[2]] + [s[3]]));
    PadsAppend([s[0]], [s[1]] + ([s[2]] + [s[3]]));
    PadsAppend([s[1]], [s[2]] + [s[3]]);
    PadsAppend([s[2]], [s[3]]);
    PadsOfOne(s[0]);
    PadsOfOne(s[1]);
    PadsOfOne(s[2]);
    PadsOfOne(s[3]);
  }

  lemma OneByteTail(a: Alphabet, x: bv8)
    ensures Tail(a, [x], true)
         == [EncodeChar(a, (x >> 2) & 0x3f), EncodeChar(a, ((x & 0x03) << 4) & 0x3f), PAD, PAD]
  {
  }

  lemma TwoByteTail(a: Alphabet, x: bv8, y: bv8)
    ensures Tail(a, [x, y], true)
         == [EncodeChar(a, (x >> 2) & 0x3f), EncodeChar(a, (((x & 0x03) << 4) | (y >> 4)) & 0x3f),
             EncodeChar(a, ((y & 0x0f) << 2) & 0x3f), PAD]
  {
  }

  lemma PadsOfTail(a: Alphabet, b0: bv8, b1: bv8, b2: bv8)
    requires b0 < 64 && b1 < 64 && b2 < 64
    ensures Pads([EncodeChar(a, b0), EncodeChar(a, b1), PAD, PAD]) == 2
    ensures Pads([EncodeChar(a, b0), EncodeChar(a, b1), EncodeChar(a, b2), PAD]) == 1
  {
    CharIsKnown(a, b0);
    CharIsKnown(a, b1);
    CharIsKnown(a, b2);
    PadsOfFour([EncodeChar(a, b0), EncodeChar(a, b1), PAD, PAD]);
    PadsOfFour([EncodeChar(a, b0), EncodeChar(a, b1), EncodeChar(a, b2), PAD]);
  }

  lemma OneByteDecodes(a: Alphabet, x: bv8)
    ensures Decode4(a, [EncodeChar(a, (x >> 2) & 0x3f), EncodeChar(a, ((x & 0x03) << 4) & 0x3f), PAD, PAD])[0] == x
  {
    CharRoundTrip(a, (x >> 2) & 0x3f);
    CharRoundTrip(a, ((x & 0x03) << 4) & 0x3f);
    BlockBits(x, 0, 0);
  }

  lemma TwoBytesDecode(a: Alphabet, x: bv8, y: bv8)
    ensures var r := Decode4(a, [EncodeChar(a, (x >> 2) & 0x3f), EncodeChar(a, (((x & 0x03) << 4) | (y >> 4)) & 0x3f),
                                 EncodeChar(a, ((y & 0x0f) << 2) & 0x3f), PAD]);
      r[0] == x && r[1] == y
  {
    CharRoundTrip(a, (x >> 2) & 0x3f);
    CharRoundTrip(a, (((x & 0x03) << 4) | (y >> 4)) & 0x3f);
    CharRoundTrip(a, ((y & 0x0f) << 2) & 0x3f);
    BlockBits(x, y, 0);
  }

  lemma OneByteRoundTrip(a: Alphabet, x: bv8)
    ensures var t := Tail(a, [x], true);
      |t| == 4 && Pads(t) == 2 && Decode4(a, t)[..1] == [x]
  {
    OneByteTail(a, x);
    PadsOfTail(a, (x >> 2) & 0x3f, ((x & 0x03) << 4) & 0x3f, 0);
    OneByteDecodes(a, x);
  }

  lemma TwoBytesRoundTrip(a: Alphabet, x: bv8, y: bv8)
    ensures var t := Tail(a, [x, y], true);
      |t| == 4 && Pads(t) == 1 && Decode4(a, t)[..2] == [x, y]
  {
    TwoByteTail(a, x, y);
    PadsOfTail(a, (x >> 2) & 0x3f, (((x & 0x03) << 4) | (y >> 4)) & 0x3f, ((y & 0x0f) << 2) & 0x3f);
    TwoBytesDecode(a, x, y);
  }

  lemma TailRoundTrip(a: Alphabet, src: seq<bv8>)
    requires 1 <= |src| <= 2
    ensures |Tail(a, src, true)| == 4 && Pads(Tail(a, src, true)) == 3 - |src|
    ensures Decode4(a, Tail(a, src, true))[..|src|] == src
  {
    if |src| == 1 {
      assert src == [src[0]];
      OneByteRoundTrip(a, src[0]);
    } else {
      assert src == [src[0], src[1]];
      TwoBytesRoundTrip(a, src[0], src[1]);
    }
  }

  lemma {:induction false} QuartetsUndoChars(a: Alphabet, src: seq<bv8>)
    ensures DecodeQuartets(a, Chars(a, src, true)) == Some(src)
  {
    var s := Chars(a, src, true);
    if 1 <= |src| < 3 {
      TailRoundTrip(a, src);
      assert s[..4] == s;
    } else if |src| >= 3 {
      BlockRoundTrip(a, src[0], src[1], src[2]);
      BlockIsKnown(a, src[0], src[1], src[2]);
      var block := Block3(a, src[0], src[1], src[2]);
      assert s[..4] == block && s[4..] == Chars(a, src[3..], true);
      NoPads(block);
      QuartetsUndoChars(a, src[3..]);
      assert src == [src[0], src[1], src[2]] + src[3..];
    }
  }

  lemma {:induction false} NoPads(s: seq<bv8>)
    requires forall i :: 0 <= i < |s| ==> s[i] != PAD
    ensures Pads(s) == 0
  {
    if s != [] {
      NoPads(s[1..]);
    }
  }

  lemma BlockSignificant(a: Alphabet, x: bv8, y: bv8, z: bv8)
    ensures Significant(a, Block3(a, x, y, z)) == Block3(a, x, y, z)
  {
    BlockRoundTrip(a, x, y, z);
    AllSignificant(a, Block3(a, x, y, z));
  }

  lemma FeedSkipped(a: Alphabet, block: seq<bv8>, rest: seq<bv8>)
    requires Significant(a, block) == block
    ensures Significant(a, block + rest) == block + Significant(a, rest)
    ensures Significant(a, block + ([LF] + rest)) == block + Significant(a, rest)
  {
    assert Significant(a, [LF]) == [];
    SignificantAppend(a, [LF], rest);
    SignificantAppend(a, block, rest);
    SignificantAppend(a, block, [LF] + rest);
    assert [] + Significant(a, rest) == Significant(a, rest);
  }

  /** The line feeds are all the decoder skips in an encoding. */
  lemma {:induction false} SignificantOfEncoded(a: Alphabet, src: seq<bv8>, pad: bool, line: nat)
    ensures Significant(a, Encoded(a, src, pad, line)) == Chars(a, src, pad)
  {
    if src == [] {
      FeedSkipped(a, [], []);
      assert [] + ([LF] + []) == [LF];
    } else if |src| < 3 {
      TailSignificant(a, src, pad);
      FeedSkipped(a, Tail(a, src, pad), []);
      assert [LF] + [] == [LF];
    } else {
      var next := if pad && line + 4 >= 72 then 0 else line + 4;
      BlockSignificant(a, src[0], src[1], src[2]);
      SignificantOfEncoded(a, src[3..], pad, next);
      FeedSkipped(a, Block3(a, src[0], src[1], src[2]), Encoded(a, src[3..], pad, next));
    }
  }

  lemma {:induction false} AllSignificant(a: Alphabet, s: seq<bv8>)
    requires forall i :: 0 <= i < |s| ==> DecodeChar(a, s[i]) != INVALID
    ensures Significant(a, s) == s
  {
    if s != [] {
      AllSignificant(a, s[1..]);
      assert s == [s[0]] + s[1..];
    }
  }

  lemma TailSignificant(a: Alphabet, src: seq<bv8>, pad: bool)
    requires 1 <= |src| <= 2
    ensures Significant(a, Tail(a, src, pad)) == Tail(a, src, pad)
  {
    CharRoundTrip(a, (src[0] >> 2) & 0x3f);
    if |src| == 1 {
      CharRoundTrip(a, ((src[0] & 0x03) << 4) & 0x3f);
    } else {
      CharRoundTrip(a, (((src[0] & 0x03) << 4) | (src[1] >> 4)) & 0x3f);
      CharRoundTrip(a, ((src[1] & 0x0f) << 2) & 0x3f);
    }
    AllSignificant(a, Tail(a, src, pad));
  }

  lemma BlockPadded(block: seq<bv8>, rest: seq<bv8>)
    requires |block| == 4
    ensures block + rest + PadRun(MissingPad(|block + rest|)) == block + (rest + PadRun(MissingPad(|rest|)))
  {
    assert MissingPad(4 + |rest|) == MissingPad(|rest|);
    Assoc(block, rest, PadRun(MissingPad(|rest|)));
  }

  lemma TailPadded(a: Alphabet, src: seq<bv8>, pad: bool)
    requires 1 <= |src| <= 2
    ensures Tail(a, src, pad) + PadRun(MissingPad(|Tail(a, src, pad)|)) == Tail(a, src, true)
  {
    var t := Tail(a, src, pad);
    assert PadRun(0) == [] && PadRun(1) == [PAD] && PadRun(2) == [PAD, PAD];
    if pad {
      assert t + [] == t;
    } else {
      assert Tail(a, src, true) == t + if |src| == 1 then [PAD, PAD] else [PAD];
    }
  }

  /** The decoder supplies exactly the padding the encoder left out. */
  lemma {:induction false} PaddingRestored(a: Alphabet, src: seq<bv8>, pad: bool)
    ensures Chars(a, src, pad) + PadRun(MissingPad(|Chars(a, src, pad)|)) == Chars(a, src, true)
  {
    if |src| >= 3 {
      BlockPadded(Block3(a, src[0], src[1], src[2]), Chars(a, src[3..], pad));
      PaddingRestored(a, src[3..], pad);
    } else if src != [] {
      TailPadded(a, src, pad);
    } else {
      assert [] + PadRun(0) == [];
    }
  }

  /** Decode inverts encode, for both alphabets, with padding and line feeds or
      without, exactly for the nonempty byte strings. */
  lemma DecodeInvertsEncodeIff(a: Alphabet, src: seq<bv8>, pad: bool)
    ensures DecodeText(a, Encoded(a, src, pad, 0)) == Some(src) <==> src != []
  {
    SignificantOfEncoded(a, src, pad, 0);
    PaddingRestored(a, src, pad);
    QuartetsUndoChars(a, src);
    assert src != [] ==> Chars(a, src, pad) != [];
  }

  // ---- The decoder's loops -----------------------------------------------

  function Prepend(done: seq<bv8>, rest: Option<seq<bv8>>): Option<seq<bv8>>
  {
    if rest.None? then None else Some(done + rest.value)
  }

  /** The values of a partly filled block stand for the characters in it. */
  ghost predicate Loaded(a: Alphabet, block: array<bv8>, chars: seq<bv8>)
    reads block
  {
    |chars| <= 4 == block.Length && forall j :: 0 <= j < |chars| ==> block[j] == DecodeChar(a, chars[j])
  }

  /** The first loop: how many characters count. */
  method CountSignificant(a: Alphabet, src: seq<bv8>) returns (count: nat)
    ensures count == |Significant(a, src)|
  {
    count := 0;
    for i := 0 to |src|
      invariant count + |Significant(a, src[i..])| == |Significant(a, src)|
    {
      assert src[i..][1..] == src[i + 1..];
      if DecodeChar(a, src[i]) != INVALID {
        count := count + 1;
      }
    }
  }

  /** What holds between two characters: whole quartets without padding are
      decoded, the characters since are in the block, `left` quartets are still
      to be completed, and decoding the rest gives the result. */
  ghost predicate Midway(a: Alphabet, out: array<bv8>, pos: nat, block: array<bv8>, pad: nat, left: nat,
                         chars: seq<bv8>, rest: seq<bv8>, goal: Option<seq<bv8>>)
    reads out, block
  {
    && |chars| < 4 && Loaded(a, block, chars) && pad == Pads(chars)
    && |chars| + |rest| == 4 * left && pos + 3 * left == out.Length
    && goal == Prepend(out[..pos], DecodeQuartets(a, chars + rest))
  }

  lemma LoadedDecodes(a: Alphabet, block: array<bv8>, chars: seq<bv8>)
    requires |chars| == 4 && Loaded(a, block, chars)
    ensures Decode4(a, chars) ==
      [(block[0] << 2) | (block[1] >> 4), (block[1] << 4) | (block[2] >> 2), (block[2] << 6) | block[3]]
  {
  }

  method Emit(a: Alphabet, out: array<bv8>, pos: nat, block: array<bv8>, ghost chars: seq<bv8>)
    requires out != block && |chars| == 4 && Loaded(a, block, chars) && pos + 3 <= out.Length
    modifies out
    ensures out[..pos + 3] == old(out[..pos]) + Decode4(a, chars)
  {
    LoadedDecodes(a, block, chars);
    var bytes := [(block[0] << 2) | (block[1] >> 4), (block[1] << 4) | (block[2] >> 2), (block[2] << 6) | block[3]];
    var end := Put(out, pos, bytes);
  }

  /** A quartet and the rest, decoded. */
  lemma QuartetStep(a: Alphabet, chars: seq<bv8>, rest: seq<bv8>, before: seq<bv8>)
    requires |chars| == 4
    ensures Prepend(before, DecodeQuartets(a, chars + rest)) ==
      if Pads(chars) > 2 then None
      else if Pads(chars) > 0 then Some((before + Decode4(a, chars))[..|before| + 3 - Pads(chars)])
      else Prepend(before + Decode4(a, chars), DecodeQuartets(a, rest))
  {
    var four := Decode4(a, chars);
    assert (chars + rest)[..4] == chars && (chars + rest)[4..] == rest;
    if 0 < Pads(chars) <= 2 {
      assert (before + four)[..|before| + 3 - Pads(chars)] == before + four[..3 - Pads(chars)];
    }
    if DecodeQuartets(a, rest).Some? {
      Assoc(before, four, DecodeQuartets(a, rest).value);
    }
  }

  /** The decoder's position: output bytes written, values in the block, '='
      seen, the break after a padded quartet, the return of a quartet with too
      much padding. */
  datatype Cursor = Cursor(pos: nat, filled: nat, pad: nat, stop: bool, refused: bool)

  ghost predicate LoopInv(a: Alphabet, out: array<bv8>, block: array<bv8>, cur: Cursor, left: nat,
                          chars: seq<bv8>, rest: seq<bv8>, goal: Option<seq<bv8>>)
    reads out, block
  {
    && block.Length == 4
    && (if cur.stop then cur.pos <= out.Length && goal == if cur.refused then None else Some(out[..cur.pos])
        else cur.filled == |chars| && !cur.refused && Midway(a, out, cur.pos, block, cur.pad, left, chars, rest, goal))
  }

  /** A full block is written out, and cut by its padding. */
  method Flush(a: Alphabet, out: array<bv8>, block: array<bv8>, pos: nat, pad: nat,
               ghost left: nat, ghost chars: seq<bv8>, ghost rest: seq<bv8>, ghost goal: Option<seq<bv8>>)
    returns (next: Cursor)
    requires out != block && |chars| == 4 && Loaded(a, block, chars) && pad == Pads(chars)
    requires 4 + |rest| == 4 * left && pos + 3 * left == out.Length
    requires goal == Prepend(out[..pos], DecodeQuartets(a, chars + rest))
    modifies out
    ensures LoopInv(a, out, block, next, left - 1, [], rest, goal)
  {
    ghost var before := out[..pos];
    QuartetStep(a, chars, rest, before);
    Emit(a, out, pos, block, chars);
    next := Cursor(pos + 3, 0, pad, false, false);
    if pad > 0 {
      next := if pad == 1 then Cursor(next.pos - 1, 0, pad, true, false)
              else if pad == 2 then Cursor(next.pos - 2, 0, pad, true, false)
              else Cursor(next.pos, 0, pad, true, true);
      assert !next.refused ==> out[..next.pos] == (before + Decode4(a, chars))[..next.pos];
    } else {
      assert [] + rest == rest;
    }
  }

  /** One significant character. */
  method Consume(a: Alphabet, out: array<bv8>, block: array<bv8>, cur: Cursor, c: bv8,
                 ghost left: nat, ghost chars: seq<bv8>, ghost rest: seq<bv8>, ghost goal: Option<seq<bv8>>)
    returns (next: Cursor, ghost left': nat, ghost chars': seq<bv8>)
    requires out != block && !cur.stop && LoopInv(a, out, block, cur, left, chars, [c] + rest, goal)
    modifies out, block
    ensures LoopInv(a, out, block, next, left', chars', rest, goal)
  {
    left', chars' := left, chars + [c];
    Assoc(chars, [c], rest);
    PadsAppend(chars, [c]);
    PadsOfOne(c);
    var pad := if c == PAD then cur.pad + 1 else cur.pad;
    block[cur.filled] := DecodeChar(a, c);
    next := Cursor(cur.pos, cur.filled + 1, pad, false, false);
    if next.filled == 4 {
      next := Flush(a, out, block, cur.pos, pad, left, chars', rest, goal);
      left', chars' := left - 1, [];
    }
  }

  /** When the input ends, the last quartet was complete. */
  lemma EndOfInput(a: Alphabet, out: array<bv8>, block: array<bv8>, cur: Cursor, left: nat,
                   chars: seq<bv8>, s: seq<bv8>, goal: Option<seq<bv8>>)
    requires LoopInv(a, out, block, cur, left, chars, Significant(a, s[|s|..]), goal)
    ensures cur.pos <= out.Length && goal == if cur.refused then None else Some(out[..cur.pos])
  {
    assert s[|s|..] == [];
    if !cur.stop {
      assert chars == [] && chars + [] == [];
      assert out[..cur.pos] + [] == out[..cur.pos];
    }
  }

  /** One turn of the second loop. */
  method Turn(a: Alphabet, out: array<bv8>, block: array<bv8>, cur: Cursor, src: seq<bv8>, extra: nat, i: nat,
              ghost left: nat, ghost chars: seq<bv8>, ghost goal: Option<seq<bv8>>)
    returns (next: Cursor, ghost left': nat, ghost chars': seq<bv8>)
    requires out != block && !cur.stop && i < |src| + extra
    requires LoopInv(a, out, block, cur, left, chars, Significant(a, (src + PadRun(extra))[i..]), goal)
    modifies out, block
    ensures LoopInv(a, out, block, next, left', chars', Significant(a, (src + PadRun(extra))[i + 1..]), goal)
  {
    ghost var padded := src + PadRun(extra);
    var val := if i >= |src| then PAD else src[i];
    SignificantStep(a, padded, i);
    next, left', chars' := cur, left, chars;
    if DecodeChar(a, val) != INVALID {
      next, left', chars' := Consume(a, out, block, cur, val, left, chars, Significant(a, padded[i + 1..]), goal);
    }
  }

  /** base64_gen_decode; null when the input is refused. */
  method Decode(src: seq<bv8>, a: Alphabet) returns (out: array?<bv8>, pos: nat)
    ensures out == null <==> DecodeText(a, src).None?
    ensures out != null ==> fresh(out) && pos <= out.Length && DecodeText(a, src) == Some(out[..pos])
  {
    pos := 0;
    var count := CountSignificant(a, src);
    if count == 0 {
      return null, 0;
    }
    var extra := MissingPad(count);
    var block := new bv8[4];
    var buffer := new bv8[(count + extra) / 4 * 3];
    ghost var left, chars: seq<bv8>, goal := (count + extra) / 4, [], DecodeText(a, src);
    StartMidway(a, src, extra);
    var cur := Cursor(0, 0, 0, false, false);
    var i := 0;
    while i < |src| + extra && !cur.stop
      invariant i <= |src| + extra
      invariant LoopInv(a, buffer, block, cur, left, chars, Significant(a, (src + PadRun(extra))[i..]), goal)
    {
      cur, left, chars := Turn(a, buffer, block, cur, src, extra, i, left, chars, goal);
      i := i + 1;
    }
    if !cur.stop {
      EndOfInput(a, buffer, block, cur, left, chars, src + PadRun(extra), goal);
    }
    pos := cur.pos;
    out := if cur.refused then null else buffer;
  }

  lemma SignificantStep(a: Alphabet, s: seq<bv8>, i: nat)
    requires i < |s|
    ensures Significant(a, s[i..]) ==
            if DecodeChar(a, s[i]) != INVALID then [s[i]] + Significant(a, s[i + 1..]) else Significant(a, s[i + 1..])
  {
    assert s[i..][1..] == s[i + 1..];
  }

  lemma MissingPadFills(n: nat)
    ensures n + MissingPad(n) == 4 * ((n + MissingPad(n)) / 4)
  {
  }

  lemma PrependNothing(r: Option<seq<bv8>>)
    ensures Prepend([], r) == r
  {
    if r.Some? {
      assert [] + r.value == r.value;
    }
  }

  /** The padded input as the second loop sees it. */
  lemma StartMidway(a: Alphabet, src: seq<bv8>, extra: nat)
    requires Significant(a, src) != [] && extra == MissingPad(|Significant(a, src)|)
    ensures var padded := src + PadRun(extra); var s := Significant(a, padded[0..]);
      && |s| == |Significant(a, src)| + extra == 4 * ((|Significant(a, src)| + extra) / 4)
      && DecodeText(a, src) == Prepend([], DecodeQuartets(a, [] + s))
  {
    var padded := src + PadRun(extra);
    SignificantAppend(a, src, PadRun(extra));
    AllSignificant(a, PadRun(extra));
    var s := Significant(a, padded);
    assert padded[0..] == padded && [] + s == s;
    assert s == Significant(a, src) + PadRun(extra);
    MissingPadFills(|Significant(a, src)|);
    PrependNothing(DecodeQuartets(a, s));
  }
}
