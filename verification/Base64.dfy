/** The Base64 codec (RFC 4648 sections 4 and 5): an encoder that breaks lines
    after 72 characters and a decoder that skips everything it does not know. */
module Base64 {

  datatype Alphabet = Standard | Url

  const PAD: bv8 := 61   // '='
  const LF: bv8 := 10
  const INVALID: bv8 := 0x80
  const SIZE_MAX: int := 0xffff_ffff_ffff_ffff

  /** base64_table and base64_url_table */
  function EncodeChar(a: Alphabet, i: bv8): bv8
    requires i < 64
  {
    if i < 26 then i + 65
    else if i < 52 then i + 71
    else if i < 62 then i - 4
    else if i == 62 then (if a == Standard then 43 else 45)
    else (if a == Standard then 47 else 95)
  }

  /** base64_dtable and base64_url_dtable: '=' counts as known, with value 0. */
  function DecodeChar(a: Alphabet, c: bv8): bv8
  {
    if 65 <= c <= 90 then c - 65
    else if 97 <= c <= 122 then c - 71
    else if 48 <= c <= 57 then c + 4
    else if c == (if a == Standard then 43 else 45) then 62
    else if c == (if a == Standard then 47 else 95) then 63
    else if c == PAD then 0
    else INVALID
  }

  /** The alphabets of sections 4 and 5 of RFC 4648. */
  lemma EncodesAlphabet(a: Alphabet, i: bv8)
    requires i < 64
    ensures EncodeChar(a, i) as int ==
            if i < 26 then 'A' as int + i as int
            else if i < 52 then 'a' as int + i as int - 26
            else if i < 62 then '0' as int + i as int - 52
            else if i == 62 then (if a == Standard then '+' else '-') as int
            else (if a == Standard then '/' else '_') as int
    ensures PAD as int == '=' as int && LF as int == '\n' as int
  {
  }

  /** The characters of an alphabet, and '='. */
  predicate IsKnown(a: Alphabet, c: char)
  {
    || 'A' <= c <= 'Z' || 'a' <= c <= 'z' || '0' <= c <= '9' || c == '='
    || (if a == Standard then c == '+' || c == '/' else c == '-' || c == '_')
  }

  /** The decoder knows these characters and no others, each by the value it
      has in the alphabet. */
  lemma DecodesAlphabet(a: Alphabet, b: bv8)
    ensures DecodeChar(a, b) != INVALID <==> IsKnown(a, b as char)
    ensures var c := b as char;
      DecodeChar(a, b) as int ==
      if 'A' <= c <= 'Z' then c as int - 'A' as int
      else if 'a' <= c <= 'z' then c as int - 'a' as int + 26
      else if '0' <= c <= '9' then c as int - '0' as int + 52
      else if c == (if a == Standard then '+' else '-') then 62
      else if c == (if a == Standard then '/' else '_') then 63
      else if c == '=' then 0
      else 0x80
  {
  }

  lemma CharRoundTrip(a: Alphabet, i: bv8)
    requires i < 64
    ensures DecodeChar(a, EncodeChar(a, i)) == i
    ensures EncodeChar(a, i) != PAD && EncodeChar(a, i) != LF
  {
  }

  // ---- The encoding of a byte string -------------------------------------

  function Block3(a: Alphabet, x: bv8, y: bv8, z: bv8): (r: seq<bv8>)
    ensures |r| == 4
  {
    [EncodeChar(a, (x >> 2) & 0x3f),
     EncodeChar(a, (((x & 0x03) << 4) | (y >> 4)) & 0x3f),
     EncodeChar(a, (((y & 0x0f) << 2) | (z >> 6)) & 0x3f),
     EncodeChar(a, z & 0x3f)]
  }

  /** The last one or two bytes. */
  function Tail(a: Alphabet, src: seq<bv8>, pad: bool): (r: seq<bv8>)
    requires 1 <= |src| <= 2
  {
    if |src| == 1 then
      [EncodeChar(a, (src[0] >> 2) & 0x3f), EncodeChar(a, ((src[0] & 0x03) << 4) & 0x3f)]
      + (if pad then [PAD, PAD] else [])
    else
      [EncodeChar(a, (src[0] >> 2) & 0x3f),
       EncodeChar(a, (((src[0] & 0x03) << 4) | (src[1] >> 4)) & 0x3f),
       EncodeChar(a, ((src[1] & 0x0f) << 2) & 0x3f)]
      + (if pad then [PAD] else [])
  }

  /** The encoding without line feeds. */
  function Chars(a: Alphabet, src: seq<bv8>, pad: bool): seq<bv8>
  {
    if src == [] then []
    else if |src| < 3 then Tail(a, src, pad)
    else Block3(a, src[0], src[1], src[2]) + Chars(a, src[3..], pad)
  }

  /** Every three bytes in turn give the four characters in their place, and the
      bytes that are left give the end. */
  lemma {:induction false} BlocksInOrder(a: Alphabet, src: seq<bv8>, pad: bool, k: nat)
    requires 3 * k <= |src|
    ensures 4 * k <= |Chars(a, src, pad)|
    ensures Chars(a, src, pad)[4 * k..] == Chars(a, src[3 * k..], pad)
    ensures |src| >= 3 * k + 3 ==>
      && |Chars(a, src, pad)| >= 4 * k + 4
      && Chars(a, src, pad)[4 * k..4 * k + 4] == Block3(a, src[3 * k], src[3 * k + 1], src[3 * k + 2])
    ensures 3 * k < |src| < 3 * k + 3 ==> Chars(a, src, pad)[4 * k..] == Tail(a, src[3 * k..], pad)
    decreases k
  {
    if k == 0 {
      assert src[3 * k..] == src && Chars(a, src, pad)[4 * k..] == Chars(a, src, pad);
    } else {
      BlocksInOrder(a, src[3..], pad, k - 1);
      assert src[3..][3 * (k - 1)..] == src[3 * k..];
      ChopBlock(Block3(a, src[0], src[1], src[2]), Chars(a, src[3..], pad), 4 * k);
    }
  }

  lemma ChopBlock(block: seq<bv8>, rest: seq<bv8>, n: nat)
    requires |block| == 4 <= n <= 4 + |rest|
    ensures (block + rest)[n..] == rest[n - 4..]
    ensures n + 4 <= |block + rest| ==> (block + rest)[n..n + 4] == rest[n - 4..n]
  {
  }

  /** The encoding with its line feeds, `line` characters into a line. */
  function Encoded(a: Alphabet, src: seq<bv8>, pad: bool, line: nat): seq<bv8>
  {
    if src == [] then (if pad && line > 0 then [LF] else [])
    else if |src| < 3 then Tail(a, src, pad) + (if pad then [LF] else [])
    else
      Block3(a, src[0], src[1], src[2]) +
      (if pad && line + 4 >= 72 then [LF] + Encoded(a, src[3..], pad, 0) else Encoded(a, src[3..], pad, line + 4))
  }

  /** The buffer size the encoder allocates. */
  function EncodeSize(len: nat, pad: bool): nat
  {
    var olen := len * 4 / 3 + 4;
    (if pad then olen + olen / 72 else olen) + 1
  }

  /** Characters of the encoding, line feeds apart. */
  function CharCount(len: nat, pad: bool): nat
  {
    var full, rest := len / 3, len % 3;
    4 * full + (if rest == 0 then 0 else if pad then 4 else rest + 1)
  }

  /** Lines started by n characters. */
  function Lines(n: nat): nat
  {
    (n + 71) / 72
  }

  lemma {:induction false} UnpaddedLength(a: Alphabet, src: seq<bv8>, line: nat)
    ensures |Encoded(a, src, false, line)| == CharCount(|src|, false)
  {
    if |src| >= 3 {
      UnpaddedLength(a, src[3..], line + 4);
    }
  }

  lemma LinesStep(n: nat)
    ensures Lines(72 + n) == 1 + Lines(n)
  {
  }

  /** The exact length of a padded encoding: its characters and one line feed
      for each line that was started. */
  lemma {:induction false} PaddedLength(a: Alphabet, src: seq<bv8>, line: nat)
    requires line < 72 && line % 4 == 0
    ensures |Encoded(a, src, true, line)| == CharCount(|src|, true) + Lines(line + CharCount(|src|, true))
  {
    if |src| >= 3 {
      var rest := CharCount(|src| - 3, true);
      assert CharCount(|src|, true) == 4 + rest;
      if line + 4 >= 72 {
        LinesStep(rest);
        PaddedLength(a, src[3..], 0);
      } else {
        PaddedLength(a, src[3..], line + 4);
      }
    }
  }

  lemma NoFeedInBlock(a: Alphabet, x: bv8, y: bv8, z: bv8)
    ensures LF !in Block3(a, x, y, z)
  {
    CharRoundTrip(a, (x >> 2) & 0x3f);
    CharRoundTrip(a, (((x & 0x03) << 4) | (y >> 4)) & 0x3f);
    CharRoundTrip(a, (((y & 0x0f) << 2) | (z >> 6)) & 0x3f);
    CharRoundTrip(a, z & 0x3f);
  }

  lemma NoFeedInTail(a: Alphabet, src: seq<bv8>)
    requires 1 <= |src| <= 2
    ensures |Tail(a, src, true)| == 4 && LF !in Tail(a, src, true)
  {
    CharRoundTrip(a, (src[0] >> 2) & 0x3f);
    CharRoundTrip(a, ((src[0] & 0x03) << 4) & 0x3f);
    if |src| == 2 {
      CharRoundTrip(a, (((src[0] & 0x03) << 4) | (src[1] >> 4)) & 0x3f);
      CharRoundTrip(a, ((src[1] & 0x0f) << 2) & 0x3f);
    }
  }

  predicate FeedsInPlace(e: seq<bv8>, line: nat)
  {
    forall i :: 0 <= i < |e| ==> (e[i] == LF <==> (line + i) % 73 == 72 || i == |e| - 1)
  }

  lemma FeedsAfterBlock(block: seq<bv8>, rest: seq<bv8>, line: nat)
    requires |block| == 4 && LF !in block && line + 4 <= 72
    requires if line + 4 == 72 then rest != [] && rest[0] == LF && FeedsInPlace(rest[1..], 0)
             else rest != [] && FeedsInPlace(rest, line + 4)
    ensures FeedsInPlace(block + rest, line)
  {
    var e := block + rest;
    forall i | 0 <= i < |e| ensures e[i] == LF <==> (line + i) % 73 == 72 || i == |e| - 1 {
      if i < 4 {
        assert e[i] == block[i];
      } else if line + 4 < 72 {
        assert e[i] == rest[i - 4];
      } else if i > 4 {
        assert e[i] == rest[1..][i - 5];
      }
    }
  }

  /** A padded encoding has a line feed after every 72 characters and at its
      end, and nowhere else. */
  lemma {:induction false} FeedsEvery72(a: Alphabet, src: seq<bv8>, line: nat)
    requires line < 72 && line % 4 == 0
    ensures FeedsInPlace(Encoded(a, src, true, line), line)
    ensures src != [] || line > 0 ==> Encoded(a, src, true, line) != []
  {
    if 1 <= |src| < 3 {
      NoFeedInTail(a, src);
    } else if |src| >= 3 {
      NoFeedInBlock(a, src[0], src[1], src[2]);
      var block := Block3(a, src[0], src[1], src[2]);
      if line + 4 >= 72 {
        FeedsEvery72(a, src[3..], 0);
        assert ([LF] + Encoded(a, src[3..], true, 0))[1..] == Encoded(a, src[3..], true, 0);
        FeedsAfterBlock(block, [LF] + Encoded(a, src[3..], true, 0), line);
      } else {
        FeedsEvery72(a, src[3..], line + 4);
        FeedsAfterBlock(block, Encoded(a, src[3..], true, line + 4), line);
      }
    }
  }

  /** The buffer always holds the encoding and its NUL, and the length at which
      a padded encoding fills it to the last byte. */
  lemma SizeSuffices(len: nat, pad: bool)
    ensures CharCount(len, pad) + (if pad then Lines(CharCount(len, pad)) else 0) + 1 <= EncodeSize(len, pad)
    ensures len % 3 == 1 && CharCount(len, true) % 72 != 0 ==>
      CharCount(len, true) + Lines(CharCount(len, true)) + 1 == EncodeSize(len, true)
  {
    var q, r := len / 3, len % 3;
    assert len == 3 * q + r;
    assert len * 4 / 3 == 4 * q + r;
    var chars := CharCount(len, true);
    assert Lines(chars) == chars / 72 + (if chars % 72 == 0 then 0 else 1);
  }

  lemma EncodedFits(a: Alphabet, src: seq<bv8>, pad: bool)
    ensures |Encoded(a, src, pad, 0)| < EncodeSize(|src|, pad)
  {
    SizeSuffices(|src|, pad);
    if pad {
      PaddedLength(a, src, 0);
    } else {
      UnpaddedLength(a, src, 0);
    }
  }

  /** Appends a few characters at `pos`. */
  method Put(out: array<bv8>, pos: nat, chars: seq<bv8>) returns (end: nat)
    requires pos + |chars| <= out.Length
    modifies out
    ensures end == pos + |chars|
    ensures out[..end] == old(out[..pos]) + chars
  {
    end := pos;
    for k := 0 to |chars|
      invariant end == pos + k
      invariant out[..end] == old(out[..pos]) + chars[..k]
    {
      out[end] := chars[k];
      end := end + 1;
    }
  }

  method PutBlock(out: array<bv8>, pos: nat, a: Alphabet, x: bv8, y: bv8, z: bv8) returns (end: nat)
    requires pos + 4 <= out.Length
    modifies out
    ensures end == pos + 4 && out[..end] == old(out[..pos]) + Block3(a, x, y, z)
  {
    end := Put(out, pos, [EncodeChar(a, (x >> 2) & 0x3f)]);
    end := Put(out, end, [EncodeChar(a, (((x & 0x03) << 4) | (y >> 4)) & 0x3f)]);
    end := Put(out, end, [EncodeChar(a, (((y & 0x0f) << 2) | (z >> 6)) & 0x3f)]);
    end := Put(out, end, [EncodeChar(a, z & 0x3f)]);
  }

  /** The one or two bytes after the main loop. */
  method PutTail(out: array<bv8>, pos: nat, a: Alphabet, src: seq<bv8>, pad: bool) returns (end: nat)
    requires 1 <= |src| <= 2 && pos + |Tail(a, src, pad)| <= out.Length
    modifies out
    ensures end == pos + |Tail(a, src, pad)| && out[..end] == old(out[..pos]) + Tail(a, src, pad)
  {
    end := Put(out, pos, [EncodeChar(a, (src[0] >> 2) & 0x3f)]);
    if |src| == 1 {
      end := Put(out, end, [EncodeChar(a, ((src[0] & 0x03) << 4) & 0x3f)]);
      if pad {
        end := Put(out, end, [PAD]);
      }
    } else {
      end := Put(out, end, [EncodeChar(a, (((src[0] & 0x03) << 4) | (src[1] >> 4)) & 0x3f)]);
      end := Put(out, end, [EncodeChar(a, ((src[1] & 0x0f) << 2) & 0x3f)]);
    }
    if pad {
      end := Put(out, end, [PAD]);
    }
  }

  /** One round of the main loop: four characters and perhaps a line feed. */
  method Round(out: array<bv8>, pos: nat, a: Alphabet, src: seq<bv8>, pad: bool, line: nat)
    returns (end: nat, nextLine: nat)
    requires |src| >= 3 && pos + |Encoded(a, src, pad, line)| <= out.Length
    modifies out
    ensures end <= pos + |Encoded(a, src, pad, line)|
    ensures out[..end] + Encoded(a, src[3..], pad, nextLine) == old(out[..pos]) + Encoded(a, src, pad, line)
  {
    ghost var before, block := out[..pos], Block3(a, src[0], src[1], src[2]);
    end := PutBlock(out, pos, a, src[0], src[1], src[2]);
    nextLine := line + 4;
    if pad && nextLine >= 72 {
      Assoc(before, block, [LF] + Encoded(a, src[3..], pad, 0));
      Assoc(before + block, [LF], Encoded(a, src[3..], pad, 0));
      end := Put(out, end, [LF]);
      nextLine := 0;
    } else {
      Assoc(before, block, Encoded(a, src[3..], pad, nextLine));
    }
  }

  lemma Assoc<T>(x: seq<T>, y: seq<T>, z: seq<T>)
    ensures x + (y + z) == (x + y) + z
  {
  }

  /** What follows the main loop, except for the NUL. */
  method Finish(out: array<bv8>, pos: nat, a: Alphabet, src: seq<bv8>, pad: bool, line: nat) returns (end: nat)
    requires |src| < 3 && pos + |Encoded(a, src, pad, line)| <= out.Length
    modifies out
    ensures end == pos + |Encoded(a, src, pad, line)|
    ensures out[..end] == old(out[..pos]) + Encoded(a, src, pad, line)
  {
    end := pos;
    var lineLen := line;
    if src != [] {
      end := PutTail(out, end, a, src, pad);
      lineLen := lineLen + 4;
    }
    if pad && lineLen > 0 {
      end := Put(out, end, [LF]);
    }
  }

  /** base64_gen_encode; null for a length it refuses. */
  method Encode(src: seq<bv8>, a: Alphabet, pad: bool) returns (out: array?<bv8>, pos: nat)
    ensures out == null <==> |src| >= 0x3fff_ffff_ffff_ffff
    ensures out != null ==>
      && fresh(out)
      && out.Length == EncodeSize(|src|, pad)
      && pos < out.Length
      && out[..pos] == Encoded(a, src, pad, 0)
      && out[pos] == 0
  {
    pos := 0;
    if |src| >= SIZE_MAX / 4 {
      return null, 0;
    }
    out := new bv8[EncodeSize(|src|, pad)];
    EncodedFits(a, src, pad);
    ghost var goal := Encoded(a, src, pad, 0);
    var i, line := 0, 0;
    while |src| - i >= 3
      invariant i <= |src| && pos + |Encoded(a, src[i..], pad, line)| == |goal| < out.Length
      invariant out[..pos] + Encoded(a, src[i..], pad, line) == goal
    {
      assert src[i..][3..] == src[i + 3..];
      pos, line := Round(out, pos, a, src[i..], pad, line);
      i := i + 3;
    }
    pos := Finish(out, pos, a, src[i..], pad, line);
    out[pos] := 0;
  }
}
