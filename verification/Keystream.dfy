/** Counter-mode encryption of data bytes by address (crypto/cc_encoding.h). */
module Keystream {
  import opened Words
  import opened Buffers
  import opened Ascon

  type Block8 = s: seq<Byte> | |s| == 8 witness seq(8, _ => 0)

  /** The eight keystream bytes of every 8-byte aligned address, under one data key. */
  type Stream = nat -> Block8

  const MASK_SIZE: nat := 72

  /** Byte k of a word in little-endian order. */
  function WordByte(w: Word, k: nat): Byte
    requires k < 8
  {
    Pow2Of8();
    ToNat(w[8 * k..8 * k + 8])
  }

  lemma Pow2Of8()
    ensures Pow2(8) == 256
  {
  }

  function XorByte(a: Byte, b: Byte): Byte {
    Pow2Of8();
    XorNatBound(a, b, 8);
    XorNat(a, b)
  }

  /** Bit k of the result is set exactly when bits k of the operands differ. */
  lemma XorByteBits(a: Byte, b: Byte, k: nat)
    ensures NatBit(XorByte(a, b), k) <==> NatBit(a, k) != NatBit(b, k)
  {
    XorNatBit(a, b, k);
  }

  /** The stream of the source: ascon64b_stream of the address under a 128-bit key. */
  function AsconStream(k0: Word, k1: Word): Stream {
    (a: nat) => seq(8, k requires 0 <= k < 8 => WordByte(StreamWord(a % WORDS, k0, k1), k))
  }

  /** Bit b of byte k of the stream at an address is bit 8k + b of the keystream word. */
  lemma StreamBits(k0: Word, k1: Word, a: nat, k: nat, b: nat)
    requires k < 8 && b < 8
    ensures NatBit(AsconStream(k0, k1)(a)[k], b) == StreamWord(a % WORDS, k0, k1)[8 * k + b]
  {
    hide StreamWord, NatBit;
    var w := StreamWord(a % WORDS, k0, k1);
    ToNatBit(w[8 * k..8 * k + 8], b);
  }

  // ------------------------------------------------------------------------
  // The specification, byte by byte
  // ------------------------------------------------------------------------

  /** The keystream byte of address a: byte a mod 8 of the word for a rounded down to 8. */
  function KeyByte(stream: Stream, a: nat): Byte {
    stream(a - a % 8)[a % 8]
  }

  function Transform(stream: Stream, la: nat, data: seq<Byte>): (r: seq<Byte>)
    ensures |r| == |data|
  {
    seq(|data|, i requires 0 <= i < |data| => XorByte(data[i], KeyByte(stream, la + i)))
  }

  lemma TransformTwice(stream: Stream, la: nat, data: seq<Byte>)
    ensures Transform(stream, la, Transform(stream, la, data)) == data
  {
    hide KeyByte;
    forall i | 0 <= i < |data|
      ensures Transform(stream, la, Transform(stream, la, data))[i] == data[i]
    {
      XorNatTwice(data[i], KeyByte(stream, la + i));
    }
  }

  /** Encryption, bit by bit: bit k of byte i is flipped exactly where bit k of byte a mod 8 of
      the keystream word for a rounded down to 8 is set, a being the address of the byte. */
  lemma TransformBits(stream: Stream, la: nat, data: seq<Byte>, i: nat, k: nat)
    requires i < |data|
    ensures var a := la + i;
      NatBit(Transform(stream, la, data)[i], k) <==> NatBit(data[i], k) != NatBit(stream(a / 8 * 8)[a % 8], k)
  {
    hide XorByte, NatBit;
    var a := la + i;
    assert a - a % 8 == a / 8 * 8;
    XorByteBits(data[i], KeyByte(stream, a), k);
  }

  /** Any split of a range gives the same bytes. */
  lemma TransformSplit(stream: Stream, la: nat, a: seq<Byte>, b: seq<Byte>)
    ensures Transform(stream, la, a + b) == Transform(stream, la, a) + Transform(stream, la + |a|, b)
  {
    hide KeyByte, XorByte;
  }

  lemma TransformSlice(stream: Stream, la: nat, data: seq<Byte>, i: nat, j: nat)
    requires i <= j <= |data|
    ensures Transform(stream, la, data)[i..j] == Transform(stream, la + i, data[i..j])
  {
    hide KeyByte, XorByte;
  }

  // ------------------------------------------------------------------------
  // The loops
  // ------------------------------------------------------------------------

  /** The first n mask bytes are the keystream bytes from base on. */
  ghost predicate Filled(stream: Stream, base: nat, mask: seq<Byte>, n: nat) {
    n <= |mask| && forall j | 0 <= j < n :: mask[j] == KeyByte(stream, base + j)
  }

  lemma FilledStep(stream: Stream, base: nat, before: seq<Byte>, after: seq<Byte>, p: nat)
    requires base % 8 == 0 && p % 8 == 0 && p + 8 <= |after| == |before|
    requires Filled(stream, base, before, p)
    requires after == before[..p] + stream(base + p) + before[p + 8..]
    ensures Filled(stream, base, after, p + 8)
  {
    forall j | 0 <= j < p + 8
      ensures after[j] == KeyByte(stream, base + j)
    {
      if j >= p {
        assert (base + j) % 8 == j - p;
      }
    }
  }

  /** get_countermode_mask: one keystream word per 8-byte block from la rounded down.
      The end of the range is computed in 64 bits; when it wraps nothing is written. */
  method GetCountermodeMask(stream: Stream, la: uint64, size: nat, mask: array<Byte>)
    requires size <= 64 && mask.Length == MASK_SIZE
    modifies mask
    ensures la + size < WORDS ==> Filled(stream, la - la % 8, mask[..], la % 8 + size)
    ensures la + size >= WORDS ==> mask[..] == old(mask[..])
  {
    hide KeyByte;
    var base := la - la % 8;
    var end := (la + size) % WORDS;
    var p := 0;
    while base + p < end
      invariant p % 8 == 0 && p <= MASK_SIZE && (p > 0 ==> base + p < end + 8 && la + size < WORDS)
      invariant Filled(stream, base, mask[..], p)
      invariant p == 0 ==> mask[..] == old(mask[..])
      decreases end - p
    {
      ghost var before := mask[..];
      StoreWord(mask, p, stream(base + p));
      FilledStep(stream, base, before, mask[..], p);
      p := p + 8;
    }
  }

  /** One 64-bit store. */
  method StoreWord(mask: array<Byte>, p: nat, word: Block8)
    requires p + 8 <= mask.Length
    modifies mask
    ensures mask[..] == old(mask[..])[..p] + word + old(mask[..])[p + 8..]
  {
    forall k | 0 <= k < 8 {
      mask[p + k] := word[k];
    }
    assert mask[p..p + 8] == word;
    assert mask[..] == mask[..p] + mask[p..p + 8] + mask[p + 8..];
  }

  /** The loop runs from the last byte down: bytes i and up of the result are in place,
      the bytes of the input below i are still to be read. */
  ghost predicate Pending(result: seq<Byte>, source: seq<Byte>, rest: seq<Byte>,
                          input: seq<Byte>, inOff: nat, output: seq<Byte>, outOff: nat, i: nat) {
    i <= |result| == |source| && outOff + |result| <= |rest| && inOff + |source| <= |input| &&
    output == rest[..outOff + i] + result[i..] + rest[outOff + |result|..] &&
    input[inOff..inOff + i] == source[..i]
  }

  lemma PendingStep(result: seq<Byte>, source: seq<Byte>, rest: seq<Byte>, input: seq<Byte>, inOff: nat,
                    output: seq<Byte>, outOff: nat, i: nat, input': seq<Byte>, output': seq<Byte>)
    requires Pending(result, source, rest, input, inOff, output, outOff, i + 1)
    requires output' == output[outOff + i := result[i]]
    requires input' == input || (inOff == outOff && input' == output' && input == output)
    ensures input[inOff + i] == source[i]
    ensures Pending(result, source, rest, input', inOff, output', outOff, i)
  {
    assert input[inOff + i] == input[inOff..inOff + (i + 1)][i] == source[..i + 1][i];
    assert result[i..] == [result[i]] + result[i + 1..];
    assert input'[inOff..inOff + i] == input[inOff..inOff + (i + 1)][..i];
  }

  /** The bytes as the loop computes them from its mask. */
  function Masked(mask: seq<Byte>, offset: nat, data: seq<Byte>): (r: seq<Byte>)
    requires offset + |data| <= |mask|
    ensures |r| == |data|
  {
    seq(|data|, i requires 0 <= i < |data| => XorByte(data[i], mask[i + offset]))
  }

  lemma MaskedByte(mask: seq<Byte>, offset: nat, data: seq<Byte>, i: nat)
    requires offset + |data| <= |mask| && i < |data|
    ensures Masked(mask, offset, data)[i] == XorByte(data[i], mask[i + offset])
  {
    hide XorByte;
  }

  /** A mask filled for the range gives the specified bytes. */
  lemma MaskedIsTransform(stream: Stream, la: uint64, mask: seq<Byte>, data: seq<Byte>)
    requires Filled(stream, la - la % 8, mask, la % 8 + |data|)
    ensures Masked(mask, la % 8, data) == Transform(stream, la, data)
  {
    hide KeyByte, XorByte;
    forall i | 0 <= i < |data|
      ensures Masked(mask, la % 8, data)[i] == Transform(stream, la, data)[i]
    {
      assert la - la % 8 + (i + la % 8) == la + i;
    }
  }

  /** The loop of encrypt_decrypt_bytes, on two buffers that may be one. */
  method ApplyMask(mask: array<Byte>, offset: nat, input: array<Byte>, inOff: nat,
                   output: array<Byte>, outOff: nat, size: nat)
    requires mask != output && offset + size <= mask.Length
    requires inOff + size <= input.Length && outOff + size <= output.Length
    requires input == output ==> inOff == outOff
    modifies output
    ensures output[outOff..outOff + size] == Masked(mask[..], offset, old(input[inOff..inOff + size]))
    ensures output[..outOff] == old(output[..outOff]) && output[outOff + size..] == old(output[outOff + size..])
  {
    hide XorByte, Pending, Masked;
    ghost var keys := mask[..];
    ghost var source := input[inOff..inOff + size];
    ghost var result := Masked(keys, offset, source);
    ghost var rest := output[..];
    PendingStart(result, source, rest, input[..], inOff, outOff);
    var i := size;
    while i > 0
      invariant 0 <= i <= size
      invariant Pending(result, source, rest, input[..], inOff, output[..], outOff, i)
    {
      i := i - 1;
      ghost var input0, output0 := input[..], output[..];
      ghost var output1 := output0[outOff + i := result[i]];
      MaskedByte(keys, offset, source, i);
      PendingStep(result, source, rest, input0, inOff, output0, outOff, i,
                  if input == output then output1 else input0, output1);
      output[outOff + i] := XorByte(input[inOff + i], mask[i + offset]);
      assert output[..] == output1;
    }
    PendingEnd(result, source, rest, input[..], inOff, output[..], outOff);
  }

  /** encrypt_decrypt_bytes. When the range wraps around the address space the mask is
      unwritten, so nothing is promised of the result; the bytes around it are kept. */
  method EncryptDecryptBytes(stream: Stream, la: uint64, input: array<Byte>, inOff: nat,
                             output: array<Byte>, outOff: nat, size: nat)
    requires size <= 64 && inOff + size <= input.Length && outOff + size <= output.Length
    requires input == output ==> inOff == outOff
    modifies output
    ensures la + size < WORDS ==>
      output[outOff..outOff + size] == Transform(stream, la, old(input[inOff..inOff + size]))
    ensures output[..outOff] == old(output[..outOff]) && output[outOff + size..] == old(output[outOff + size..])
  {
    hide XorByte, KeyByte, Filled, Masked, Transform;
    var mask := new Byte[MASK_SIZE];
    GetCountermodeMask(stream, la, size, mask);
    ghost var source := input[inOff..inOff + size];
    ApplyMask(mask, la % 8, input, inOff, output, outOff, size);
    if la + size < WORDS {
      MaskedIsTransform(stream, la, mask[..], source);
    }
  }

  lemma PendingStart(result: seq<Byte>, source: seq<Byte>, rest: seq<Byte>, input: seq<Byte>, inOff: nat, outOff: nat)
    requires |result| == |source| && outOff + |result| <= |rest| && inOff + |source| <= |input|
    requires source == input[inOff..inOff + |source|]
    ensures Pending(result, source, rest, input, inOff, rest, outOff, |result|)
  {
  }

  lemma PendingEnd(result: seq<Byte>, source: seq<Byte>, rest: seq<Byte>, input: seq<Byte>, inOff: nat,
                   output: seq<Byte>, outOff: nat)
    requires Pending(result, source, rest, input, inOff, output, outOff, 0)
    ensures |output| == |rest| && outOff + |result| <= |rest|
    ensures output[..outOff] == rest[..outOff] && output[outOff + |result|..] == rest[outOff + |result|..]
    ensures output[outOff..outOff + |result|] == result
  {
  }

  // ------------------------------------------------------------------------
  // Many bytes
  // ------------------------------------------------------------------------

  /** The chunk counter, a 32-bit unsigned, after k steps. */
  function ChunkCounter(k: nat): nat {
    if k == 0 then 0 else (ChunkCounter(k - 1) + 64) % 0x1_0000_0000
  }

  lemma {:induction false} ChunkCounterBound(k: nat)
    ensures ChunkCounter(k) % 64 == 0 && ChunkCounter(k) <= 0xFFFF_FFC0
    ensures 64 * k <= 0xFFFF_FFC0 ==> ChunkCounter(k) == 64 * k
  {
    if k > 0 {
      ChunkCounterBound(k - 1);
    }
  }

  /** The loop reaches its end if and only if the size is at most 2^32 - 64: for a larger one
      the counter wraps before it gets there, however often it steps. */
  lemma LoopEndsExactly(size: nat)
    ensures (exists k: nat :: ChunkCounter(k) >= size) <==> size <= 0xFFFF_FFC0
  {
    hide ChunkCounter;
    if size <= 0xFFFF_FFC0 {
      ChunkCounterBound((size + 63) / 64);
    }
    forall k: nat
      ensures ChunkCounter(k) <= 0xFFFF_FFC0
    {
      ChunkCounterBound(k);
    }
  }

  /** encrypt_decrypt_many_bytes in chunks of 64, for the sizes its loop ends for. */
  method EncryptDecryptManyBytes(stream: Stream, la: uint64, input: array<Byte>, output: array<Byte>, size: nat)
    requires size <= 0xFFFF_FFC0
    requires size <= input.Length && size <= output.Length
    modifies output
    ensures la + size < WORDS ==> output[..size] == Transform(stream, la, old(input[..size]))
    ensures output[size..] == old(output[size..])
  {
    hide Transform, Progress;
    ghost var source := input[..];
    ghost var rest := output[..];
    ProgressStart(stream, la, source, rest);
    var i: nat := 0;
    while size > i
      invariant i % 64 == 0 && i <= 0xFFFF_FFC0
      invariant output[size..] == rest[size..]
      invariant la + size < WORDS ==> Progress(stream, la, source, rest, input[..], output[..], AtMost(i, size))
    {
      var chunk := AtMost(size - i, 64);
      ghost var before := output[..];
      ghost var left := input[..];
      EncryptDecryptBytes(stream, (la + i) % WORDS, input, i, output, i, chunk);
      KeptBeyond(before, output[..], i + chunk, size);
      if la + size < WORDS {
        ChunkDone(stream, la, source, rest, left, before, input[..], output[..], i, chunk);
      }
      i := (i + 64) % 0x1_0000_0000;
    }
    if la + size < WORDS {
      ProgressEnd(stream, la, source, rest, input[..], output[..], size);
    }
  }

  function AtMost(a: nat, b: nat): nat {
    if a < b then a else b
  }

  lemma KeptBeyond(before: seq<Byte>, after: seq<Byte>, i: nat, j: nat)
    requires |after| == |before| && i <= j <= |before| && after[i..] == before[i..]
    ensures after[j..] == before[j..]
  {
    assert after[i..][j - i..] == after[j..] && before[i..][j - i..] == before[j..];
  }

  /** The first done bytes are transformed; the rest of both buffers is as at the start. */
  ghost predicate Progress(stream: Stream, la: nat, source: seq<Byte>, rest: seq<Byte>,
                           input: seq<Byte>, output: seq<Byte>, done: nat) {
    |input| == |source| && |output| == |rest| && done <= |input| && done <= |output| &&
    output[..done] == Transform(stream, la, source[..done]) &&
    output[done..] == rest[done..] && input[done..] == source[done..]
  }

  lemma ProgressStart(stream: Stream, la: nat, source: seq<Byte>, rest: seq<Byte>)
    ensures Progress(stream, la, source, rest, source, rest, 0)
  {
  }

  lemma ProgressEnd(stream: Stream, la: nat, source: seq<Byte>, rest: seq<Byte>,
                    input: seq<Byte>, output: seq<Byte>, done: nat)
    requires Progress(stream, la, source, rest, input, output, done)
    ensures done <= |output| && done <= |source| && output[..done] == Transform(stream, la, source[..done])
  {
  }

  lemma ChunkDone(stream: Stream, la: nat, source: seq<Byte>, rest: seq<Byte>,
                  inBefore: seq<Byte>, outBefore: seq<Byte>,
                  inAfter: seq<Byte>, outAfter: seq<Byte>, i: nat, chunk: nat)
    requires Progress(stream, la, source, rest, inBefore, outBefore, i)
    requires i + chunk <= |source| && i + chunk <= |rest|
    requires |outAfter| == |outBefore| && |inAfter| == |inBefore|
    requires outAfter[..i] == outBefore[..i] && outAfter[i + chunk..] == outBefore[i + chunk..]
    requires outAfter[i..i + chunk] == Transform(stream, la + i, inBefore[i..i + chunk])
    requires inAfter == inBefore || (inAfter == outAfter && inBefore == outBefore)
    ensures Progress(stream, la, source, rest, inAfter, outAfter, i + chunk)
  {
    hide Transform;
    assert inBefore[i..i + chunk] == source[i..i + chunk] by {
      assert inBefore[i..][..chunk] == source[i..][..chunk];
    }
    assert source[..i + chunk] == source[..i] + source[i..i + chunk];
    TransformSplit(stream, la, source[..i], source[i..i + chunk]);
    assert outAfter[..i + chunk] == outAfter[..i] + outAfter[i..i + chunk];
    assert outAfter[i + chunk..] == outBefore[i..][chunk..] == rest[i + chunk..];
    assert inAfter[i + chunk..] == inBefore[i..][chunk..];
  }
}
