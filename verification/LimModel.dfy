/** The LIM model: physical memory, the accessors that reach it page by page, and the two
    callbacks that check an access and fix up its bytes (modules/lim_model/model.cpp). */
module LimModel {
  import opened Words
  import opened Buffers
  import opened LimEncoding
  import opened LimObject
  import opened LimRun
  import opened LimMemory

  datatype Crossing = NoCrossing | First | Second

  /** Whole 8-byte words that hold size bytes. */
  function WordBytes(size: nat): (n: nat)
    ensures size <= n < size + 8 && (size == 0 ==> n == 0)
  {
    (size + 7) / 8 * 8
  }

  /** A value of at most 8 bytes as the 8 bytes of a word. */
  function Padded(s: seq<Byte>, n: nat): (r: seq<Byte>)
    requires |s| <= n
    ensures |r| == n
  {
    s + seq(n - |s|, i => 0)
  }

  class LimModel {
    const mode: Mode
    const frames: seq<nat>
    const ram: array<Byte>

    var laEncoded: uint64
    var laDecoded: nat
    var isEncodedPointer: bool
    var isCrossingPageFirst: bool
    var isCrossingPageSecond: bool
    var ptrTag: nat
    var encodedSize: nat
    var laMiddle: nat
    var laMeta: nat
    var metaSize: nat
    var decMeta: Decoded
    var pageCrossing: Crossing

    predicate Valid() {
      Mapping(frames, ram.Length)
    }

    /** Memory as the processor sees it. */
    ghost function Memory(): (m: Memory)
      requires Valid()
      reads ram
      ensures |m| == |frames| * PAGE
    {
      Linear(frames, ram[..])
    }

    constructor (mode: Mode, frames: seq<nat>, ram: array<Byte>)
      requires Mapping(frames, ram.Length)
      ensures Valid() && this.mode == mode && this.frames == frames && this.ram == ram && !isEncodedPointer
    {
      this.mode, this.frames, this.ram := mode, frames, ram;
      isEncodedPointer := false;
      isCrossingPageFirst, isCrossingPageSecond := false, false;
      pageCrossing := NoCrossing;
      decMeta := Decoded(0, 0, 0, 0);
    }

    // ----------------------------------------------------------------------
    // Reads and writes of linear memory
    // ----------------------------------------------------------------------

    method TranslateLaToPa(la: nat) returns (pa: nat)
      requires Valid() && la < |frames| * PAGE
      ensures la / PAGE < |frames| && pa == Translate(frames, la) != 0
    {
      PageOf(|frames|, la);
      TranslateInside(frames, ram.Length, la);
      pa := frames[la / PAGE] * PAGE + la % PAGE;
    }

    /** An 8-byte store of a value of len bytes read from physical memory. */
    method StoreWord(buf: array<Byte>, at: nat, pa: nat, len: nat)
      requires buf != ram && len <= 8 && at + 8 <= buf.Length && pa + len <= ram.Length
      modifies buf
      ensures buf[..] == Overwrite(old(buf[..]), at, Padded(ram[pa..pa + len], 8))
    {
      hide Overwrite;
      ghost var word := Padded(ram[pa..pa + len], 8);
      OverwriteNone(buf[..], at);
      var i := 0;
      while i < 8
        invariant i <= 8
        invariant buf[..] == Overwrite(old(buf[..]), at, word[..i])
      {
        ghost var before := buf[..];
        assert word[i] == if i < len then ram[pa + i] else 0;
        buf[at + i] := if i < len then ram[pa + i] else 0;
        assert buf[..] == before[at + i := word[i]];
        OverwriteOne(before, at + i, word[i]);
        ExtendByOne(old(buf[..]), at, word, i);
        i := i + 1;
      }
      assert word[..8] == word;
    }

    method ReadWords(pa: nat, buf: array<Byte>, at: nat, size: nat)
      requires buf != ram && pa + size <= ram.Length && at + WordBytes(size) <= buf.Length
      modifies buf
      ensures buf[..] == Overwrite(old(buf[..]), at, Padded(ram[pa..pa + size], WordBytes(size)))
    {
      hide Overwrite, Padded, WordBytes;
      ghost var bytes := ram[pa..pa + size];
      ghost var words := Padded(bytes, WordBytes(size));
      OverwriteNone(buf[..], at);
      var remaining: int, done: nat := size, 0;
      while remaining > 0
        invariant done + remaining == size && done % 8 == 0 && done <= |words|
        invariant remaining <= 0 ==> done == |words|
        invariant buf[..] == Overwrite(old(buf[..]), at, words[..done])
      {
        var len := if remaining < 8 then remaining else 8;
        NextWord(old(buf[..]), at, bytes, done);
        ArraySlice(ram, pa, size, done, len);
        StoreWord(buf, at + done, pa + done, len);
        done, remaining := done + 8, remaining - 8;
      }
      assert words[..done] == words;
    }

    /** Reads within a page, in words: up to 7 zero bytes follow the data in the buffer. */
    method ReadSamePage(la: nat, buf: array<Byte>, at: nat, size: nat)
      requires Valid() && buf != ram && la < |frames| * PAGE && la % PAGE + size <= PAGE
      requires at + WordBytes(size) <= buf.Length
      modifies buf
      ensures la + size <= |frames| * PAGE
      ensures buf[..] == Overwrite(old(buf[..]), at, Padded(Memory()[la..la + size], WordBytes(size)))
    {
      hide Mapping, Linear, Translate, Overwrite, Padded, WordBytes;
      var pa := TranslateLaToPa(la);
      ReadIsLinear(frames, ram[..], la, size);
      assert ram[pa..pa + size] == Memory()[la..la + size];
      ReadWords(pa, buf, at, size);
    }

    /** SIM_write_phys_memory. */
    method WritePhysical(pa: nat, data: array<Byte>, from: nat, len: nat)
      requires data != ram && from + len <= data.Length && pa + len <= ram.Length
      modifies ram
      ensures ram[..] == Overwrite(old(ram[..]), pa, data[from..from + len])
    {
      CopyBytes(data, from, ram, pa, len);
    }

    method WriteSamePage(la: nat, data: array<Byte>, from: nat, size: nat)
      requires Valid() && data != ram && la < |frames| * PAGE && la % PAGE + size <= PAGE
      requires from + size <= data.Length
      modifies ram
      ensures la + size <= |frames| * PAGE
      ensures Memory() == Overwrite(old(Memory()), la, data[from..from + size])
    {
      hide Mapping, Linear, Translate, Overwrite;
      var start := TranslateLaToPa(la);
      ghost var bytes := data[from..from + size];
      WriteIsLinear(frames, ram[..], la, bytes);
      OverwriteNone(ram[..], start);
      var remaining: int, done: nat := size, 0;
      while remaining > 0
        invariant done + remaining == size
        invariant ram[..] == Overwrite(old(ram[..]), start, bytes[..if done < size then done else size])
      {
        var len := if remaining < 8 then remaining else 8;
        ExtendBy(old(ram[..]), start, bytes, done, len);
        ArraySlice(data, from, size, done, len);
        WritePhysical(start + done, data, from + done, len);
        done, remaining := done + 8, remaining - 8;
      }
      assert bytes[..size] == bytes;
    }

    method WriteCrossPage(la: nat, data: array<Byte>, from: nat, size: nat)
      requires Valid() && data != ram && 0 < size <= 64 && la + size <= |frames| * PAGE
      requires from + size <= data.Length
      modifies ram
      ensures Memory() == Overwrite(old(Memory()), la, data[from..from + size])
    {
      hide Mapping, Linear, Overwrite;
      var before := BytesBeforePage(la, size);
      var after := size - before;
      WriteSamePage(la, data, from, before);
      if after > 0 {
        NextPage(la, size);
        ghost var bytes := data[from..from + size];
        assert bytes[..before] == data[from..from + before] && bytes[before..size] == data[from + before..from + size];
        assert bytes[..size] == bytes;
        ExtendBy(old(Memory()), la, bytes, before, after);
        WriteSamePage(la + before, data, from + before, after);
      }
    }

    method ReadCrossPage(la: nat, buf: array<Byte>, at: nat, size: nat)
      requires Valid() && buf != ram && 0 < size <= 64 && la + size <= |frames| * PAGE
      requires at + size <= buf.Length
      modifies buf
      ensures buf[..] == Overwrite(old(buf[..]), at, Memory()[la..la + size])
    {
      hide Mapping, Linear, Overwrite, Padded, WordBytes, BytesBeforePage;
      var buffer := new Byte[72](i => 0);
      var before := BytesBeforePage(la, size);
      var after := size - before;
      FitsBuffer(before, after);
      ghost var bytes := Memory()[la..la + size];
      SplitSlice(Memory(), la, before, size);
      JoinedReads(buffer[..], bytes, before, WordBytes(before), WordBytes(after));
      ReadSamePage(la, buffer, 0, before);
      if after > 0 {
        NextPage(la, size);
        ReadSamePage(la + before, buffer, before, after);
      }
      assert buffer[0..size] == buffer[..][..size];
      CopyBytes(buffer, 0, buf, at, size);
    }

    // ----------------------------------------------------------------------
    // The address callback
    // ----------------------------------------------------------------------

    method ReadMetadataWord(la: nat, metadata: array<Byte>, at: nat)
      requires Valid() && metadata != ram && la % PAGE + 8 <= PAGE && la < |frames| * PAGE
      requires at + 8 <= metadata.Length
      modifies metadata
      ensures la + 8 <= |frames| * PAGE
      ensures metadata[..] == Overwrite(old(metadata[..]), at, Padded(Memory()[la..la + 8], 8))
    {
      hide Mapping, Linear, Overwrite, Padded;
      var pa := TranslateLaToPa(la);
      ReadIsLinear(frames, ram[..], la, 8);
      assert ram[pa..pa + 8] == Memory()[la..la + 8];
      StoreWord(metadata, at, pa, 8);
    }

    /** Reads the metadata of an address's slot, 8 bytes at a time. */
    method ReadMetadata(la: nat, e: SizeCode) returns (bytes: seq<Byte>)
      requires Valid() && SlotEnd(la, e) < |Memory()|
      ensures bytes == MetadataBytes(Memory(), la, e)
    {
      hide Mapping, Linear, Overwrite, Padded, MetadataAddress, MetadataSize, SlotStart, MiddleAddress;
      hide SlotEnd, Pow2, Low, Shr;
      SlotGeometry(la, e);
      var at: nat, size := MetadataAddress(la, e), MetadataSize(e);
      var metadata := new Byte[16](i => 0);
      var i := 0;
      ghost var mem := Memory();
      while i < size
        invariant i % 8 == 0 && i <= 16 && at + i <= |mem|
        invariant metadata[..][..i] == mem[at..at + i]
      {
        MetadataInPage(la, e, i);
        NextMetadata(metadata[..], mem, at, i);
        ReadMetadataWord(at + i, metadata, i);
        i := i + 8;
      }
      FirstBytes(metadata[..], mem, at, i, size);
      assert metadata[..size] == metadata[..][..size];
      bytes := metadata[..size];
    }

    /** The object whose metadata the address callback decoded last. */
    function Current(): Object
      reads this
    {
      Object(laMeta, metaSize, decMeta.lowerLa, decMeta.upperLa)
    }

    /** The callbacks are in the middle of an access to object o at la. */
    predicate Armed(o: Object, la: nat)
      reads this
    {
      isEncodedPointer && laDecoded == la && Current() == o
    }

    /** Decodes an encoded pointer and the metadata of its slot. */
    method DecodeEncoded(p: uint64)
      requires Valid() && Mapped(Memory(), p)
      modifies this
      ensures Armed(ObjectAt(Memory(), p), DecodePointer(p)) && decMeta == DecodedAt(Memory(), p)
      ensures ptrTag == EncodedTag(p) && encodedSize == EncodedSizeOf(p)
    {
      hide Mapping, Linear, MetadataBytes, MiddleAddress, MetadataAddress, MetadataSize, SlotStart, SlotEnd;
      hide DecodeMetadata, DecodePointer, EncodedTag, EncodedSizeOf;
      laDecoded, encodedSize := DecodePointer(p), EncodedSizeOf(p);
      SlotGeometry(laDecoded, encodedSize);
      laMeta, metaSize := MetadataAddress(laDecoded, encodedSize), MetadataSize(encodedSize);
      isEncodedPointer := true;
      laEncoded, ptrTag, laMiddle := p, EncodedTag(p), MiddleAddress(laDecoded, encodedSize);
      var metadata := ReadMetadata(laDecoded, encodedSize);
      decMeta := DecodeMetadata(metadata, laMiddle);
    }

    /** Decodes and checks an encoded pointer; a plain address passes, and is remembered when it
        is the second part of an access that crosses a page. */
    method AddressBefore(p: uint64, crossing: Crossing) returns (la: nat, fault: bool)
      requires Valid() && (IsEncodedLimPtr(p) ==> Mapped(Memory(), p))
      modifies this
      ensures IsEncodedLimPtr(p) ==> fault == !Admits(Memory(), p)
      ensures IsEncodedLimPtr(p) && !fault ==>
        la == DecodePointer(p) && Armed(ObjectAt(Memory(), p), la) && pageCrossing == crossing
      ensures fault ==> !isEncodedPointer
      ensures !IsEncodedLimPtr(p) ==>
        !fault && la == p && isEncodedPointer == old(isEncodedPointer)
      ensures !IsEncodedLimPtr(p) ==>
        Current() == old(Current())
      ensures !IsEncodedLimPtr(p) ==>
        laDecoded == if isEncodedPointer && crossing == Second then DecodePointer(p) else old(laDecoded)
    {
      hide Mapping, Linear, SlotStart, SlotEnd, DecodedAt, DecodePointer, EncodedTag;
      fault := false;
      if !IsEncodedLimPtr(p) {
        if isEncodedPointer && crossing == Second {
          pageCrossing := Second;
          laDecoded := DecodePointer(p);
        }
        return p, false;
      }
      DecodeEncoded(p);
      la := laDecoded;
      pageCrossing := crossing;
      if ptrTag != decMeta.tagLeft || decMeta.tagLeft != decMeta.tagRight {
        isEncodedPointer := false;
        return 0, true;
      }
      if decMeta.lowerLa < SlotStart(laDecoded, encodedSize) || decMeta.upperLa > SlotEnd(laDecoded, encodedSize) {
        la := CORRUPTED_ADDR;
      }
      if crossing == First {
        isCrossingPageFirst := true;
      }
      if laDecoded < decMeta.lowerLa {
        la := CORRUPTED_ADDR;
      } else if laDecoded > decMeta.upperLa {
        la := CORRUPTED_ADDR;
      }
      if la == CORRUPTED_ADDR {
        isEncodedPointer := false;
        fault := true;
      }
    }

    // ----------------------------------------------------------------------
    // The data callback
    // ----------------------------------------------------------------------

    /** An access of n bytes at la is within one page and within the current object. */
    predicate Granted(la: nat, n: nat)
      requires Valid()
      reads this
    {
      var o := Current();
      o.WellPlaced() && o.metaSize <= 16 && o.upper < |frames| * PAGE &&
      0 < n <= 64 && o.InBounds(la, n) && la % PAGE + n <= PAGE
    }

    lemma Room(la: nat, n: nat)
      requires Valid() && Granted(la, n)
      ensures Current().WellPlaced() && Current().InBounds(la, n) && Current().upper < |Memory()| == |frames| * PAGE
      ensures 0 < n <= 64 && 0 < metaSize <= 16 && Current().metaSize == metaSize && Current().meta == laMeta
      ensures la + n + metaSize <= |Memory()| && laMeta + metaSize <= |Memory()|
      ensures la % PAGE + n <= PAGE
    {
      hide Mapping, Linear;
    }

    method ShiftRead(la: nat, bytes: array<Byte>) returns (out: seq<Byte>)
      requires Valid() && Granted(la, bytes.Length) && bytes[..] == Memory()[la..la + bytes.Length]
      ensures out == LoadBytes(Shift, Current(), Memory(), la, bytes.Length)
    {
      hide Mapping, Linear, Overwrite, LoadBytes, Granted, Object.InBounds, Object.WellPlaced;
      var n := bytes.Length;
      Room(la, n);
      if la + n - 1 < laMeta {
        LoadBefore(Shift, Current(), Memory(), la, n);
        out := bytes[..];
      } else if laMeta <= la {
        out := ShiftReadAfter(la, n);
      } else {
        out := ShiftReadOver(la, n);
      }
    }

    method ShiftReadAfter(la: nat, n: nat) returns (out: seq<Byte>)
      requires Valid() && Granted(la, n) && laMeta <= la
      ensures out == LoadBytes(Shift, Current(), Memory(), la, n)
    {
      hide Mapping, Linear, Overwrite, LoadBytes, Granted, Object.InBounds, Object.WellPlaced;
      Room(la, n);
      var fixup := new Byte[80](i => 0);
      OnePart(fixup[..], Memory()[la + metaSize..la + metaSize + n]);
      ReadCrossPage(la + metaSize, fixup, 0, n);
      assert fixup[..n] == fixup[..][..n];
      out := fixup[..n];
      ShiftLoadAfter(Current(), Memory(), la, n);
    }

    method ShiftReadOver(la: nat, n: nat) returns (out: seq<Byte>)
      requires Valid() && Granted(la, n) && la < laMeta < la + n
      ensures out == LoadBytes(Shift, Current(), Memory(), la, n)
    {
      hide Mapping, Linear, Overwrite, LoadBytes, Padded, WordBytes, Granted, Object.InBounds, Object.WellPlaced;
      Room(la, n);
      var before := laMeta - la;
      var fixup := new Byte[80](i => 0);
      ghost var mem := Memory();
      WordsFit(before, 80);
      PaddedParts(fixup[..], mem[la..laMeta], WordBytes(before),
                  mem[laMeta + metaSize..laMeta + metaSize + (n - before)]);
      ReadSamePage(la, fixup, 0, before);
      ReadCrossPage(laMeta + metaSize, fixup, before, n - before);
      assert fixup[..n] == fixup[..][..n];
      out := fixup[..n];
      ShiftLoadOver(Current(), Memory(), la, n);
    }

    method ShiftWrite(la: nat, bytes: array<Byte>) returns (out: seq<Byte>)
      requires Valid() && Granted(la, bytes.Length) && bytes != ram
      modifies ram
      ensures |out| == bytes.Length && la + |out| <= |Memory()|
      ensures Overwrite(Memory(), la, out) == StoreBytes(Shift, Current(), old(Memory()), la, bytes[..])
    {
      hide Mapping, Linear, Overwrite, StoreBytes, Granted, Object.InBounds, Object.WellPlaced;
      Room(la, bytes.Length);
      if la + bytes.Length - 1 < laMeta {
        StoreBefore(Shift, Current(), Memory(), la, bytes[..]);
        out := bytes[..];
      } else if laMeta <= la {
        out := ShiftWriteAfter(la, bytes);
      } else {
        out := ShiftWriteOver(la, bytes);
      }
    }

    /** The bytes already there, then the data again. */
    method ShiftWriteAfter(la: nat, bytes: array<Byte>) returns (out: seq<Byte>)
      requires Valid() && Granted(la, bytes.Length) && bytes != ram && laMeta <= la
      modifies ram
      ensures |out| == bytes.Length && la + |out| <= |Memory()|
      ensures Overwrite(Memory(), la, out) == StoreBytes(Shift, Current(), old(Memory()), la, bytes[..])
    {
      hide Mapping, Linear, Overwrite, StoreBytes, Granted, Object.InBounds, Object.WellPlaced;
      var n := bytes.Length;
      Room(la, n);
      var k := if n < metaSize then n else metaSize;
      var fixup := new Byte[80](i => 0);
      ghost var mem, data, b := Memory(), bytes[..], fixup[..];
      ReadCrossPage(la, fixup, 0, k);
      assert bytes[0..n] == data;
      WriteCrossPage(la + metaSize, bytes, 0, n);
      OnePart(b, mem[la..la + k]);
      if n > metaSize {
        TwoParts(b, mem[la..la + k], data[..n - k]);
        assert bytes[0..n - k] == data[..n - k];
        CopyBytes(bytes, 0, fixup, metaSize, n - metaSize);
      }
      assert fixup[..n] == fixup[..][..n] == mem[la..la + k] + data[..n - k];
      out := fixup[..n];
      ShiftStoreAfter(Current(), mem, la, data);
    }

    /** The prefix of the data, the metadata, and what else of the data fits. */
    method ShiftWriteOver(la: nat, bytes: array<Byte>) returns (out: seq<Byte>)
      requires Valid() && Granted(la, bytes.Length) && bytes != ram && la < laMeta < la + bytes.Length
      modifies ram
      ensures |out| == bytes.Length && la + |out| <= |Memory()|
      ensures Overwrite(Memory(), la, out) == StoreBytes(Shift, Current(), old(Memory()), la, bytes[..])
    {
      hide Mapping, Linear, Overwrite, StoreBytes, Granted, Object.InBounds, Object.WellPlaced;
      var n := bytes.Length;
      Room(la, n);
      var before := laMeta - la;
      var after := n - before;
      ghost var mem, data := Memory(), bytes[..];
      var fixup := AroundMetadata(bytes, before);
      assert bytes[before..before + after] == data[before..];
      WriteCrossPage(laMeta + metaSize, bytes, before, after);
      assert fixup[..n] == fixup[..n + metaSize][..n];
      out := fixup[..n];
      ShiftStoreOver(Current(), mem, la, data);
    }

    /** A buffer with the metadata between the first k bytes and the rest. */
    method AroundMetadata(bytes: array<Byte>, k: nat) returns (fixup: array<Byte>)
      requires Valid() && 0 < metaSize <= 16 && laMeta + metaSize <= |Memory()| && k <= bytes.Length <= 64
      ensures fresh(fixup) && fixup.Length == 80
      ensures fixup[..bytes.Length + metaSize] == bytes[..][..k] + Memory()[laMeta..laMeta + metaSize] + bytes[..][k..]
    {
      hide Mapping, Linear, Overwrite;
      var n := bytes.Length;
      fixup := new Byte[80](i => 0);
      ghost var data, meta := bytes[..], Memory()[laMeta..laMeta + metaSize];
      ThreeParts(fixup[..], data[..k], meta, data[k..]);
      assert bytes[0..k] == data[..k] && bytes[k..k + (n - k)] == data[k..];
      CopyBytes(bytes, 0, fixup, 0, k);
      ReadCrossPage(laMeta, fixup, k, metaSize);
      CopyBytes(bytes, k, fixup, k + metaSize, n - k);
      assert fixup[..n + metaSize] == fixup[..][..n + metaSize];
    }

    method DisplaceRead(la: nat, bytes: array<Byte>) returns (out: seq<Byte>)
      requires Valid() && Granted(la, bytes.Length) && bytes != ram
      requires bytes[..] == Memory()[la..la + bytes.Length]
      ensures out == LoadBytes(Displace, Current(), Memory(), la, bytes.Length)
    {
      hide Mapping, Linear, LoadBytes, Granted, Object.InBounds, Object.WellPlaced;
      Room(la, bytes.Length);
      if laMeta < la + bytes.Length && la < laMeta + metaSize {
        out := DisplaceReadOver(Current(), la, bytes);
      } else {
        LoadBefore(Displace, Current(), Memory(), la, bytes.Length);
        out := bytes[..];
      }
    }

    /** The bytes at la, but for those of the metadata, which come from the displaced area. */
    method DisplaceReadOver(o: Placed, la: nat, bytes: array<Byte>) returns (out: seq<Byte>)
      requires Valid() && o.InBounds(la, bytes.Length) && o.upper < |frames| * PAGE && 0 < bytes.Length <= 64
      requires bytes != ram && bytes[..] == Memory()[la..la + bytes.Length]
      requires o.meta < la + bytes.Length && la < o.meta + o.metaSize
      ensures out == LoadBytes(Displace, o, Memory(), la, bytes.Length)
    {
      hide Mapping, Linear, LoadBytes, Overwrite, OverlapOf, Object.InBounds, Object.DispBase;
      var v := ComputeOverlap(o, la, bytes.Length);
      DisplacedLoad(o, Memory(), la, bytes.Length);
      out := Patched(bytes, v.k, o.DispBase() + v.j, v.m);
    }

    /** The bytes, but m of them, from the k-th on, read from memory at an address. */
    method Patched(bytes: array<Byte>, k: nat, at: nat, m: nat) returns (out: seq<Byte>)
      requires Valid() && 0 < m && k + m <= bytes.Length <= 64 && at + m <= |Memory()|
      ensures out == Overwrite(bytes[..], k, Memory()[at..at + m])
    {
      hide Mapping, Linear, Overwrite;
      var n := bytes.Length;
      var fixup := new Byte[80](i => 0);
      ghost var data, read := bytes[..], Memory()[at..at + m];
      PatchedParts(fixup[..], data, k, read);
      assert bytes[0..k] == data[..k] && bytes[k + m..k + m + (n - k - m)] == data[k + m..];
      CopyBytes(bytes, 0, fixup, 0, k);
      ReadCrossPage(at, fixup, k, m);
      CopyBytes(bytes, k + m, fixup, k + m, n - k - m);
      assert fixup[..n] == fixup[..][..n];
      out := fixup[..n];
    }

    method DisplaceWrite(la: nat, bytes: array<Byte>) returns (out: seq<Byte>)
      requires Valid() && Granted(la, bytes.Length) && bytes != ram
      modifies ram
      ensures |out| == bytes.Length && la + |out| <= |Memory()|
      ensures Overwrite(Memory(), la, out) == StoreBytes(Displace, Current(), old(Memory()), la, bytes[..])
    {
      hide Mapping, Linear, Overwrite, StoreBytes, Granted, OverlapOf;
      hide Object.InBounds, Object.WellPlaced, Object.DispBase;
      Room(la, bytes.Length);
      if laMeta < la + bytes.Length && la < laMeta + metaSize {
        out := DisplaceWriteOver(Current(), la, bytes);
      } else {
        StoreBefore(Displace, Current(), Memory(), la, bytes[..]);
        out := bytes[..];
      }
    }

    method DisplaceWriteOver(o: Placed, la: nat, bytes: array<Byte>) returns (out: seq<Byte>)
      requires Valid() && o.InBounds(la, bytes.Length) && o.upper < |frames| * PAGE && 0 < bytes.Length <= 64
      requires bytes != ram && o.meta < la + bytes.Length && la < o.meta + o.metaSize
      requires la + bytes.Length <= |frames| * PAGE
      modifies ram
      ensures |out| == bytes.Length && la + |out| <= |Memory()|
      ensures Overwrite(Memory(), la, out) == StoreBytes(Displace, o, old(Memory()), la, bytes[..])
    {
      hide Mapping, Linear, Overwrite, StoreBytes, OverlapOf, Object.InBounds, Object.DispBase;
      var v := ComputeOverlap(o, la, bytes.Length);
      var start := o.DispBase() + v.j;
      NoOverlap(o, la, bytes.Length);
      if o.meta <= start < o.meta + o.metaSize || (start < o.meta && o.meta < start + v.m) {
        // "Bad LIM metadata configuration"
        assert false;
      }
      DisplacedStore(o, Memory(), la, bytes[..]);
      out := Patched(bytes, v.k, la + v.k, v.m);
      assert bytes[v.k..v.k + v.m] == bytes[..][v.k..v.k + v.m];
      WriteCrossPage(start, bytes, v.k, v.m);
    }

    /** Replaces the bytes of a granted access so that metadata do not show. */
    method FixUp(la: nat, bytes: array<Byte>, write: bool) returns (out: seq<Byte>)
      requires Valid() && Granted(la, bytes.Length) && bytes != ram
      requires la + bytes.Length <= |Memory()| && (!write ==> bytes[..] == Memory()[la..la + bytes.Length])
      modifies ram
      ensures |out| == bytes.Length
      ensures !write ==> Memory() == old(Memory()) && out == LoadBytes(mode, Current(), Memory(), la, bytes.Length)
      ensures write ==> Overwrite(Memory(), la, out) == StoreBytes(mode, Current(), old(Memory()), la, bytes[..])
    {
      hide Mapping, Linear, Overwrite, StoreBytes, LoadBytes;
      if mode == Displace {
        if write {
          out := DisplaceWrite(la, bytes);
        } else {
          out := DisplaceRead(la, bytes);
        }
      } else {
        if write {
          out := ShiftWrite(la, bytes);
        } else {
          out := ShiftRead(la, bytes);
        }
      }
    }

    /** The callbacks expect data at la, for an object the address callback let through. */
    predicate Expecting(la: nat)
      requires Valid()
      reads this
    {
      isEncodedPointer && laDecoded == la && la != 0 &&
      Current().WellPlaced() && metaSize <= 16 && decMeta.lowerLa <= la && decMeta.upperLa < |frames| * PAGE
    }

    /** Called between the processor and memory, with the bytes it is about to store, or has
        just loaded; returns the bytes to use instead. */
    method ModifyDataOnMemAccess(la: nat, bytes: array<Byte>, write: bool, crossing: Crossing)
        returns (out: seq<Byte>, fault: bool)
      requires Valid() && bytes != ram && bytes.Length <= 64 && la % PAGE + bytes.Length <= PAGE
      requires la + bytes.Length <= |Memory()| && (!write ==> bytes[..] == Memory()[la..la + bytes.Length])
      requires isEncodedPointer && laDecoded == la && la != 0 ==> Expecting(la)
      modifies this, ram
      ensures Current() == old(Current()) && laDecoded == old(laDecoded)
      ensures !old(Expecting(la)) ==> !fault && out == bytes[..] && Memory() == old(Memory())
      ensures !old(Expecting(la)) ==> isEncodedPointer == (old(isEncodedPointer) && la == 0)
      ensures old(Expecting(la)) ==> fault == !Current().InBounds(la, bytes.Length)
      ensures fault ==> Memory() == old(Memory()) && !isEncodedPointer
      ensures !fault ==> |out| == bytes.Length
      ensures old(Expecting(la)) && !fault ==> isEncodedPointer == (crossing == First && bytes.Length > 0)
      ensures old(Expecting(la)) && !fault && !write ==>
        Memory() == old(Memory()) && out == LoadBytes(mode, Current(), Memory(), la, bytes.Length)
      ensures old(Expecting(la)) && !fault && write ==>
        Overwrite(Memory(), la, out) == StoreBytes(mode, Current(), old(Memory()), la, bytes[..])
    {
      hide Mapping, Linear, Overwrite, StoreBytes, LoadBytes;
      out, fault := bytes[..], false;
      if !isEncodedPointer || la == 0 {
        return;
      }
      if la != laDecoded {
        isEncodedPointer := false;
        return;
      }
      var size := bytes.Length;
      var lastAfterShift := la + size - 1 + metaSize;
      if lastAfterShift > decMeta.upperLa {
        isEncodedPointer := false;
        fault := true;
        return;
      }
      pageCrossing := crossing;
      if size == 0 {
        isEncodedPointer := false;
        NothingToFix(mode, Current(), Memory(), la);
        return;
      }
      out := FixUp(la, bytes, write);
      if pageCrossing == NoCrossing || pageCrossing == Second {
        isEncodedPointer := false;
        isCrossingPageSecond := false;
      }
      if pageCrossing == First {
        pageCrossing := Second;
        isCrossingPageFirst := false;
        isCrossingPageSecond := true;
      }
    }

    // ----------------------------------------------------------------------
    // The processor
    // ----------------------------------------------------------------------

    /** What the processor finds in memory. */
    method Fetch(la: nat, n: nat) returns (bytes: array<Byte>)
      requires Valid() && la < |frames| * PAGE && la % PAGE + n <= PAGE
      ensures fresh(bytes) && bytes.Length == n && la + n <= |Memory()| && bytes[..] == Memory()[la..la + n]
    {
      hide Mapping, Linear, Overwrite;
      var pa := TranslateLaToPa(la);
      ReadIsLinear(frames, ram[..], la, n);
      bytes := new Byte[n](i => 0);
      OnePart(bytes[..], ram[pa..pa + n]);
      CopyBytes(ram, pa, bytes, 0, n);
      assert bytes[..] == bytes[..][..n];
    }

    method Deposit(la: nat, data: seq<Byte>)
      requires Valid() && la < |frames| * PAGE && la % PAGE + |data| <= PAGE
      modifies ram
      ensures la + |data| <= |Memory()| && Memory() == Overwrite(old(Memory()), la, data)
    {
      hide Mapping, Linear, Overwrite;
      var bytes := new Byte[|data|](i requires 0 <= i < |data| => data[i]);
      assert bytes[0..|data|] == data;
      WriteSamePage(la, bytes, 0, |data|);
    }

    /** The processor's load or store at la, with the data callback in between. */
    method Transfer(la: nat, op: Op, crossing: Crossing) returns (out: Outcome)
      requires Valid() && la < |frames| * PAGE && la % PAGE + op.Size() <= PAGE && op.Size() <= 64
      requires Expecting(la)
      modifies this, ram
      ensures (Memory(), out) == Piece(mode, old(Memory()), old(Current()), la, op)
      ensures Current() == old(Current()) && laDecoded == old(laDecoded)
      ensures isEncodedPointer == (out.Done? && crossing == First && op.Size() > 0)
    {
      hide Mapping, Linear, Overwrite, StoreBytes, LoadBytes, Object.InBounds;
      PageEnd(|frames|, la, op.Size());
      match op
      case Load(n) =>
        var bytes := Fetch(la, n);
        var seen, fault := ModifyDataOnMemAccess(la, bytes, false, crossing);
        out := if fault then Fault else Done(seen);
      case Store(data) =>
        var bytes := new Byte[|data|](i requires 0 <= i < |data| => data[i]);
        assert bytes[..] == data;
        var put, fault := ModifyDataOnMemAccess(la, bytes, true, crossing);
        if fault {
          out := Fault;
        } else {
          Deposit(la, put);
          out := Done([]);
        }
    }

    /** A load or store instruction through an encoded pointer: one transfer, or two when it
        crosses a page. */
    method Perform(p: uint64, op: Op) returns (out: Outcome)
      requires Valid() && Mapped(Memory(), p) && Executable(|Memory()|, Encoded(p, op))
      modifies this, ram
      ensures (Memory(), out) == Access(mode, old(Memory()), p, op) && !isEncodedPointer
    {
      hide Mapping, Linear, Admits, ObjectAt, Piece, Head, Tail, Access, Mapped, BytesBeforePage;
      hide DecodePointer, Object.WellPlaced, EncodedSizeOf;
      MappedPointer(Memory(), p);
      AccessIsPieces(mode, Memory(), p, op);
      var n := op.Size();
      var k := BytesBeforePage(DecodePointer(p), n);
      var la, fault := AddressBefore(p, if k == n then NoCrossing else First);
      if fault {
        return Fault;
      }
      if k == n {
        HeadIsWhole(op);
        out := Transfer(la, op, NoCrossing);
      } else {
        out := TransferTwice(la, op, k);
      }
    }

    method TransferTwice(la: nat, op: Op, k: nat) returns (out: Outcome)
      requires Valid() && Expecting(la) && la + op.Size() <= 0x40_0000_0000_0000 && la + op.Size() <= |frames| * PAGE
      requires k == BytesBeforePage(la, op.Size()) < op.Size() <= 64
      modifies this, ram
      ensures out == Piece(mode, old(Memory()), old(Current()), la, op).1 && !isEncodedPointer
      ensures Memory() == if out.Done? then Piece(mode, old(Memory()), old(Current()), la, op).0
                          else Piece(mode, old(Memory()), old(Current()), la, Head(op, k)).0
    {
      hide Mapping, Linear, Piece, BytesBeforePage;
      NextPage(la, op.Size());
      PieceSplit(mode, Memory(), Current(), la, op, k);
      out := Transfer(la, Head(op, k), First);
      if out.Fault? {
        return;
      }
      SecondAddress(la + k);
      var next, fault := AddressBefore(la + k, Second);
      var rest := Transfer(next, Tail(op, k), Second);
      out := if rest.Fault? then Fault else Done(out.data + rest.data);
    }

    /** A store through a plain pointer, while no encoded access is under way: one chunk, or
        two when it crosses a page. */
    method PlainStore(at: nat, data: seq<Byte>)
      requires Valid() && !isEncodedPointer && at + |data| <= |Memory()| && Executable(|Memory()|, Plain(at, data))
      modifies this, ram
      ensures Memory() == Overwrite(old(Memory()), at, data) && !isEncodedPointer
    {
      hide Mapping, Linear, Overwrite, BytesBeforePage, IsEncodedLimPtr;
      var k := BytesBeforePage(at, |data|);
      if k == |data| {
        PlainChunk(at, data, NoCrossing);
      } else {
        NextPage(at, |data|);
        ExtendBy(Memory(), at, data, k, |data| - k);
        assert data[..k + (|data| - k)] == data && data[k..k + (|data| - k)] == data[k..];
        PlainChunk(at, data[..k], First);
        PlainChunk(at + k, data[k..], Second);
      }
    }

    method PlainChunk(at: uint64, data: seq<Byte>, crossing: Crossing)
      requires Valid() && !isEncodedPointer && at < |Memory()| && !IsEncodedLimPtr(at)
      requires |data| <= 64 && at % PAGE + |data| <= PAGE
      modifies this, ram
      ensures at + |data| <= |Memory()| && Memory() == Overwrite(old(Memory()), at, data) && !isEncodedPointer
    {
      hide Mapping, Linear, Overwrite, IsEncodedLimPtr;
      PageEnd(|frames|, at, |data|);
      var la, fault := AddressBefore(at, crossing);
      var bytes := new Byte[|data|](i requires 0 <= i < |data| => data[i]);
      assert bytes[..] == data;
      var put, refused := ModifyDataOnMemAccess(la, bytes, true, crossing);
      Deposit(la, put);
    }
  }

  lemma RunStep(mode: Mode, mem: Memory, evs: seq<Event>, i: nat, s: Slot, o: Object)
    requires i < |evs| && Apart(mode, mem, evs[i..], s, o)
    ensures Possible(mem, evs[i])
    ensures var (mem', out) := Step(mode, mem, evs[i]);
      && Apart(mode, mem', evs[i + 1..], s, o)
      && var (last, outs) := Run(mode, mem', evs[i + 1..], s, o);
      Run(mode, mem, evs[i..], s, o) == (last, if About(s, evs[i]) then [out] + outs else outs)
  {
    hide Step, Possible, Elsewhere, Slot.Mine;
    assert evs[i..][0] == evs[i] && evs[i..][1..] == evs[i + 1..];
  }

  lemma RunEnd(mode: Mode, mem: Memory, evs: seq<Event>, s: Slot, o: Object)
    ensures Apart(mode, mem, evs[|evs|..], s, o) && Run(mode, mem, evs[|evs|..], s, o) == (mem, [])
  {
  }

  /** A run on the machine is a run of the access function; about a slot whose metadata
      describe an object, it is a run of flat memory. */
  method Session(m: LimModel, evs: seq<Event>, s: Slot, ghost o: Object) returns (outs: seq<Outcome>)
    requires m.Valid() && !m.isEncodedPointer && Apart(m.mode, m.Memory(), evs, s, o)
    requires forall i | 0 <= i < |evs| :: Executable(|m.Memory()|, evs[i])
    modifies m, m.ram
    ensures (m.Memory(), outs) == Run(m.mode, old(m.Memory()), evs, s, o)
    ensures s.Describes(old(m.Memory()), o) ==> s.Describes(m.Memory(), o)
    ensures s.Describes(old(m.Memory()), o) ==>
      (View(m.mode, o, m.Memory()), outs) == FlatRun(View(m.mode, o, old(m.Memory())), o.lower, evs, s)
  {
    hide Mapping, Linear, Overwrite, Access, Executable, Slot.Mine, Apart, Run, FlatRun, View, Slot.Describes;
    outs := [];
    var i := 0;
    ghost var last := Run(m.mode, m.Memory(), evs, s, o);
    if s.Describes(m.Memory(), o) {
      DescribedObject(m.Memory(), s, o);
      RunIsFlat(m.mode, m.Memory(), evs, s, o);
    }
    assert evs[0..] == evs;
    while i < |evs|
      invariant i <= |evs| && m.Valid() && !m.isEncodedPointer
      invariant Apart(m.mode, m.Memory(), evs[i..], s, o)
      invariant last.0 == Run(m.mode, m.Memory(), evs[i..], s, o).0
      invariant last.1 == outs + Run(m.mode, m.Memory(), evs[i..], s, o).1
    {
      RunStep(m.mode, m.Memory(), evs, i, s, o);
      match evs[i] {
        case Encoded(p, op) =>
          var out := m.Perform(p, op);
          if About(s, evs[i]) {
            outs := outs + [out];
          }
        case Plain(at, data) =>
          m.PlainStore(at, data);
      }
      i := i + 1;
    }
    RunEnd(m.mode, m.Memory(), evs, s, o);
    assert outs + [] == outs;
  }

  /** What one instruction can do: up to 64 bytes; through an encoded pointer at addresses that
      lim_decode_pointer keeps, through a plain one at addresses that do not look encoded. */
  predicate Executable(size: nat, ev: Event) {
    match ev
    case Encoded(p, op) =>
      op.Size() <= 64 && DecodePointer(p) + op.Size() <= 0x40_0000_0000_0000 && DecodePointer(p) + op.Size() <= size
    case Plain(at, data) =>
      var k := BytesBeforePage(at, |data|);
      |data| <= 64 && at < size && size <= WORDS && !IsEncodedLimPtr(at) &&
      (k < |data| ==> at + k < size && !IsEncodedLimPtr(at + k))
  }

  lemma MappedPointer(mem: Memory, p: uint64)
    requires Mapped(mem, p)
    ensures IsEncodedLimPtr(p) && DecodePointer(p) < |mem|
  {
    hide Low, Shr, Pow2, MiddleAddress, SlotStart, SlotEnd;
    SlotGeometry(DecodePointer(p), EncodedSizeOf(p));
  }

  lemma SecondAddress(la: nat)
    requires la < 0x40_0000_0000_0000
    ensures !IsEncodedLimPtr(la) && DecodePointer(la) == la
  {
  }

  lemma HeadIsWhole(op: Op)
    ensures Head(op, op.Size()) == op
  {
  }

  lemma NothingToFix(mode: Mode, o: Placed, mem: Memory, la: nat)
    requires o.InBounds(la, 0) && o.upper < |mem|
    ensures LoadBytes(mode, o, mem, la, 0) == []
    ensures la <= |mem| && Overwrite(mem, la, []) == StoreBytes(mode, o, mem, la, [])
  {
  }

  /** Where an access meets the metadata, as the displacement code computes it. */
  method ComputeOverlap(o: Placed, la: nat, n: nat) returns (v: Overlap)
    requires n > 0 && o.meta < la + n && la < o.meta + o.metaSize
    ensures v == OverlapOf(o, la, n)
  {
    var last := la + n - 1;
    var metaLast := o.meta + o.metaSize - 1;
    var k: nat := (if la < o.meta then o.meta else la) - la;
    var j: nat := if o.meta < la then la - o.meta else 0;
    var end: nat := (if last < metaLast then last else metaLast) - o.meta;
    v := Overlap(k, j, end - j + 1);
  }

  /** The guard against displaced data that overwrite the metadata never fires. */
  lemma NoOverlap(o: Placed, la: nat, n: nat)
    requires o.InBounds(la, n) && n > 0 && o.meta < la + n && la < o.meta + o.metaSize
    ensures var v := OverlapOf(o, la, n);
      var start := o.DispBase() + v.j;
      !(o.meta <= start < o.meta + o.metaSize) && !(start < o.meta && o.meta < start + v.m)
  {
    var v := OverlapOf(o, la, n);
    DisplacedAreaIsFree(o, o.meta + v.j, v.m, la);
  }

  lemma WordsFit(size: nat, n: nat)
    requires size + 8 <= n
    ensures WordBytes(size) <= n
  {
  }

  lemma OnePart(b: seq<Byte>, d: seq<Byte>)
    requires |d| <= |b|
    ensures Overwrite(b, 0, d)[..|d|] == d
  {
  }

  lemma TwoParts(b: seq<Byte>, d: seq<Byte>, e: seq<Byte>)
    requires |d| + |e| <= |b|
    ensures Overwrite(Overwrite(b, 0, d), |d|, e)[..|d| + |e|] == d + e
  {
  }

  lemma ThreeParts(b: seq<Byte>, d: seq<Byte>, e: seq<Byte>, f: seq<Byte>)
    requires |d| + |e| + |f| <= |b|
    ensures Overwrite(Overwrite(Overwrite(b, 0, d), |d|, e), |d| + |e|, f)[..|d| + |e| + |f|] == d + e + f
  {
  }

  lemma PatchedParts(b: seq<Byte>, data: seq<Byte>, k: nat, d: seq<Byte>)
    requires k + |d| <= |data| <= |b|
    ensures Overwrite(Overwrite(Overwrite(b, 0, data[..k]), k, d), k + |d|, data[k + |d|..])[..|data|] ==
      Overwrite(data, k, d)
  {
    ThreeParts(b, data[..k], d, data[k + |d|..]);
  }

  lemma PaddedParts(b: seq<Byte>, d: seq<Byte>, n: nat, e: seq<Byte>)
    requires |d| <= n <= |b| && |d| + |e| <= |b|
    ensures Overwrite(Overwrite(b, 0, Padded(d, n)), |d|, e)[..|d| + |e|] == d + e
  {
  }

  const CORRUPTED_ADDR: nat := 0

  /** The words that hold the metadata do not cross a page. */
  lemma MetadataInPage(la: nat, e: SizeCode, i: nat)
    requires i % 8 == 0 && i < MetadataSize(e)
    ensures var at := MetadataAddress(la, e);
      at >= 0 && (at + i) % PAGE + 8 <= PAGE && at + i + 8 <= SlotEnd(la, e) + 1
  {
    hide Low, Shr, Pow2, SlotEnd, MiddleAddress, SlotStart, SlotSize, MetadataAddress, MetadataSize;
    SlotGeometry(la, e);
    Multiple16(la, e);
    MetadataPlace(la, e);
    if MetadataSize(e) == 2 {
      SmallSlotMiddle(la, e);
      BeforeMiddle(MiddleAddress(la, e));
    } else {
      WordInPage(MetadataAddress(la, e) + i);
    }
  }

  lemma WordInPage(a: nat)
    requires a % 8 == 0
    ensures a % PAGE + 8 <= PAGE
  {
  }

  lemma BeforeMiddle(m: nat)
    requires m % 16 == 0 && m % PAGE != 0
    ensures (m - 1) % PAGE + 8 <= PAGE
  {
    var q, r := m / PAGE, m % PAGE;
    assert r % 16 == 0 by {
      assert m == 16 * (256 * q) + r;
    }
    Remainder(q, r - 1);
  }

  lemma Remainder(q: nat, r: nat)
    requires r < PAGE
    ensures (PAGE * q + r) % PAGE == r
  {
  }

  lemma NextMetadata(b: seq<Byte>, mem: Memory, at: nat, i: nat)
    requires at + i + 8 <= |mem| && i + 8 <= |b| && b[..i] == mem[at..at + i]
    ensures Overwrite(b, i, Padded(mem[at + i..at + i + 8], 8))[..i + 8] == mem[at..at + i + 8]
  {
  }

  lemma FirstBytes(b: seq<Byte>, mem: Memory, at: nat, n: nat, k: nat)
    requires k <= n <= |b| && at + n <= |mem| && b[..n] == mem[at..at + n]
    ensures b[..k] == mem[at..at + k]
  {
    assert b[..n][..k] == b[..k];
    assert mem[at..at + n][..k] == mem[at..at + k];
  }

  /** Slots of 128 and 256 bytes do not have their middle at a page boundary. */
  lemma SmallSlotMiddle(la: nat, e: SizeCode)
    requires e == 7 || e == 8
    ensures MiddleAddress(la, e) % PAGE != 0
  {
    hide Low, Shr, Pow2;
    SmallPowers();
    ShrLow(la, e);
    var s := Shr(la, e);
    assert MiddleAddress(la, e) == s * Pow2(e) + Pow2(e - 1);
  }

  /** 72 bytes hold two reads of 64 bytes in all, with the overrun of the second. */
  lemma FitsBuffer(before: nat, after: nat)
    requires 0 < before && before + after <= 64
    ensures WordBytes(before) <= 72 && before + WordBytes(after) <= 72
  {
  }

  /** The second read overwrites what the first left after its data. */
  lemma JoinedReads(b: seq<Byte>, bytes: seq<Byte>, k: nat, n: nat, m: nat)
    requires k <= |bytes| && k <= n <= |b| && |bytes| - k <= m && k + m <= |b|
    ensures var first := Overwrite(b, 0, Padded(bytes[..k], n));
      && (k == |bytes| ==> first[..k] == bytes)
      && Overwrite(first, k, Padded(bytes[k..], m))[..|bytes|] == bytes
  {
  }

  /** A transfer that goes past its page continues at the start of the next. */
  lemma NextPage(la: nat, size: nat)
    requires size <= 64 && BytesBeforePage(la, size) < size
    ensures (la + BytesBeforePage(la, size)) % PAGE == 0
  {
  }

  lemma SplitSlice(mem: Memory, at: nat, k: nat, n: nat)
    requires k <= n && at + n <= |mem|
    ensures mem[at..at + n][..k] == mem[at..at + k] && mem[at..at + n][k..] == mem[at + k..at + n]
  {
  }

  lemma ArraySlice(a: array<Byte>, at: nat, n: nat, i: nat, m: nat)
    requires i + m <= n && at + n <= a.Length
    ensures a[at..at + n][i..i + m] == a[at + i..at + i + m]
  {
    var s, t := a[at..at + n][i..i + m], a[at + i..at + i + m];
    assert forall k | 0 <= k < m :: s[k] == t[k];
  }

  lemma NextWord(s: seq<Byte>, at: nat, bytes: seq<Byte>, done: nat)
    requires done < |bytes| && done % 8 == 0 && at + WordBytes(|bytes|) <= |s|
    ensures var len := if |bytes| - done < 8 then |bytes| - done else 8;
      var words := Padded(bytes, WordBytes(|bytes|));
      && done + 8 <= |words| && (done + 8 >= |bytes| ==> done + 8 == |words|)
      && Overwrite(Overwrite(s, at, words[..done]), at + done, Padded(bytes[done..done + len], 8)) ==
           Overwrite(s, at, words[..done + 8])
  {
    hide WordBytes, Overwrite;
    WordCount(|bytes|, done);
    var len := if |bytes| - done < 8 then |bytes| - done else 8;
    var words := Padded(bytes, WordBytes(|bytes|));
    Extend(s, at, words[..done], Padded(bytes[done..done + len], 8));
    assert words[..done] + Padded(bytes[done..done + len], 8) == words[..done + 8];
  }

  lemma WordCount(size: nat, done: nat)
    requires done < size && done % 8 == 0
    ensures done + 8 <= WordBytes(size) && (done + 8 >= size ==> done + 8 == WordBytes(size))
  {
  }
}
