/** Paged memory: linear addresses translate page by page to physical ones. And, for each kind
    of access, the buffer that makes the metadata of a LIM object invisible
    (modules/lim_model/model.cpp). */
module LimMemory {
  import opened Words
  import opened Buffers
  import opened LimEncoding
  import opened LimObject

  const PAGE: nat := 4096

  // ------------------------------------------------------------------------
  // Translation
  // ------------------------------------------------------------------------

  /** Distinct pages of physical memory; physical page 0 is not used. */
  predicate Mapping(frames: seq<nat>, size: nat) {
    (forall i | 0 <= i < |frames| :: 0 < frames[i] && (frames[i] + 1) * PAGE <= size) &&
    (forall i, j | 0 <= i < j < |frames| :: frames[i] != frames[j]) &&
    |frames| * PAGE <= WORDS
  }

  function Translate(frames: seq<nat>, a: nat): (pa: nat)
    requires a / PAGE < |frames|
  {
    frames[a / PAGE] * PAGE + a % PAGE
  }

  lemma PageOf(n: nat, a: nat)
    ensures a < n * PAGE <==> a / PAGE < n
  {
  }

  lemma TranslateInside(frames: seq<nat>, size: nat, a: nat)
    requires Mapping(frames, size) && a < |frames| * PAGE
    ensures a / PAGE < |frames| && PAGE <= Translate(frames, a) < size
    ensures Translate(frames, a) - a % PAGE + PAGE <= size
  {
    PageOf(|frames|, a);
    var f := frames[a / PAGE];
    assert (f + 1) * PAGE <= size;
  }

  lemma InPage(a: nat, k: nat)
    requires a % PAGE + k < PAGE
    ensures (a + k) / PAGE == a / PAGE && (a + k) % PAGE == a % PAGE + k
  {
  }

  lemma SameQuotient(f: nat, r: nat, g: nat, t: nat)
    requires f * PAGE + r == g * PAGE + t && r < PAGE && t < PAGE
    ensures f == g && r == t
  {
  }

  lemma TranslateInjective(frames: seq<nat>, size: nat, a: nat, b: nat)
    requires Mapping(frames, size) && a < |frames| * PAGE && b < |frames| * PAGE
    requires a / PAGE < |frames| && b / PAGE < |frames| && Translate(frames, a) == Translate(frames, b)
    ensures a == b
  {
    SameQuotient(frames[a / PAGE], a % PAGE, frames[b / PAGE], b % PAGE);
    assert a / PAGE == b / PAGE;
  }

  /** Memory as linear addresses show it. */
  function Linear(frames: seq<nat>, ram: seq<Byte>): (r: Memory)
    requires Mapping(frames, |ram|)
    ensures |r| == |frames| * PAGE
  {
    seq(|frames| * PAGE, a requires 0 <= a < |frames| * PAGE =>
      (TranslateInside(frames, |ram|, a); ram[Translate(frames, a)]))
  }

  /** Within a page, physical bytes in a row are linear bytes in a row. */
  lemma ReadIsLinear(frames: seq<nat>, ram: seq<Byte>, la: nat, n: nat)
    requires Mapping(frames, |ram|) && la < |frames| * PAGE && la % PAGE + n <= PAGE
    ensures la / PAGE < |frames| && Translate(frames, la) + n <= |ram| && la + n <= |frames| * PAGE
    ensures ram[Translate(frames, la)..Translate(frames, la) + n] == Linear(frames, ram)[la..la + n]
  {
    hide Mapping, Translate;
    TranslateInside(frames, |ram|, la);
    PageOf(|frames|, la);
    PageEnd(|frames|, la, n);
    var s, t := ram[Translate(frames, la)..Translate(frames, la) + n], Linear(frames, ram)[la..la + n];
    forall k | 0 <= k < n
      ensures s[k] == t[k]
    {
      LinearByte(frames, ram, la + k);
      TranslateStep(frames, la, k);
    }
  }

  lemma LinearByte(frames: seq<nat>, ram: seq<Byte>, a: nat)
    requires Mapping(frames, |ram|) && a < |frames| * PAGE
    ensures a / PAGE < |frames| && Translate(frames, a) < |ram| && Linear(frames, ram)[a] == ram[Translate(frames, a)]
  {
    TranslateInside(frames, |ram|, a);
  }

  lemma TranslateStep(frames: seq<nat>, a: nat, k: nat)
    requires a % PAGE + k < PAGE && a / PAGE < |frames|
    ensures (a + k) / PAGE < |frames| && Translate(frames, a + k) == Translate(frames, a) + k
  {
    InPage(a, k);
  }

  lemma PageEnd(pages: nat, la: nat, n: nat)
    requires la < pages * PAGE && la % PAGE + n <= PAGE
    ensures la + n <= pages * PAGE
  {
    PageOf(pages, la);
    assert (la / PAGE + 1) * PAGE <= pages * PAGE;
  }

  /** A store within a page to physical memory is the same store to linear memory. */
  lemma WriteIsLinear(frames: seq<nat>, ram: seq<Byte>, la: nat, data: seq<Byte>)
    requires Mapping(frames, |ram|) && la < |frames| * PAGE && la % PAGE + |data| <= PAGE
    ensures la / PAGE < |frames| && Translate(frames, la) + |data| <= |ram| && la + |data| <= |frames| * PAGE
    ensures Linear(frames, Overwrite(ram, Translate(frames, la), data)) == Overwrite(Linear(frames, ram), la, data)
  {
    hide Mapping, Linear, Translate, Overwrite;
    ReadIsLinear(frames, ram, la, |data|);
    var pa, n := Translate(frames, la), |data|;
    var mem, mem' := Linear(frames, ram), Linear(frames, Overwrite(ram, pa, data));
    OverwriteBytes(mem, la, data);
    OverwriteBytes(ram, pa, data);
    forall a | 0 <= a < |mem|
      ensures mem'[a] == Overwrite(mem, la, data)[a]
    {
      LinearByte(frames, ram, a);
      LinearByte(frames, Overwrite(ram, pa, data), a);
      StoredThere(frames, |ram|, la, n, a);
    }
  }

  /** A physical address in the stored range belongs to the linear address at the same offset. */
  lemma StoredThere(frames: seq<nat>, size: nat, la: nat, n: nat, a: nat)
    requires Mapping(frames, size) && la < |frames| * PAGE && la % PAGE + n <= PAGE
    requires a < |frames| * PAGE && la / PAGE < |frames| && a / PAGE < |frames|
    ensures Translate(frames, la) <= Translate(frames, a) < Translate(frames, la) + n <==> la <= a < la + n
    ensures la <= a < la + n ==> Translate(frames, a) - Translate(frames, la) == a - la
  {
    hide Mapping, Translate;
    if la <= a < la + n {
      TranslateStep(frames, la, a - la);
    } else {
      var k := Translate(frames, a) - Translate(frames, la);
      if 0 <= k < n {
        TranslateStep(frames, la, k);
        PageEnd(|frames|, la, n);
        TranslateInjective(frames, size, a, la + k);
      }
    }
  }

  // ------------------------------------------------------------------------
  // Fixed-up buffers, shift mode
  // ------------------------------------------------------------------------

  /** After the metadata, a load reads metaSize further on. */
  lemma ShiftLoadAfter(o: Placed, mem: Memory, la: nat, n: nat)
    requires o.InBounds(la, n) && o.upper < |mem| && o.meta <= la
    ensures mem[la + o.metaSize..la + o.metaSize + n] == LoadBytes(Shift, o, mem, la, n)
  {
    var r := LoadBytes(Shift, o, mem, la, n);
    forall i | 0 <= i < n
      ensures r[i] == mem[la + o.metaSize..la + o.metaSize + n][i]
    {
      LoadedByte(Shift, o, mem, la, n, i);
    }
  }

  /** Over the metadata, it reads up to them and on from their end. */
  lemma ShiftLoadOver(o: Placed, mem: Memory, la: nat, n: nat)
    requires o.InBounds(la, n) && o.upper < |mem| && la < o.meta < la + n
    ensures var k := o.meta - la;
      mem[la..o.meta] + mem[o.meta + o.metaSize..o.meta + o.metaSize + n - k] == LoadBytes(Shift, o, mem, la, n)
  {
    var k, r := o.meta - la, LoadBytes(Shift, o, mem, la, n);
    var t := mem[la..o.meta] + mem[o.meta + o.metaSize..o.meta + o.metaSize + n - k];
    forall i | 0 <= i < n
      ensures r[i] == t[i]
    {
      LoadedByte(Shift, o, mem, la, n, i);
    }
  }

  lemma LoadBefore(mode: Mode, o: Placed, mem: Memory, la: nat, n: nat)
    requires o.InBounds(la, n) && o.upper < |mem|
    requires la + n <= o.meta || (mode == Displace && o.meta + o.metaSize <= la)
    ensures mem[la..la + n] == LoadBytes(mode, o, mem, la, n)
  {
    var r := LoadBytes(mode, o, mem, la, n);
    forall i | 0 <= i < n
      ensures r[i] == mem[la..la + n][i]
    {
      LoadedByte(mode, o, mem, la, n, i);
    }
  }

  lemma StoreBefore(mode: Mode, o: Placed, mem: Memory, la: nat, data: seq<Byte>)
    requires o.InBounds(la, |data|) && o.upper < |mem|
    requires la + |data| <= o.meta || (mode == Displace && o.meta + o.metaSize <= la)
    ensures Overwrite(mem, la, data) == StoreBytes(mode, o, mem, la, data)
  {
    hide LoadBytes;
  }

  /** After the metadata, the callback stores the data metaSize further on; the processor then
      puts back the bytes it would have overwritten, followed by the data again. */
  lemma ShiftStoreAfter(o: Placed, mem: Memory, la: nat, data: seq<Byte>)
    requires o.InBounds(la, |data|) && o.upper < |mem| && o.meta <= la
    ensures var n := |data|;
      var k := if n < o.metaSize then n else o.metaSize;
      var stored := Overwrite(mem, la + o.metaSize, data);
      Overwrite(stored, la, mem[la..la + k] + data[..n - k]) == StoreBytes(Shift, o, mem, la, data)
  {
    hide LoadBytes;
  }

  /** Over the metadata, it puts back the prefix of the data, the metadata, and as much of the
      rest as the access covers. */
  lemma ShiftStoreOver(o: Placed, mem: Memory, la: nat, data: seq<Byte>)
    requires o.InBounds(la, |data|) && o.upper < |mem| && la < o.meta < la + |data|
    ensures var k := o.meta - la;
      var stored := Overwrite(mem, o.meta + o.metaSize, data[k..]);
      var buffer := data[..k] + mem[o.meta..o.meta + o.metaSize] + data[k..];
      Overwrite(stored, la, buffer[..|data|]) == StoreBytes(Shift, o, mem, la, data)
  {
    hide LoadBytes;
  }

  // ------------------------------------------------------------------------
  // Fixed-up buffers, displacement mode
  // ------------------------------------------------------------------------

  /** An access that overlaps the metadata: its first overlapping byte is its k-th, which is
      the j-th of the metadata, and m bytes overlap. */
  datatype Overlap = Overlap(k: nat, j: nat, m: nat)

  function OverlapOf(o: Placed, la: nat, n: nat): (v: Overlap)
    requires n > 0 && o.meta < la + n && la < o.meta + o.metaSize
    ensures la + v.k == o.meta + v.j && v.k + v.m <= n && v.j + v.m <= o.metaSize && v.m > 0
    ensures la < o.meta ==> v.j == 0
    ensures o.meta < la ==> v.k == 0
    ensures v.k + v.m < n ==> v.j + v.m == o.metaSize
  {
    var k := if la < o.meta then o.meta - la else 0;
    var j := if o.meta < la then la - o.meta else 0;
    var last := if la + n < o.meta + o.metaSize then la + n else o.meta + o.metaSize;
    Overlap(k, j, last - o.meta - j)
  }

  /** Who owns the bytes that a displaced access touches. */
  lemma DisplacedOwners(o: Placed, la: nat, n: nat, x: nat)
    requires o.InBounds(la, n) && n > 0 && o.meta < la + n && la < o.meta + o.metaSize
    ensures var v, w := OverlapOf(o, la, n), Owner(Displace, o, x);
      var at := o.DispBase() + v.j;
      && at + v.m <= o.upper + 1 && la + n <= o.upper + 1
      && !(at <= x < at + v.m && la <= x < la + n)
      && (at <= x < at + v.m ==> w == la + v.k + (x - at))
      && (la + v.k <= x < la + v.k + v.m ==> w == -1)
      && (la <= x < la + v.k || la + v.k + v.m <= x < la + n ==> w == x)
      && (la <= w < la + n ==> at <= x < at + v.m || la <= x < la + n)
  {
  }

  lemma DisplacedPlaces(o: Placed, la: nat, n: nat, i: nat)
    requires o.InBounds(la, n) && i < n && o.meta < la + n && la < o.meta + o.metaSize
    ensures var v := OverlapOf(o, la, n);
      Place(Displace, o, la + i) == if v.k <= i < v.k + v.m then o.DispBase() + v.j + (i - v.k) else la + i
  {
  }

  lemma DisplacedLoad(o: Placed, mem: Memory, la: nat, n: nat)
    requires o.InBounds(la, n) && n > 0 && o.upper < |mem| && o.meta < la + n && la < o.meta + o.metaSize
    ensures var v := OverlapOf(o, la, n);
      var at, raw := o.DispBase() + v.j, mem[la..la + n];
      at + v.m <= |mem| && Overwrite(raw, v.k, mem[at..at + v.m]) == LoadBytes(Displace, o, mem, la, n)
  {
    hide Place, Owner, OverlapOf, Overwrite, LoadBytes;
    DisplacedOwners(o, la, n, la);
    var v := OverlapOf(o, la, n);
    var at, raw, r := o.DispBase() + v.j, mem[la..la + n], LoadBytes(Displace, o, mem, la, n);
    forall i | 0 <= i < n
      ensures Overwrite(raw, v.k, mem[at..at + v.m])[i] == r[i]
    {
      DisplacedPlaces(o, la, n, i);
      LoadedByte(Displace, o, mem, la, n, i);
      OverwriteBytes(raw, v.k, mem[at..at + v.m]);
    }
  }

  /** The callback stores the overlapping data in the displaced area; the processor then puts
      the metadata back, with the rest of the data around them. */
  lemma DisplacedStore(o: Placed, mem: Memory, la: nat, data: seq<Byte>)
    requires o.InBounds(la, |data|) && data != [] && o.upper < |mem| && o.meta < la + |data| && la < o.meta + o.metaSize
    ensures var v := OverlapOf(o, la, |data|);
      var at := o.DispBase() + v.j;
      && at + v.m <= |mem|
      && var buffer := Overwrite(data, v.k, mem[la + v.k..la + v.k + v.m]);
      Overwrite(Overwrite(mem, at, data[v.k..v.k + v.m]), la, buffer) == StoreBytes(Displace, o, mem, la, data)
  {
    hide Place, Owner, OverlapOf, LoadBytes, Overwrite, StoreBytes;
    hide Object.DispBase, Object.DispSize, Object.InBounds, Object.Last;
    var v := OverlapOf(o, la, |data|);
    DisplacedOwners(o, la, |data|, la);
    var at := o.DispBase() + v.j;
    var buffer := Overwrite(data, v.k, mem[la + v.k..la + v.k + v.m]);
    var r := StoreBytes(Displace, o, mem, la, data);
    var r' := Overwrite(Overwrite(mem, at, data[v.k..v.k + v.m]), la, buffer);
    forall x | 0 <= x < |mem|
      ensures r'[x] == r[x]
    {
      DisplacedByte(o, mem, la, data, x);
    }
  }

  lemma DisplacedByte(o: Placed, mem: Memory, la: nat, data: seq<Byte>, x: nat)
    requires o.InBounds(la, |data|) && data != [] && o.upper < |mem| && o.meta < la + |data| && la < o.meta + o.metaSize
    requires x < |mem|
    ensures var v := OverlapOf(o, la, |data|);
      var at := o.DispBase() + v.j;
      && at + v.m <= |mem|
      && var buffer := Overwrite(data, v.k, mem[la + v.k..la + v.k + v.m]);
      Overwrite(Overwrite(mem, at, data[v.k..v.k + v.m]), la, buffer)[x] == StoreBytes(Displace, o, mem, la, data)[x]
  {
    hide Place, Owner, OverlapOf, LoadBytes, Overwrite, Object.DispBase, Object.DispSize, Object.InBounds, Object.Last;
    DisplacedOwners(o, la, |data|, x);
    var v := OverlapOf(o, la, |data|);
    var at := o.DispBase() + v.j;
    var buffer := Overwrite(data, v.k, mem[la + v.k..la + v.k + v.m]);
    var stored := Overwrite(mem, at, data[v.k..v.k + v.m]);
    OverwriteByte(mem, at, data[v.k..v.k + v.m], x);
    OverwriteByte(stored, la, buffer, x);
    if la <= x < la + |data| {
      OverwriteByte(data, v.k, mem[la + v.k..la + v.k + v.m], x - la);
    }
  }
}
