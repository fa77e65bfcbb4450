/** Where the bytes of a LIM object live: the metadata in the middle of the slot is made
    invisible by shifting what follows it, or by displacing what it overlaps
    (modules/lim_model/model.cpp, malloc/lim_ptr_encoding.h). */
module LimObject {
  import opened Words
  import opened Buffers
  import opened LimEncoding

  type Memory = seq<Byte>

  datatype Mode = Shift | Displace

  /** An object as its metadata describe it. */
  datatype Object = Object(meta: nat, metaSize: nat, lower: nat, upper: nat) {
    /** The bounds enclose the metadata. */
    predicate WellPlaced() {
      metaSize > 0 && lower <= meta && meta + metaSize - 1 <= upper
    }

    /** The logical addresses of the object run from lower to Last. */
    function Last(): int {
      upper - metaSize
    }

    predicate InBounds(la: nat, n: nat) {
      lower <= la && la + n - 1 <= Last()
    }

    /** lim_compute_disp_size. */
    function DispSize(): nat
      requires WellPlaced()
    {
      var space := upper - (meta + metaSize - 1);
      if metaSize < space then metaSize else space
    }

    /** lim_compute_disp_base. */
    function DispBase(): nat
      requires WellPlaced()
    {
      upper - DispSize() + 1
    }
  }

  type Placed = o: Object | o.WellPlaced() witness Object(0, 1, 0, 0)

  // ------------------------------------------------------------------------
  // The byte map
  // ------------------------------------------------------------------------

  /** Where logical byte a is stored. */
  function Place(mode: Mode, o: Placed, a: nat): nat {
    match mode
    case Shift => if a < o.meta then a else a + o.metaSize
    case Displace => if o.meta <= a < o.meta + o.metaSize then o.DispBase() + (a - o.meta) else a
  }

  /** Which logical byte is stored at x; -1 where metadata are. */
  function Owner(mode: Mode, o: Placed, x: nat): int {
    if o.meta <= x < o.meta + o.metaSize then -1
    else match mode
      case Shift => if x < o.meta then x else x - o.metaSize
      case Displace => if o.DispBase() <= x < o.DispBase() + o.metaSize then o.meta + (x - o.DispBase()) else x
  }

  /** The map is injective on the object: every logical byte owns the address it is stored at,
      which lies inside the bounds and outside the metadata. */
  lemma PlaceOwned(mode: Mode, o: Placed, a: nat)
    requires o.lower <= a <= o.Last()
    ensures Owner(mode, o, Place(mode, o, a)) == a
    ensures o.lower <= Place(mode, o, a) <= o.upper
    ensures !(o.meta <= Place(mode, o, a) < o.meta + o.metaSize)
  {
  }

  /** An address owned by a logical byte of the object is where that byte is stored. */
  lemma OwnedPlace(mode: Mode, o: Placed, x: nat)
    requires o.lower <= Owner(mode, o, x) <= o.Last()
    ensures Place(mode, o, Owner(mode, o, x)) == x && o.lower <= x <= o.upper
  {
  }

  /** Displaced bytes never land on the metadata or on a directly stored byte, so the guard
      against a bad metadata configuration is unreachable. */
  lemma DisplacedAreaIsFree(o: Placed, a: nat, n: nat, b: nat)
    requires o.InBounds(a, n) && n > 0 && o.meta <= a && a + n <= o.meta + o.metaSize
    ensures var at := o.DispBase() + (a - o.meta);
      && !(o.meta <= at < o.meta + o.metaSize)
      && !(at < o.meta && o.meta < at + n)
      && (o.lower <= b <= o.Last() && !(o.meta <= b < o.meta + o.metaSize) ==> !(at <= b < at + n))
  {
  }

  // ------------------------------------------------------------------------
  // Loads and stores through the map
  // ------------------------------------------------------------------------

  function LoadBytes(mode: Mode, o: Placed, mem: Memory, la: nat, n: nat): (r: seq<Byte>)
    requires o.InBounds(la, n) && o.upper < |mem|
    ensures |r| == n
  {
    seq(n, i requires 0 <= i < n => (PlaceOwned(mode, o, la + i); mem[Place(mode, o, la + i)]))
  }

  lemma LoadedByte(mode: Mode, o: Placed, mem: Memory, la: nat, n: nat, i: nat)
    requires o.InBounds(la, n) && o.upper < |mem| && i < n
    ensures Place(mode, o, la + i) <= o.upper && LoadBytes(mode, o, mem, la, n)[i] == mem[Place(mode, o, la + i)]
  {
    PlaceOwned(mode, o, la + i);
  }

  function StoreBytes(mode: Mode, o: Placed, mem: Memory, la: nat, data: seq<Byte>): (r: Memory)
    ensures |r| == |mem|
  {
    seq(|mem|, x requires 0 <= x < |mem| =>
      if la <= Owner(mode, o, x) < la + |data| then data[Owner(mode, o, x) - la] else mem[x])
  }

  /** The object as flat memory: its logical bytes in order. */
  function View(mode: Mode, o: Placed, mem: Memory): (r: seq<Byte>)
    requires o.upper < |mem|
    ensures |r| == o.Last() + 1 - o.lower
  {
    LoadBytes(mode, o, mem, o.lower, o.Last() + 1 - o.lower)
  }

  /** A load returns the bytes of the flat memory. */
  lemma LoadIsFlat(mode: Mode, o: Placed, mem: Memory, la: nat, n: nat)
    requires o.InBounds(la, n) && o.upper < |mem|
    ensures LoadBytes(mode, o, mem, la, n) == View(mode, o, mem)[la - o.lower..la - o.lower + n]
  {
    hide Place, Owner;
  }

  /** A store changes exactly its own bytes of the flat memory. */
  lemma StoreIsFlat(mode: Mode, o: Placed, mem: Memory, la: nat, data: seq<Byte>)
    requires o.InBounds(la, |data|) && o.upper < |mem|
    ensures var off, v := la - o.lower, View(mode, o, mem);
      View(mode, o, StoreBytes(mode, o, mem, la, data)) == Overwrite(v, off, data)
  {
    hide Place, Owner;
    var off, v, w := la - o.lower, View(mode, o, mem), View(mode, o, StoreBytes(mode, o, mem, la, data));
    forall k | 0 <= k < |v|
      ensures w[k] == Overwrite(v, off, data)[k]
    {
      PlaceOwned(mode, o, o.lower + k);
    }
  }

  /** It leaves the metadata, and every byte outside the bounds, as they were. */
  lemma StoreKeepsOthers(mode: Mode, o: Placed, mem: Memory, la: nat, data: seq<Byte>, x: nat)
    requires o.InBounds(la, |data|) && x < |mem|
    requires x < o.lower || x > o.upper || o.meta <= x < o.meta + o.metaSize
    ensures StoreBytes(mode, o, mem, la, data)[x] == mem[x]
  {
    hide Place, Owner;
    var w := Owner(mode, o, x);
    if la <= w < la + |data| {
      OwnedPlace(mode, o, x);
      PlaceOwned(mode, o, w);
    }
  }

  /** A store in two pieces is the store of both. */
  lemma StoreSplit(mode: Mode, o: Placed, mem: Memory, la: nat, a: seq<Byte>, b: seq<Byte>)
    ensures StoreBytes(mode, o, StoreBytes(mode, o, mem, la, a), la + |a|, b) == StoreBytes(mode, o, mem, la, a + b)
  {
    hide Owner;
  }

  lemma LoadSplit(mode: Mode, o: Placed, mem: Memory, la: nat, i: nat, n: nat)
    requires o.InBounds(la, n) && i <= n && o.upper < |mem|
    ensures LoadBytes(mode, o, mem, la, i) + LoadBytes(mode, o, mem, la + i, n - i) == LoadBytes(mode, o, mem, la, n)
  {
    hide Place;
  }
}
