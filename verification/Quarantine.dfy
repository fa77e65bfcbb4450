/** The quarantine of freed pointers: a ring of buffers, one of which is released each
    time another fills up (malloc/cc_malloc.c). */
module Quarantine {
  type Pointer = nat

  const QUARANTINE_DEPTH: nat := 373
  const QUARANTINE_WIDTH: nat := 2

  /** What the pointer slots hold before the first insert: NULL in every one. */
  function Nulls(n: nat): (s: seq<Pointer>)
    ensures |s| == n
  {
    seq(n, _ => 0)
  }

  /** Insertion order, preceded by the null slots of the buffers that are released before
      they are first filled. */
  function Queue(inserted: seq<Pointer>): seq<Pointer> {
    Nulls(QUARANTINE_DEPTH * (QUARANTINE_WIDTH - 1)) + inserted
  }

  /** How many pointers, nulls included, have been passed to free after n inserts. */
  function ReleasedCount(n: nat): nat {
    QUARANTINE_DEPTH * (n / QUARANTINE_DEPTH)
  }

  class Quarantine {
    const buffers: array2<Pointer>
    var currentBuffer: nat
    var currentIndex: nat
    ghost var inserted: seq<Pointer>
    /** Every call of free, in order. */
    var released: seq<Pointer>

    /** The pointers of buffer b. */
    ghost function Row(b: nat): (r: seq<Pointer>)
      reads buffers
      requires b < buffers.Length0
      ensures |r| == buffers.Length1
    {
      seq(buffers.Length1, j requires 0 <= j < buffers.Length1 reads buffers => buffers[b, j])
    }

    /** Conservation: the pointers released, then the full buffer, then the filled part of
        the current one are the whole queue in insertion order. */
    ghost predicate Valid()
      reads this, buffers
    {
      && buffers.Length0 == QUARANTINE_WIDTH && buffers.Length1 == QUARANTINE_DEPTH
      && currentBuffer < QUARANTINE_WIDTH && currentIndex == |inserted| % QUARANTINE_DEPTH
      && |released| == ReleasedCount(|inserted|)
      && Queue(inserted) == released + Row(1 - currentBuffer) + Row(currentBuffer)[..currentIndex]
    }

    constructor ()
      ensures Valid() && inserted == [] && released == [] && fresh(buffers)
    {
      buffers := new Pointer[QUARANTINE_WIDTH, QUARANTINE_DEPTH]((_, _) => 0);
      currentBuffer, currentIndex := 0, 0;
      inserted, released := [], [];
    }

    /** quarantine_buffer_free: free every pointer of one buffer, in order. */
    method BufferFree(b: nat)
      requires b < buffers.Length0
      requires buffers.Length1 == QUARANTINE_DEPTH
      modifies this`released
      ensures released == old(released) + Row(b)
    {
      for i := 0 to QUARANTINE_DEPTH
        invariant released == old(released) + Row(b)[..i]
      {
        released := released + [buffers[b, i]];
      }
      assert Row(b)[..QUARANTINE_DEPTH] == Row(b);
    }

    method Insert(ptr: Pointer)
      requires Valid()
      modifies this, buffers
      ensures Valid() && inserted == old(inserted) + [ptr]
    {
      hide ReleasedCount, Queue;
      NextSlot(|inserted|);
      Place(ptr);
      currentIndex := (currentIndex + 1) % QUARANTINE_DEPTH;
      if currentIndex == 0 {
        assert Row(currentBuffer)[..QUARANTINE_DEPTH] == Row(currentBuffer);
        currentBuffer := (currentBuffer + 1) % QUARANTINE_WIDTH;
        BufferFree(currentBuffer);
      }
    }

    /** The store of quarantine_insert. */
    method Place(ptr: Pointer)
      requires Valid()
      modifies this`inserted, buffers
      ensures inserted == old(inserted) + [ptr]
      ensures Queue(inserted) == released + Row(1 - currentBuffer) + Row(currentBuffer)[..currentIndex + 1]
    {
      ghost var row := Row(currentBuffer);
      assert Queue(inserted + [ptr]) == Queue(inserted) + [ptr];
      buffers[currentBuffer, currentIndex] := ptr;
      assert Row(1 - currentBuffer) == old(Row(1 - currentBuffer));
      assert Row(currentBuffer)[..currentIndex + 1] == row[..currentIndex] + [ptr];
      inserted := inserted + [ptr];
    }
  }

  /** The counters step as the insert count does. */
  lemma NextSlot(n: nat)
    ensures (n + 1) % QUARANTINE_DEPTH == (n % QUARANTINE_DEPTH + 1) % QUARANTINE_DEPTH
    ensures ReleasedCount(n + 1) == ReleasedCount(n) + if (n + 1) % QUARANTINE_DEPTH == 0 then QUARANTINE_DEPTH else 0
  {
  }

  // ------------------------------------------------------------------------
  // When a pointer is released
  // ------------------------------------------------------------------------

  /** The k-th inserted pointer, counting from 0, has been released after n inserts. */
  predicate ReleasedBy(k: nat, n: nat) {
    QUARANTINE_DEPTH * (QUARANTINE_WIDTH - 1) + k < ReleasedCount(n)
  }

  /** The number of further inserts after its own that release the k-th pointer. */
  function Delay(k: nat): nat {
    QUARANTINE_DEPTH * QUARANTINE_WIDTH - 1 - k % QUARANTINE_DEPTH
  }

  /** A pointer is released by the insert that comes Delay(k) after its own, and not before:
      at least DEPTH * (WIDTH - 1) and at most DEPTH * WIDTH - 1 inserts later. */
  lemma ReleaseTime(k: nat, n: nat)
    ensures ReleasedBy(k, n) <==> n >= k + 1 + Delay(k)
    ensures QUARANTINE_DEPTH * (QUARANTINE_WIDTH - 1) <= Delay(k) <= QUARANTINE_DEPTH * QUARANTINE_WIDTH - 1
  {
    var q, r := k / QUARANTINE_DEPTH, k % QUARANTINE_DEPTH;
    assert k + 1 + Delay(k) == QUARANTINE_DEPTH * (q + QUARANTINE_WIDTH);
    if n >= k + 1 + Delay(k) {
      assert n / QUARANTINE_DEPTH >= q + QUARANTINE_WIDTH;
    } else {
      assert n / QUARANTINE_DEPTH < q + QUARANTINE_WIDTH;
    }
  }

  /** Any run of inserts: what has been freed, in order and once each, is the first part
      of the queue, as long as the insert count says. */
  method Run(pointers: seq<Pointer>) returns (q: Quarantine)
    ensures q.Valid() && q.inserted == pointers
    ensures ReleasedCount(|pointers|) <= |Queue(pointers)|
    ensures q.released == Queue(pointers)[..ReleasedCount(|pointers|)]
  {
    q := new Quarantine();
    for i := 0 to |pointers|
      invariant fresh(q) && fresh(q.buffers) && q.Valid() && q.inserted == pointers[..i]
    {
      q.Insert(pointers[i]);
      assert pointers[..i + 1] == pointers[..i] + [pointers[i]];
    }
    assert pointers[..|pointers|] == pointers;
  }
}
