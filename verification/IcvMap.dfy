/** The sparse, paged map of integrity values (modules/common/ccsimics/icv_map.h). */
module IcvMap {
  import opened Words

  type Icv = uint64

  const PAGE1_SIZE: nat := 0x20_0000

  function Page1Index(i: nat): (r: nat)
    ensures r < PAGE1_SIZE
  {
    i % PAGE1_SIZE
  }

  function Page2Index(i: nat): nat {
    i / PAGE1_SIZE
  }

  /** An index is decided by its page and its place in the page. */
  lemma IndexPair(i: nat, j: nat)
    requires Page1Index(i) == Page1Index(j) && Page2Index(i) == Page2Index(j)
    ensures i == j
  {
  }

  /** The number of non-zero entries. */
  function NonZero(s: seq<Icv>): (n: nat)
    ensures n <= |s|
  {
    if |s| == 0 then 0 else NonZero(s[..|s| - 1]) + if s[|s| - 1] != 0 then 1 else 0
  }

  lemma {:induction false} NonZeroUpdate(s: seq<Icv>, i: nat, v: Icv)
    requires i < |s|
    ensures NonZero(s[i := v]) + (if s[i] != 0 then 1 else 0) == NonZero(s) + (if v != 0 then 1 else 0)
  {
    var last := |s| - 1;
    if i < last {
      NonZeroUpdate(s[..last], i, v);
      assert s[i := v][..last] == s[..last][i := v];
    } else {
      assert s[i := v][..last] == s[..last];
    }
  }

  ghost predicate AllZero(s: seq<Icv>) {
    forall i | 0 <= i < |s| :: s[i] == 0
  }

  lemma {:induction false} NonZeroNone(s: seq<Icv>)
    ensures NonZero(s) == 0 <==> AllZero(s)
  {
    if |s| > 0 {
      var front := s[..|s| - 1];
      NonZeroNone(front);
      assert s == front + [s[|s| - 1]];
      assert forall i | 0 <= i < |front| :: front[i] == s[i];
    }
  }

  /** One page of the last level, with the number of its non-zero entries. */
  class Page1 {
    var count: nat
    const entries: array<Icv>

    ghost predicate Valid()
      reads this, entries
    {
      entries.Length == PAGE1_SIZE && count == NonZero(entries[..])
    }

    constructor ()
      ensures Valid() && count == 0 && fresh(entries)
      ensures forall i | 0 <= i < PAGE1_SIZE :: entries[i] == 0
    {
      entries := new Icv[PAGE1_SIZE](_ => 0);
      count := 0;
      new;
      NonZeroNone(entries[..]);
    }

    method Set(index: nat, val: Icv) returns (newCount: nat)
      requires Valid()
      modifies this, entries
      ensures Valid() && newCount == count
      ensures entries[..] == old(entries[..])[Page1Index(index) := val]
    {
      var i := Page1Index(index);
      NonZeroUpdate(entries[..], i, val);
      if entries[i] != 0 && val == 0 {
        NonZeroNone(entries[..]);
        count := count - 1;
      }
      if entries[i] == 0 && val != 0 {
        count := count + 1;
      }
      entries[i] := val;
      assert entries[..] == old(entries[..])[i := val];
      newCount := count;
    }
  }

  /** The abstract map: the non-zero entries only. */
  type Table = t: map<nat, Icv> | forall i | i in t :: t[i] != 0 witness map[]

  function Lookup(t: Table, i: nat): Icv {
    if i in t then t[i] else 0
  }

  function Put(t: Table, i: nat, v: Icv): Table {
    if v == 0 then t - {i} else t[i := v]
  }

  lemma PutLookup(t: Table, i: nat, v: Icv)
    ensures forall j: nat :: Lookup(Put(t, i, v), j) == if j == i then v else Lookup(t, j)
  {
  }

  class ICVMap {
    var pages: map<nat, Page1>
    ghost var table: Table
    ghost var Repr: set<object>

    /** Pages are separate objects, each holds at least one non-zero entry, and together
        they hold exactly the entries of the table. */
    ghost predicate Valid()
      reads this, Repr
      ensures Valid() ==> this in Repr
    {
      && this in Repr
      && (forall p | p in pages ::
            && pages[p] in Repr && pages[p].entries in Repr
            && pages[p].Valid() && pages[p].count > 0)
      && (forall p, q | p in pages && q in pages && p != q ::
            pages[p] != pages[q] && pages[p].entries != pages[q].entries)
      && (forall i: nat :: Lookup(table, i) == Stored(i))
    }

    ghost function Stored(i: nat): Icv
      reads this, Repr
      requires forall p | p in pages ::
        pages[p] in Repr && pages[p].entries in Repr && pages[p].entries.Length == PAGE1_SIZE
    {
      if Page2Index(i) in pages then pages[Page2Index(i)].entries[Page1Index(i)] else 0
    }

    constructor ()
      ensures Valid() && fresh(Repr) && table == map[] && pages == map[]
    {
      pages := map[];
      table := map[];
      Repr := {this};
    }

    method Clear()
      requires Valid()
      modifies this
      ensures Valid() && Repr == old(Repr) && table == map[] && pages == map[]
    {
      pages := map[];
      table := map[];
    }

    method Get(i: nat) returns (v: Icv)
      requires Valid()
      ensures v == Lookup(table, i)
    {
      var p := Page2Index(i);
      if p in pages {
        v := pages[p].entries[Page1Index(i)];
      } else {
        v := 0;
      }
    }

    method Set(i: nat, val: Icv)
      requires Valid()
      modifies Repr
      ensures Valid() && fresh(Repr - old(Repr))
      ensures table == Put(old(table), i, val)
    {
      hide Page1Index, Page2Index, NonZero;
      var p := Page2Index(i);
      PutLookup(table, i, val);
      if p in pages {
        SetInPage(i, val);
        return;
      }
      if val == 0 {
        assert Lookup(table, i) == Stored(i) == 0;
        table := Put(table, i, val);
        return;
      }
      SetInNewPage(i, val);
    }

    /** A page is stored exactly when some index on it has a non-zero value. */
    lemma PagePresence(p: nat)
      requires Valid()
      ensures p in pages <==> exists i: nat :: Page2Index(i) == p && Lookup(table, i) != 0
      ensures p in pages ==> pages[p].count == NonZero(pages[p].entries[..])
    {
      if p in pages {
        NonZeroNone(pages[p].entries[..]);
        var k :| 0 <= k < PAGE1_SIZE && pages[p].entries[..][k] != 0;
        var i := p * PAGE1_SIZE + k;
        assert Page2Index(i) == p && Page1Index(i) == k;
        assert Lookup(table, i) == Stored(i) != 0;
      }
      if i: nat :| Page2Index(i) == p && Lookup(table, i) != 0 {
        assert Stored(i) != 0;
      }
    }

    /** The page exists: update it, and drop it when its last non-zero entry is gone. */
    method SetInPage(i: nat, val: Icv)
      requires Valid() && Page2Index(i) in pages
      modifies Repr
      ensures Valid() && Repr == old(Repr)
      ensures table == Put(old(table), i, val)
    {
      hide Page1Index, Page2Index, NonZero;
      var p := Page2Index(i);
      var page := pages[p];
      PutLookup(table, i, val);
      table := Put(table, i, val);
      var count := page.Set(i, val);
      forall j: nat
        ensures Lookup(table, j) == Stored(j)
      {
        if Page2Index(j) == p && Page1Index(j) == Page1Index(i) {
          IndexPair(i, j);
        }
        assert Lookup(old(table), j) == old(Stored(j));
      }
      if count == 0 {
        NonZeroNone(page.entries[..]);
        forall j: nat
          ensures Page2Index(j) == p ==> Stored(j) == 0
        {
          assert Page2Index(j) == p ==> Stored(j) == page.entries[..][Page1Index(j)];
        }
        label dropping:
        pages := pages - {p};
        assert forall j: nat :: Stored(j) == old@dropping(Stored(j));
      }
    }

    method SetInNewPage(i: nat, val: Icv)
      requires Valid() && Page2Index(i) !in pages && val != 0
      modifies Repr
      ensures Valid() && fresh(Repr - old(Repr))
      ensures table == Put(old(table), i, val)
    {
      hide Page1Index, Page2Index, NonZero, Put, Lookup;
      var p := Page2Index(i);
      PutLookup(table, i, val);
      table := Put(table, i, val);
      var page := NewPageWith(i, val);
      pages := pages[p := page];
      Repr := Repr + {page, page.entries};
      forall j: nat
        ensures Lookup(table, j) == Stored(j)
      {
        assert Lookup(old(table), j) == old(Stored(j));
        if Page2Index(j) == p && Page1Index(j) == Page1Index(i) {
          IndexPair(i, j);
        }
      }
    }
  }

  method NewPageWith(i: nat, val: Icv) returns (page: Page1)
    requires val != 0
    ensures fresh(page) && fresh(page.entries) && page.Valid() && page.count > 0
    ensures forall k | 0 <= k < PAGE1_SIZE :: page.entries[k] == if k == Page1Index(i) then val else 0
  {
    page := new Page1();
    var count := page.Set(i, val);
    NonZeroNone(page.entries[..]);
    assert page.entries[..][Page1Index(i)] == val;
  }

  // ------------------------------------------------------------------------
  // Whole runs
  // ------------------------------------------------------------------------

  datatype MapOp = SetOp(index: nat, val: Icv) | GetOp(index: nat) | ClearOp

  /** The value a total map with default 0 gives index i after the first n operations. */
  function LastWritten(ops: seq<MapOp>, n: nat, i: nat): Icv
    requires n <= |ops|
  {
    if n == 0 then 0
    else match ops[n - 1]
      case SetOp(j, v) => if j == i then v else LastWritten(ops, n - 1, i)
      case GetOp(_) => LastWritten(ops, n - 1, i)
      case ClearOp => 0
  }

  function TableAfter(ops: seq<MapOp>, n: nat): Table
    requires n <= |ops|
  {
    if n == 0 then map[]
    else match ops[n - 1]
      case SetOp(i, v) => Put(TableAfter(ops, n - 1), i, v)
      case GetOp(_) => TableAfter(ops, n - 1)
      case ClearOp => map[]
  }

  lemma {:induction false} TableHoldsLastWritten(ops: seq<MapOp>, n: nat, i: nat)
    requires n <= |ops|
    ensures Lookup(TableAfter(ops, n), i) == LastWritten(ops, n, i)
  {
    if n > 0 {
      TableHoldsLastWritten(ops, n - 1, i);
    }
  }

  /** Every get of every run answers what the total map holds at that point. */
  method Run(ops: seq<MapOp>) returns (answers: seq<Icv>)
    ensures |answers| == |ops|
    ensures forall k | 0 <= k < |ops| && ops[k].GetOp? :: answers[k] == LastWritten(ops, k, ops[k].index)
  {
    hide Page1Index, Page2Index, LastWritten, Lookup;
    var m := new ICVMap();
    answers := [];
    for n := 0 to |ops|
      invariant m.Valid() && fresh(m.Repr) && m.table == TableAfter(ops, n)
      invariant |answers| == n
      invariant forall k | 0 <= k < n && ops[k].GetOp? :: answers[k] == LastWritten(ops, k, ops[k].index)
    {
      var answer := 0;
      match ops[n] {
        case SetOp(i, v) =>
          m.Set(i, v);
        case GetOp(i) =>
          answer := m.Get(i);
          TableHoldsLastWritten(ops, n, i);
        case ClearOp =>
          m.Clear();
      }
      answers := answers + [answer];
    }
  }
}
