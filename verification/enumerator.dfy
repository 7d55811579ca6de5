/** The batched enumerator over a folder of the store, and who owns the lists it hands out. */
module Enumerator {
  import opened Words
  import opened HResults
  import opened Pidl
  import opened VvvItem
  import opened Slots
  import opened VvvStore

  type ListPtr = array?<Byte>

  function SetOf(lists: seq<array<Byte>>): set<array<Byte>> { set p | p in lists }

  // What was added to the live blocks can be freed, and then they are what they were.
  lemma LiveCovers(live: set<array<Byte>>, lists: seq<array<Byte>>)
    requires forall p :: p in lists ==> p !in live
    ensures SetOf(lists) <= live + SetOf(lists) && live + SetOf(lists) - SetOf(lists) == live
  {
  }

  /** Distinct blocks, each holding the item at its place. */
  predicate Hold(lists: seq<array<Byte>>, items: seq<Item>)
    reads lists
  {
    && |lists| == |items|
    && (forall i, j :: 0 <= i < j < |lists| ==> lists[i] != lists[j])
    && forall i :: 0 <= i < |lists| ==> HoldsItem(lists[i][..], items[i])
  }

  lemma HoldLength(lists: seq<array<Byte>>, items: seq<Item>)
    requires Hold(lists, items)
    ensures |lists| == |items|
  {
  }

  lemma HoldAppend(lists: seq<array<Byte>>, items: seq<Item>, p: array<Byte>, item: Item)
    requires Hold(lists, items) && p !in lists && HoldsItem(p[..], item)
    ensures Hold(lists + [p], items + [item]) && SetOf(lists + [p]) == SetOf(lists) + {p}
  {
    hide HoldsItem;
  }

  lemma NothingHeld()
    ensures Hold([], []) && SetOf([]) == {}
  {
  }

  lemma HoldJoin(lists: seq<array<Byte>>, items: seq<Item>, more: seq<array<Byte>>, others: seq<Item>)
    requires Hold(lists, items) && Hold(more, others) && forall p :: p in more ==> p !in lists
    ensures Hold(lists + more, items + others) && SetOf(lists + more) == SetOf(lists) + SetOf(more)
  {
    hide HoldsItem;
    var all, n := lists + more, |lists|;
    forall i, j | 0 <= i < j < |all| ensures all[i] != all[j] {
      assert i >= n ==> all[i] == more[i - n] && all[j] == more[j - n];
      assert j >= n ==> all[j] == more[j - n] && all[j] in more;
    }
  }

  // What the next of a sequence of calls adds to what was received before.
  lemma DeliveredNext(v: Slots, flags: bv32, it: DWord, celts: seq<nat>, items: seq<Item>)
    requires Ends(v, it) && celts != []
    ensures var batch := Fetch(v, flags, it, celts[0]);
            items + Delivered(v, flags, it, celts) ==
            (if batch.raised then items else items + batch.items) + Delivered(v, flags, batch.next, celts[1..])
  {
    hide Fetch;
    var batch := Fetch(v, flags, it, celts[0]);
    var rest := Delivered(v, flags, batch.next, celts[1..]);
    assert items + ([] + rest) == items + rest && items + (batch.items + rest) == items + batch.items + rest;
  }

  lemma DeliveredNone(v: Slots, flags: bv32, it: DWord, items: seq<Item>)
    requires Ends(v, it)
    ensures items + Delivered(v, flags, it, []) == items
  {
  }

  // What the next step makes of the batch fetched so far.
  lemma FetchOneMore(v: Slots, flags: bv32, it: DWord, i: nat, celt: nat)
    requires i < celt && Ends(v, it) && !Fetch(v, flags, it, i).raised
    ensures var sofar := Fetch(v, flags, it, i);
            var (next, end) := Scan(v, flags, sofar.next);
            if next.Next? then Fetch(v, flags, it, i + 1) == Batch(sofar.items + [next.item], end, false)
            else Fetch(v, flags, it, celt) == Batch(sofar.items, end, next.Broken?)
  {
    hide Fetch, Scan, Ends;
    var sofar := Fetch(v, flags, it, i);
    FetchSplit(v, flags, it, i, 1);
    FetchStep(v, flags, sofar.next, 1);
    FetchStep(v, flags, Scan(v, flags, sofar.next).1, 0);
    FetchSplit(v, flags, it, i, celt - i);
    FetchStep(v, flags, sofar.next, celt - i);
    assert sofar.items + [] == sofar.items;
  }

  /** The caller's array starts with these lists. */
  predicate StartsWith(ppidl: array<ListPtr>, lists: seq<array<Byte>>)
    reads ppidl
  {
    |lists| <= ppidl.Length && forall i :: 0 <= i < |lists| ==> ppidl[i] == lists[i]
  }

  /** Guards the lists stored so far: they are freed when it goes out of scope, unless released. */
  class ItemIdListVector {
    var ppidl: array?<ListPtr>
    var count: nat
    ghost var lists: seq<array<Byte>>
    ghost var items: seq<Item>

    ghost predicate Valid()
      reads this, if ppidl == null then {} else {ppidl}, lists
    {
      && count == |lists|
      && (ppidl != null ==> StartsWith(ppidl, lists))
      && Hold(lists, items)
    }

    lemma ValidFacts()
      requires Valid()
      ensures count == |lists| == |items| && Hold(lists, items) && (ppidl != null ==> StartsWith(ppidl, lists))
    {
    }

    constructor (ppidl: array<ListPtr>)
      ensures Valid() && this.ppidl == ppidl && lists == [] && items == []
    {
      this.ppidl := ppidl;
      count := 0;
      lists, items := [], [];
    }

    method PushBack(pidl: array<Byte>, ghost item: Item)
      requires Valid() && ppidl != null && count < ppidl.Length
      requires pidl !in lists && HoldsItem(pidl[..], item)
      modifies this, ppidl
      ensures Valid() && ppidl == old(ppidl)
      ensures lists == old(lists) + [pidl] && items == old(items) + [item]
      ensures SetOf(lists) == SetOf(old(lists)) + {pidl}
    {
      hide HoldsItem;
      HoldAppend(lists, items, pidl, item);
      ppidl[count] := pidl;
      count := count + 1;
      lists, items := lists + [pidl], items + [item];
    }

    method Release()
      requires Valid()
      modifies this`ppidl
      ensures Valid() && ppidl == null
    {
      ppidl := null;
    }

    /** The destructor: frees each list once, if they are still guarded. */
    method Destroy(mem: TaskMemory)
      requires Valid() && SetOf(lists) <= mem.live
      modifies mem
      ensures mem.live == if ppidl != null then old(mem.live) - SetOf(lists) else old(mem.live)
    {
      hide HoldsItem;
      if ppidl != null {
        for i := 0 to count
          invariant mem.live == old(mem.live) - SetOf(lists[..i])
        {
          assert lists[..i + 1] == lists[..i] + [lists[i]];
          assert lists[i] !in SetOf(lists[..i]);
          assert lists[i] in SetOf(lists);
          var p := ppidl[i];
          mem.Free(p);
        }
        assert lists[..count] == lists;
      }
    }
  }

  class EnumIDList {
    const file: VVVFile
    const grfFlags: bv32
    var nItemIterator: DWord

    constructor (file: VVVFile, grfFlags: bv32)
      ensures this.file == file && this.grfFlags == grfFlags && nItemIterator == 0
    {
      this.file := file;
      this.grfFlags := grfFlags;
      nItemIterator := 0;
    }

    ghost function View(): Slots
      reads file.file
    {
      SlotsOf(file.file.sections, file.folder)
    }

    method GetNextItem(mem: TaskMemory) returns (r: Fetched)
      requires Ends(View(), nItemIterator)
      modifies this, mem
      ensures var (next, end) := Scan(View(), grfFlags, old(nItemIterator));
              && nItemIterator == end
              && (r.FetchedNone? <==> next.NoMore?)
              && (r.FetchFailed? <==> next.Broken?)
              && (r.Fetched? ==> HoldsItem(r.pidl[..], next.item))
      ensures r.Fetched? ==> fresh(r.pidl) && mem.live == old(mem.live) + {r.pidl} && r.pidl !in old(mem.live)
      ensures !r.Fetched? ==> mem.live == old(mem.live)
    {
      r, nItemIterator := file.GetNextItem(mem, grfFlags, nItemIterator);
    }

    // The loop of Next: fetches into the vector until it is full, the entries end or one fails.
    method Fill(mem: TaskMemory, celt: DWord, vector: ItemIdListVector) returns (ok: bool)
      requires Ends(View(), nItemIterator)
      requires vector.Valid() && vector.lists == [] && vector.ppidl != null && celt <= vector.ppidl.Length
      modifies this, mem, vector, vector.ppidl
      ensures vector.Valid() && vector.ppidl == old(vector.ppidl)
      ensures Fetch(View(), grfFlags, old(nItemIterator), celt) == Batch(vector.items, nItemIterator, !ok)
      ensures forall p :: p in vector.lists ==> fresh(p) && p !in old(mem.live)
      ensures mem.live == old(mem.live) + SetOf(vector.lists)
    {
      hide Fetch, Scan, HoldsItem, SlotsOf, Ends, Hold;
      ghost var v, it := View(), nItemIterator;
      HoldLength(vector.lists, vector.items);
      FetchStep(v, grfFlags, it, 0);
      var i := 0;
      while i < celt
        invariant 0 <= i <= celt
        invariant vector.Valid() && vector.ppidl == old(vector.ppidl) && vector.count == i
        invariant Fetch(v, grfFlags, it, i) == Batch(vector.items, nItemIterator, false) && Ends(v, nItemIterator)
        invariant forall p :: p in vector.lists ==> fresh(p) && p !in old(mem.live)
        invariant mem.live == old(mem.live) + SetOf(vector.lists)
      {
        ghost var at := nItemIterator;
        FetchOneMore(v, grfFlags, it, i, celt);
        var pidl := GetNextItem(mem);
        if !pidl.Fetched? {
          return pidl.FetchedNone?;
        }
        vector.PushBack(pidl.pidl, Scan(v, grfFlags, at).0.item);
        i := i + 1;
      }
      return true;
    }

    /**
     IEnumIDList::Next. On success the caller owns exactly the lists stored in its array, which
     hold the next items of the folder; on an exception every list fetched by this call has been
     freed, each once, and nothing new is live. `lists` names the blocks that were handed over.
     */
    method Next(mem: TaskMemory, celt: DWord, ppidl: array<ListPtr>, wantFetched: bool)
      returns (hr: DWord, fetched: Option<DWord>, ghost lists: seq<array<Byte>>)
      requires Ends(View(), nItemIterator) && celt <= ppidl.Length
      modifies this, mem, ppidl
      ensures !wantFetched && celt != 1 ==>
                hr == E_INVALIDARG && nItemIterator == old(nItemIterator) && mem.live == old(mem.live)
      ensures wantFetched || celt == 1 ==>
                var batch := Fetch(View(), grfFlags, old(nItemIterator), celt);
                && nItemIterator == batch.next
                && (batch.raised ==> hr == E_FAIL && fetched == None && mem.live == old(mem.live))
                && (!batch.raised ==>
                      && hr == (if |batch.items| == celt then S_OK else S_FALSE)
                      && fetched == (if wantFetched then Some(|batch.items|) else None)
                      && StartsWith(ppidl, lists) && Hold(lists, batch.items)
                      && (forall p :: p in lists ==> fresh(p))
                      && mem.live == old(mem.live) + SetOf(lists))
    {
      if !wantFetched && celt != 1 {
        return E_INVALIDARG, None, [];
      }
      hide Fetch, SlotsOf, Ends, Hold, SetOf, StartsWith;
      var ok, count, fetchedLists := FetchInto(mem, celt, ppidl);
      if !ok { return E_FAIL, None, []; }
      return if celt == count then S_OK else S_FALSE, if wantFetched then Some(count) else None, fetchedLists;
    }

    // The guarded part of Next: the vector frees what it holds unless it is released.
    method FetchInto(mem: TaskMemory, celt: DWord, ppidl: array<ListPtr>)
      returns (ok: bool, count: nat, ghost lists: seq<array<Byte>>)
      requires Ends(View(), nItemIterator) && celt <= ppidl.Length
      modifies this, mem, ppidl
      ensures var batch := Fetch(View(), grfFlags, old(nItemIterator), celt);
              && nItemIterator == batch.next && ok == !batch.raised
              && (!ok ==> mem.live == old(mem.live))
              && (ok ==>
                    && count == |batch.items|
                    && StartsWith(ppidl, lists) && Hold(lists, batch.items)
                    && (forall p :: p in lists ==> fresh(p))
                    && mem.live == old(mem.live) + SetOf(lists))
    {
      hide Fetch, Scan, HoldsItem, SlotsOf, Ends, Hold;
      var vector := new ItemIdListVector(ppidl);
      ok := Fill(mem, celt, vector);
      vector.ValidFacts();
      hide ItemIdListVector.Valid, StartsWith, SetOf;
      count, lists := vector.count, vector.lists;
      if ok {
        vector.Release();
      } else {
        LiveCovers(old(mem.live), lists);
      }
      vector.Destroy(mem);
    }

    /**
     A caller that goes on after exceptions: it makes these calls, each with an array of its own,
     and keeps what it gets. It ends up owning exactly the lists that hold what is delivered.
     */
    method CallAll(mem: TaskMemory, celts: seq<DWord>) returns (ghost kept: seq<array<Byte>>)
      requires Ends(View(), nItemIterator)
      modifies this, mem
      ensures Hold(kept, Delivered(View(), grfFlags, old(nItemIterator), celts))
      ensures forall p :: p in kept ==> fresh(p)
      ensures mem.live == old(mem.live) + SetOf(kept)
    {
      hide Fetch, Delivered, SlotsOf, Ends, Hold, SetOf, StartsWith;
      ghost var v, it := View(), nItemIterator;
      kept := [];
      ghost var items: seq<Item> := [];
      NothingHeld();
      assert celts[0..] == celts && [] + Delivered(v, grfFlags, it, celts) == Delivered(v, grfFlags, it, celts);
      for i := 0 to |celts|
        invariant View() == v && Ends(v, nItemIterator)
        invariant Hold(kept, items) && (forall p :: p in kept ==> fresh(p))
        invariant mem.live == old(mem.live) + SetOf(kept)
        invariant items + Delivered(v, grfFlags, nItemIterator, celts[i..]) == Delivered(v, grfFlags, it, celts)
      {
        ghost var batch := Fetch(v, grfFlags, nItemIterator, celts[i]);
        DeliveredNext(v, grfFlags, nItemIterator, celts[i..], items);
        assert celts[i..][0] == celts[i] && celts[i..][1..] == celts[i + 1..];
        var ppidl := new ListPtr[celts[i]];
        var hr, fetched, more := Next(mem, celts[i], ppidl, true);
        if hr != E_FAIL {
          assert forall p :: p in more ==> p !in kept;
          HoldJoin(kept, items, more, batch.items);
          kept, items := kept + more, items + batch.items;
        }
      }
      assert celts[|celts|..] == [];
      DeliveredNone(v, grfFlags, nItemIterator, items);
    }
  }
}
