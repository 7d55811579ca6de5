/**
 The numbered slots of one folder of a store, seen as a function from slot number to contents:
 the search for a free slot, the scan for the next entry, and what enumeration delivers.
 */
module Slots {
  import opened Words
  import opened VvvItem

  // What GetPrivateProfileInt yields for the default -1.
  const NO_VALUE: DWord := 0xFFFF_FFFF

  const SHCONTF_FOLDERS: bv32 := 0x20
  const SHCONTF_NONFOLDERS: bv32 := 0x40

  datatype Slot = Slot(active: DWord, folder: DWord, size: DWord, name: WString) {
    predicate Present() { active != NO_VALUE }
    predicate IsActive() { active == 1 }
    predicate IsFolder() { folder == 1 }
  }

  type Slots = DWord -> Slot

  // --- free slots --------------------------------------------------------------------------

  ghost predicate FreeFrom(v: Slots, from: DWord) { exists n: DWord :: from <= n && !v(n).IsActive() }

  lemma FreeAhead(v: Slots, from: DWord)
    requires FreeFrom(v, from) && v(from).IsActive()
    ensures from + 1 < 0x1_0000_0000 && FreeFrom(v, from + 1)
  {
    var n: DWord :| from <= n && !v(n).IsActive();
    assert from + 1 <= n;
  }

  /** The least slot from `from` on that is not active. */
  function FirstFree(v: Slots, from: DWord): (id: DWord)
    requires FreeFrom(v, from)
    ensures from <= id && !v(id).IsActive()
    ensures forall n: DWord :: from <= n < id ==> v(n).IsActive()
    decreases 0x1_0000_0000 - from
  {
    if !v(from).IsActive() then from else FreeAhead(v, from); FirstFree(v, from + 1)
  }

  // --- the scan ----------------------------------------------------------------------------

  /** What one step of the enumeration delivers; `Broken` is the exception of a missing size. */
  datatype Next = NoMore | Broken | Next(item: Item)

  predicate Wanted(s: Slot, flags: bv32) {
    s.IsActive() && ((flags & SHCONTF_NONFOLDERS != 0 && !s.IsFolder()) || (flags & SHCONTF_FOLDERS != 0 && s.IsFolder()))
  }

  /** Some slot from `it` on is missing, so that a scan starting there ends. */
  ghost predicate Ends(v: Slots, it: DWord) { exists n: DWord :: it <= n && !v(n).Present() }

  lemma EndAhead(v: Slots, it: DWord)
    requires Ends(v, it) && v(it).Present()
    ensures it + 1 < 0x1_0000_0000 && Ends(v, it + 1)
  {
    var n: DWord :| it <= n && !v(n).Present();
    assert it + 1 <= n;
  }

  /** The item the enumeration makes of slot `n`: its id is one more than the slot number. */
  function ItemOf(v: Slots, n: nat): (item: Item)
    requires n + 1 < 0x1_0000_0000
    ensures item.id == n + 1
  {
    Item(n + 1, v(n).size, v(n).IsFolder(), v(n).name)
  }

  function Scan(v: Slots, flags: bv32, it: DWord): (r: (Next, DWord))
    requires Ends(v, it)
    ensures it <= r.1 && Ends(v, r.1)
    ensures if r.0.NoMore? then !v(r.1).Present() else it < r.1
    decreases 0x1_0000_0000 - it
  {
    if !v(it).Present() then (NoMore, it)
    else
      EndAhead(v, it);
      if Wanted(v(it), flags) then (if v(it).size == NO_VALUE then Broken else Next(ItemOf(v, it)), it + 1)
      else Scan(v, flags, it + 1)
  }

  lemma ScanStep(v: Slots, flags: bv32, it: DWord)
    requires Ends(v, it)
    ensures v(it).Present() ==> it + 1 < 0x1_0000_0000 && Ends(v, it + 1) && End(v, it) == End(v, it + 1)
    ensures !v(it).Present() ==> End(v, it) == it
    ensures Scan(v, flags, it) ==
            if !v(it).Present() then (NoMore, it)
            else if !Wanted(v(it), flags) then Scan(v, flags, it + 1)
            else (if v(it).size == NO_VALUE then Broken else Next(ItemOf(v, it)), it + 1)
  {
    hide Wanted;
    if v(it).Present() { EndAhead(v, it); }
  }

  /** The first missing slot from `it` on: where every enumeration from `it` ends. */
  function End(v: Slots, it: DWord): (end: DWord)
    requires Ends(v, it)
    ensures it <= end && !v(end).Present()
    ensures forall n: DWord :: it <= n < end ==> v(n).Present()
    decreases 0x1_0000_0000 - it
  {
    if !v(it).Present() then it else EndAhead(v, it); End(v, it + 1)
  }

  // --- the listing: all wanted slots of a range, in slot order -------------------------------

  function Listing(v: Slots, flags: bv32, lo: nat, hi: nat): seq<Item>
    requires hi < 0x1_0000_0000
    decreases hi
  {
    if hi <= lo then []
    else Listing(v, flags, lo, hi - 1) + (if Wanted(v(hi - 1), flags) then [ItemOf(v, hi - 1)] else [])
  }

  /** The listing holds exactly the wanted slots, each once, in slot order, with id = slot + 1. */
  lemma ListingExact(v: Slots, flags: bv32, lo: nat, hi: nat)
    requires hi < 0x1_0000_0000
    ensures forall i :: 0 <= i < |Listing(v, flags, lo, hi)| ==>
                          Listed(v, flags, lo, hi, Listing(v, flags, lo, hi)[i])
    ensures forall i, j :: 0 <= i < j < |Listing(v, flags, lo, hi)| ==>
                             Listing(v, flags, lo, hi)[i].id < Listing(v, flags, lo, hi)[j].id
    ensures forall k :: lo <= k < hi && Wanted(v(k), flags) ==> ItemOf(v, k) in Listing(v, flags, lo, hi)
  {
    ListingSound(v, flags, lo, hi);
    ListingComplete(v, flags, lo, hi);
  }

  predicate Listed(v: Slots, flags: bv32, lo: nat, hi: nat, item: Item) {
    lo < item.id <= hi && Wanted(v(item.id - 1), flags) && item == ItemOf(v, item.id - 1)
  }

  lemma {:induction false} ListingSound(v: Slots, flags: bv32, lo: nat, hi: nat)
    requires hi < 0x1_0000_0000
    ensures forall i :: 0 <= i < |Listing(v, flags, lo, hi)| ==>
                          Listed(v, flags, lo, hi, Listing(v, flags, lo, hi)[i])
    ensures forall i, j :: 0 <= i < j < |Listing(v, flags, lo, hi)| ==>
                             Listing(v, flags, lo, hi)[i].id < Listing(v, flags, lo, hi)[j].id
    decreases hi
  {
    hide Wanted, ItemOf;
    if lo < hi {
      ListingSound(v, flags, lo, hi - 1);
      var init := Listing(v, flags, lo, hi - 1);
      assert forall i :: 0 <= i < |init| ==> Listed(v, flags, lo, hi - 1, init[i]);
    }
  }

  lemma {:induction false} ListingComplete(v: Slots, flags: bv32, lo: nat, hi: nat)
    requires hi < 0x1_0000_0000
    ensures forall k :: lo <= k < hi && Wanted(v(k), flags) ==> ItemOf(v, k) in Listing(v, flags, lo, hi)
    decreases hi
  {
    hide Wanted, ItemOf;
    if lo < hi { ListingComplete(v, flags, lo, hi - 1); }
  }

  lemma {:induction false} ListingFront(v: Slots, flags: bv32, lo: nat, hi: nat)
    requires lo < hi < 0x1_0000_0000
    ensures Listing(v, flags, lo, hi) ==
            (if Wanted(v(lo), flags) then [ItemOf(v, lo)] else []) + Listing(v, flags, lo + 1, hi)
    decreases hi
  {
    hide Wanted, ItemOf;
    if lo + 1 < hi {
      ListingFront(v, flags, lo, hi - 1);
      var first := if Wanted(v(lo), flags) then [ItemOf(v, lo)] else [];
      var last := if Wanted(v(hi - 1), flags) then [ItemOf(v, hi - 1)] else [];
      var mid := Listing(v, flags, lo + 1, hi - 1);
      assert first + mid + last == first + (mid + last);
    }
  }

  // --- batches -----------------------------------------------------------------------------

  /** The outcome of asking for a number of items: those fetched, the new position, and failure. */
  datatype Batch = Batch(items: seq<Item>, next: DWord, raised: bool)

  function Fetch(v: Slots, flags: bv32, it: DWord, celt: nat): (r: Batch)
    requires Ends(v, it)
    ensures |r.items| <= celt && it <= r.next && Ends(v, r.next)
    ensures !r.raised && |r.items| < celt ==> !v(r.next).Present()
    decreases celt
  {
    if celt == 0 then Batch([], it, false)
    else
      match Scan(v, flags, it)
      case (NoMore, next) => Batch([], next, false)
      case (Broken, next) => Batch([], next, true)
      case (Next(item), next) =>
        Prepend(item, Fetch(v, flags, next, celt - 1))
  }

  function Prepend(item: Item, rest: Batch): Batch { Batch([item] + rest.items, rest.next, rest.raised) }

  lemma FetchStep(v: Slots, flags: bv32, it: DWord, celt: nat)
    requires Ends(v, it)
    ensures Fetch(v, flags, it, celt) ==
            if celt == 0 then Batch([], it, false)
            else if Scan(v, flags, it).0.Next?
            then Prepend(Scan(v, flags, it).0.item, Fetch(v, flags, Scan(v, flags, it).1, celt - 1))
            else Batch([], Scan(v, flags, it).1, Scan(v, flags, it).0.Broken?)
  {
  }

  /** Two calls that raise nothing fetch together what one call for the sum fetches. */
  lemma {:induction false} FetchSplit(v: Slots, flags: bv32, it: DWord, a: nat, b: nat)
    requires Ends(v, it) && !Fetch(v, flags, it, a).raised
    ensures var first := Fetch(v, flags, it, a);
            var second := Fetch(v, flags, first.next, b);
            Fetch(v, flags, it, a + b) == Batch(first.items + second.items, second.next, second.raised)
    decreases a
  {
    hide Scan, Fetch;
    FetchStep(v, flags, it, a);
    FetchStep(v, flags, it, a + b);
    var (r, next) := Scan(v, flags, it);
    if a == 0 {
      assert [] + Fetch(v, flags, it, b).items == Fetch(v, flags, it, b).items;
    } else if r.Next? {
      FetchSplit(v, flags, next, a - 1, b);
      var first := Fetch(v, flags, next, a - 1);
      var second := Fetch(v, flags, first.next, b);
      assert [r.item] + (first.items + second.items) == [r.item] + first.items + second.items;
    } else {
      FetchAtEnd(v, flags, next, b);
    }
  }

  // At the end nothing is fetched and the position stays.
  lemma FetchAtEnd(v: Slots, flags: bv32, it: DWord, celt: nat)
    requires Ends(v, it) && !v(it).Present()
    ensures Fetch(v, flags, it, celt) == Batch([], it, false)
  {
  }

  function Sum(ns: seq<nat>): nat { if ns == [] then 0 else ns[0] + Sum(ns[1..]) }

  /** A sequence of calls; it stops at the first one that raises an exception. */
  function FetchAll(v: Slots, flags: bv32, it: DWord, celts: seq<nat>): (r: Batch)
    requires Ends(v, it)
    decreases |celts|
  {
    if celts == [] then Batch([], it, false)
    else
      var first := Fetch(v, flags, it, celts[0]);
      if first.raised then first
      else
        var rest := FetchAll(v, flags, first.next, celts[1..]);
        Batch(first.items + rest.items, rest.next, rest.raised)
  }

  /** However the calls are batched, together they deliver what one call for the total would. */
  lemma {:induction false} BatchingIndependent(v: Slots, flags: bv32, it: DWord, celts: seq<nat>)
    requires Ends(v, it) && !FetchAll(v, flags, it, celts).raised
    ensures FetchAll(v, flags, it, celts) == Fetch(v, flags, it, Sum(celts))
    decreases |celts|
  {
    hide Scan, Fetch;
    if celts == [] {
      FetchStep(v, flags, it, 0);
    } else {
      var first := Fetch(v, flags, it, celts[0]);
      BatchingIndependent(v, flags, first.next, celts[1..]);
      FetchSplit(v, flags, it, celts[0], Sum(celts[1..]));
    }
  }

  /** Every wanted slot before the end has a size that can be read. */
  predicate Sized(v: Slots, flags: bv32, lo: nat, hi: nat)
    requires hi < 0x1_0000_0000
  {
    forall k :: lo <= k < hi && Wanted(v(k), flags) ==> v(k).size != NO_VALUE
  }

  lemma SizedFront(v: Slots, flags: bv32, lo: nat, hi: nat)
    requires lo <= hi < 0x1_0000_0000
    ensures Sized(v, flags, lo, hi) <==>
            (lo < hi ==> (Wanted(v(lo), flags) ==> v(lo).size != NO_VALUE) && Sized(v, flags, lo + 1, hi))
  {
    hide Wanted;
  }

  /**
   Enumeration is complete and exact. Asking for more items than there can be fetches the
   whole listing up to the first missing slot; it raises an exception exactly when a wanted
   slot has no size.
   */
  lemma {:induction false} FetchIsListing(v: Slots, flags: bv32, it: DWord, celt: nat)
    requires Ends(v, it) && celt > End(v, it) - it
    ensures Fetch(v, flags, it, celt).raised <==> !Sized(v, flags, it, End(v, it))
    ensures Sized(v, flags, it, End(v, it)) ==>
              Fetch(v, flags, it, celt) == Batch(Listing(v, flags, it, End(v, it)), End(v, it), false)
    decreases 0x1_0000_0000 - it
  {
    hide Wanted, Scan, Fetch, Sized, ItemOf, End, Ends;
    FetchStep(v, flags, it, celt);
    ScanStep(v, flags, it);
    SizedFront(v, flags, it, End(v, it));
    if v(it).Present() {
      ListingFront(v, flags, it, End(v, it));
      if Wanted(v(it), flags) {
        if v(it).size != NO_VALUE { FetchIsListing(v, flags, it + 1, celt - 1); }
      } else {
        FetchStep(v, flags, it + 1, celt);
        FetchIsListing(v, flags, it + 1, celt);
      }
    }
  }

  /**
   Any sequence of calls that raises nothing delivers a prefix of the listing, and once a call
   came up short the listing is exhausted and every later call fetches nothing.
   */
  lemma CallsDeliverListing(v: Slots, flags: bv32, it: DWord, celts: seq<nat>, more: nat)
    requires Ends(v, it) && Sized(v, flags, it, End(v, it))
    ensures var r := FetchAll(v, flags, it, celts);
            && !r.raised
            && r.items <= Listing(v, flags, it, End(v, it))
            && (|r.items| < Sum(celts) ==>
                  && r.items == Listing(v, flags, it, End(v, it))
                  && Ends(v, r.next)
                  && Fetch(v, flags, r.next, more) == Batch([], r.next, false))
  {
    hide Fetch, FetchAll, Listing, Sized, End;
    FetchAllRaisesNothing(v, flags, it, celts);
    BatchingIndependent(v, flags, it, celts);
    var s, big := Sum(celts), End(v, it) - it + 1;
    FetchIsListing(v, flags, it, s + big);
    FetchSplit(v, flags, it, s, big);
    var first := Fetch(v, flags, it, s);
    if |first.items| < s {
      FetchAtEnd(v, flags, first.next, big);
      FetchAtEnd(v, flags, first.next, more);
      assert first.items + [] == first.items;
    }
  }

  lemma {:induction false} FetchAllRaisesNothing(v: Slots, flags: bv32, it: DWord, celts: seq<nat>)
    requires Ends(v, it) && Sized(v, flags, it, End(v, it))
    ensures !FetchAll(v, flags, it, celts).raised
    decreases |celts|
  {
    if celts != [] {
      FetchKeepsSized(v, flags, it, celts[0]);
      FetchAllRaisesNothing(v, flags, Fetch(v, flags, it, celts[0]).next, celts[1..]);
    }
  }

  lemma ScanKeepsSized(v: Slots, flags: bv32, it: DWord)
    requires Ends(v, it) && Sized(v, flags, it, End(v, it))
    ensures var (r, next) := Scan(v, flags, it);
            !r.Broken? && next <= End(v, it) == End(v, next) && Sized(v, flags, next, End(v, next))
  {
    hide Wanted, Scan;
    ScanWithinEnd(v, flags, it);
  }

  lemma {:induction false} FetchKeepsSized(v: Slots, flags: bv32, it: DWord, celt: nat)
    requires Ends(v, it) && Sized(v, flags, it, End(v, it))
    ensures !Fetch(v, flags, it, celt).raised
    ensures Fetch(v, flags, it, celt).next <= End(v, it) == End(v, Fetch(v, flags, it, celt).next)
    decreases celt
  {
    hide Fetch, Scan, Sized;
    FetchStep(v, flags, it, celt);
    if celt > 0 {
      ScanKeepsSized(v, flags, it);
      if Scan(v, flags, it).0.Next? { FetchKeepsSized(v, flags, Scan(v, flags, it).1, celt - 1); }
    }
  }

  /** `r` is the first wanted slot before the end, or the news that there is none. */
  predicate FirstWanted(v: Slots, flags: bv32, it: DWord, r: Next, next: DWord) {
    && it <= next
    && (forall k :: it <= k < (if r.NoMore? then next else next - 1) ==> !Wanted(v(k), flags))
    && (!r.NoMore? ==> it < next && Wanted(v(next - 1), flags))
    && (r.Next? ==> r.item == ItemOf(v, next - 1) && v(next - 1).size != NO_VALUE)
    && (r.Broken? ==> v(next - 1).size == NO_VALUE)
  }

  lemma {:induction false} ScanWithinEnd(v: Slots, flags: bv32, it: DWord)
    requires Ends(v, it)
    ensures var (r, next) := Scan(v, flags, it);
            && FirstWanted(v, flags, it, r, next)
            && next <= End(v, it) == End(v, next)
            && (r.NoMore? ==> next == End(v, it))
    decreases 0x1_0000_0000 - it
  {
    hide Wanted, Scan, ItemOf, End, Ends;
    ScanStep(v, flags, it);
    if v(it).Present() && !Wanted(v(it), flags) { ScanWithinEnd(v, flags, it + 1); }
  }

  // --- going on after an exception -----------------------------------------------------------

  /**
   What the caller receives from calls that go on after an exception: the call that raises it
   frees what it has fetched, and the next one starts behind the slot without a size.
   */
  function Delivered(v: Slots, flags: bv32, it: DWord, celts: seq<nat>): seq<Item>
    requires Ends(v, it)
    decreases |celts|
  {
    if celts == [] then []
    else
      var batch := Fetch(v, flags, it, celts[0]);
      (if batch.raised then [] else batch.items) + Delivered(v, flags, batch.next, celts[1..])
  }

  /** The wanted slots of a range whose size can be read, in slot order. */
  function SizedListing(v: Slots, flags: bv32, lo: nat, hi: nat): seq<Item>
    requires hi < 0x1_0000_0000
    decreases hi - lo
  {
    if hi <= lo then []
    else
      (if Wanted(v(lo), flags) && v(lo).size != NO_VALUE then [ItemOf(v, lo)] else [])
      + SizedListing(v, flags, lo + 1, hi)
  }

  /** Items of different wanted slots with readable sizes, in slot order. */
  predicate InOrder(v: Slots, flags: bv32, lo: nat, hi: nat, items: seq<Item>) {
    && (forall i :: 0 <= i < |items| ==> Listed(v, flags, lo, hi, items[i]) && items[i].size != NO_VALUE)
    && (forall i, j :: 0 <= i < j < |items| ==> items[i].id < items[j].id)
  }

  lemma InOrderJoin(v: Slots, flags: bv32, lo: nat, mid: nat, hi: nat, xs: seq<Item>, ys: seq<Item>)
    requires lo <= mid <= hi && InOrder(v, flags, lo, mid, xs) && InOrder(v, flags, mid, hi, ys)
    ensures InOrder(v, flags, lo, hi, xs + ys)
  {
    hide Wanted, ItemOf;
    var zs := xs + ys;
    forall i | 0 <= i < |zs| ensures Listed(v, flags, lo, hi, zs[i]) && zs[i].size != NO_VALUE {
      if i < |xs| { assert Listed(v, flags, lo, mid, xs[i]); } else { assert Listed(v, flags, mid, hi, ys[i - |xs|]); }
    }
  }

  lemma {:induction false} FetchInOrder(v: Slots, flags: bv32, it: DWord, celt: nat)
    requires Ends(v, it)
    ensures var batch := Fetch(v, flags, it, celt);
            batch.next <= End(v, it) == End(v, batch.next) && InOrder(v, flags, it, batch.next, batch.items)
    decreases celt
  {
    hide Fetch, Scan, Wanted, ItemOf, End, Ends, InOrder;
    FetchStep(v, flags, it, celt);
    var (r, next) := Scan(v, flags, it);
    ScanWithinEnd(v, flags, it);
    if celt > 0 && r.Next? {
      FetchInOrder(v, flags, next, celt - 1);
      OneInOrder(v, flags, it, next, r.item);
      var rest := Fetch(v, flags, next, celt - 1);
      InOrderJoin(v, flags, it, next, rest.next, [r.item], rest.items);
    } else {
      NoneInOrder(v, flags, it, Fetch(v, flags, it, celt).next);
    }
  }

  lemma OneInOrder(v: Slots, flags: bv32, it: DWord, next: DWord, item: Item)
    requires FirstWanted(v, flags, it, Next(item), next)
    ensures InOrder(v, flags, it, next, [item])
  {
    hide Wanted;
  }

  lemma NoneInOrder(v: Slots, flags: bv32, lo: nat, hi: nat)
    ensures InOrder(v, flags, lo, hi, [])
  {
  }

  /** Whatever the calls, they deliver readable wanted slots before the end, each at most once and in slot order. */
  lemma {:induction false} DeliveredInOrder(v: Slots, flags: bv32, it: DWord, celts: seq<nat>)
    requires Ends(v, it)
    ensures InOrder(v, flags, it, End(v, it), Delivered(v, flags, it, celts))
    decreases |celts|
  {
    hide Fetch, End, Ends, InOrder;
    if celts == [] {
      NoneInOrder(v, flags, it, End(v, it));
    } else {
      var batch := Fetch(v, flags, it, celts[0]);
      FetchInOrder(v, flags, it, celts[0]);
      NoneInOrder(v, flags, it, batch.next);
      DeliveredInOrder(v, flags, batch.next, celts[1..]);
      InOrderJoin(v, flags, it, batch.next, End(v, it), if batch.raised then [] else batch.items,
                  Delivered(v, flags, batch.next, celts[1..]));
    }
  }

  function Ones(n: nat): (ns: seq<nat>)
    ensures |ns| == Sum(ns) == n
  {
    if n == 0 then [] else [1] + Ones(n - 1)
  }

  /** Asking for one item at a time loses nothing but the slots without a size. */
  lemma {:induction false} OneByOne(v: Slots, flags: bv32, it: DWord, n: nat)
    requires Ends(v, it) && n > End(v, it) - it
    ensures Delivered(v, flags, it, Ones(n)) == SizedListing(v, flags, it, End(v, it))
    decreases 0x1_0000_0000 - it
  {
    hide Wanted, Scan, Fetch, ItemOf, End, Ends, Delivered;
    ScanStep(v, flags, it);
    if !v(it).Present() {
      DeliveredAtEnd(v, flags, it, Ones(n));
    } else {
      DeliveredOne(v, flags, it, n);
      if Wanted(v(it), flags) {
        OneByOne(v, flags, it + 1, n - 1);
      } else {
        DeliveredOne(v, flags, it + 1, n);
        OneByOne(v, flags, it + 1, n);
      }
    }
  }

  // The first of several requests for one item.
  lemma DeliveredOne(v: Slots, flags: bv32, it: DWord, n: nat)
    requires Ends(v, it) && n > 0
    ensures var (r, next) := Scan(v, flags, it);
            Delivered(v, flags, it, Ones(n)) ==
            (if r.Next? then [r.item] else []) + Delivered(v, flags, next, Ones(n - 1))
  {
    hide Scan, Fetch, Ends;
    FetchStep(v, flags, it, 1);
    FetchStep(v, flags, Scan(v, flags, it).1, 0);
    assert Ones(n)[0] == 1 && Ones(n)[1..] == Ones(n - 1);
  }

  lemma {:induction false} DeliveredAtEnd(v: Slots, flags: bv32, it: DWord, celts: seq<nat>)
    requires Ends(v, it) && !v(it).Present()
    ensures Delivered(v, flags, it, celts) == []
    decreases |celts|
  {
    hide Fetch;
    if celts != [] {
      FetchAtEnd(v, flags, it, celts[0]);
      DeliveredAtEnd(v, flags, it, celts[1..]);
    }
  }

  /** No wanted slot of the range has a size that can be read. */
  predicate Unsized(v: Slots, flags: bv32, lo: nat, hi: nat)
    requires hi < 0x1_0000_0000
  {
    forall k :: lo <= k < hi && Wanted(v(k), flags) ==> v(k).size == NO_VALUE
  }

  /** Two ways to ask for the same number of items. */
  predicate SameDelivery(v: Slots, flags: bv32, it: DWord, xs: seq<nat>, ys: seq<nat>)
    requires Ends(v, it)
  {
    Sum(xs) == Sum(ys) ==> Delivered(v, flags, it, xs) == Delivered(v, flags, it, ys)
  }

  /**
   What is delivered depends only on the number of items asked for, not on how the calls are
   batched, exactly when all wanted slots before the end have a readable size, or none of them has.
   */
  lemma DeliveryIndependentExactly(v: Slots, flags: bv32, it: DWord)
    requires Ends(v, it)
    ensures (forall xs, ys :: SameDelivery(v, flags, it, xs, ys)) <==>
            Sized(v, flags, it, End(v, it)) || Unsized(v, flags, it, End(v, it))
  {
    hide Fetch, FetchAll, Delivered, Sized, Unsized, End, Ends;
    var end := End(v, it);
    if Sized(v, flags, it, end) {
      forall xs, ys ensures SameDelivery(v, flags, it, xs, ys) {
        SizedDelivery(v, flags, it, xs);
        SizedDelivery(v, flags, it, ys);
      }
    } else if Unsized(v, flags, it, end) {
      forall xs, ys ensures SameDelivery(v, flags, it, xs, ys) {
        UnsizedDelivery(v, flags, it, xs);
        UnsizedDelivery(v, flags, it, ys);
      }
    } else {
      var n := end - it + 1;
      OneByOne(v, flags, it, n);
      SomeSized(v, flags, it, end);
      FetchIsListing(v, flags, it, n);
      OneCall(v, flags, it, n);
      assert !SameDelivery(v, flags, it, [n], Ones(n));
    }
  }

  lemma SizedDelivery(v: Slots, flags: bv32, it: DWord, celts: seq<nat>)
    requires Ends(v, it) && Sized(v, flags, it, End(v, it))
    ensures Delivered(v, flags, it, celts) == Fetch(v, flags, it, Sum(celts)).items
  {
    hide Fetch, Delivered, FetchAll, Sized;
    FetchAllRaisesNothing(v, flags, it, celts);
    BatchingIndependent(v, flags, it, celts);
    NothingRaisedDelivered(v, flags, it, celts);
  }

  lemma {:induction false} NothingRaisedDelivered(v: Slots, flags: bv32, it: DWord, celts: seq<nat>)
    requires Ends(v, it) && !FetchAll(v, flags, it, celts).raised
    ensures Delivered(v, flags, it, celts) == FetchAll(v, flags, it, celts).items
    decreases |celts|
  {
    hide Fetch;
    if celts != [] { NothingRaisedDelivered(v, flags, Fetch(v, flags, it, celts[0]).next, celts[1..]); }
  }

  lemma UnsizedDelivery(v: Slots, flags: bv32, it: DWord, celts: seq<nat>)
    requires Ends(v, it) && Unsized(v, flags, it, End(v, it))
    ensures Delivered(v, flags, it, celts) == []
  {
    hide Wanted, Delivered;
    DeliveredInOrder(v, flags, it, celts);
    var items := Delivered(v, flags, it, celts);
    assert items != [] ==> Listed(v, flags, it, End(v, it), items[0]);
  }

  lemma {:induction false} SomeSized(v: Slots, flags: bv32, lo: nat, hi: nat)
    requires hi < 0x1_0000_0000 && !Unsized(v, flags, lo, hi)
    ensures SizedListing(v, flags, lo, hi) != []
    decreases hi - lo
  {
    hide Wanted;
    if lo < hi && !(Wanted(v(lo), flags) && v(lo).size != NO_VALUE) {
      SomeSized(v, flags, lo + 1, hi);
    }
  }

  lemma OneCall(v: Slots, flags: bv32, it: DWord, celt: nat)
    requires Ends(v, it) && Fetch(v, flags, it, celt).raised
    ensures Delivered(v, flags, it, [celt]) == [] && Sum([celt]) == celt
  {
    hide Fetch;
    assert [celt][1..] == [];
    assert Delivered(v, flags, Fetch(v, flags, it, celt).next, []) == [];
  }

  // --- what is enumerated, in terms of the slots ---------------------------------------------

  /** The flags ask for this slot: an active one, a folder or not as its mark says. */
  predicate AskedFor(s: Slot, flags: bv32) {
    s.active == 1 && (if s.folder == 1 then flags & SHCONTF_FOLDERS != 0 else flags & SHCONTF_NONFOLDERS != 0)
  }

  /** The item was made of the slot before its id, which is asked for. */
  predicate Tells(item: Item, v: Slots, flags: bv32, lo: nat, hi: nat) {
    lo < item.id <= hi
    && var s := v(item.id - 1);
    AskedFor(s, flags) && item.size == s.size && item.folder == (s.folder == 1) && item.name == s.name
  }

  /**
   An enumeration of a folder ends at the first slot whose active value is missing. It raises an
   exception exactly if a slot before that is asked for and has no size. Otherwise it fetches
   exactly what the slots asked for hold, each once and in slot order.
   */
  lemma FetchExactly(v: Slots, flags: bv32, it: DWord, celt: nat)
    requires Ends(v, it) && celt > End(v, it) - it
    ensures var (batch, end) := (Fetch(v, flags, it, celt), End(v, it));
            && v(end).active == 0xFFFF_FFFF
            && (forall k: DWord :: it <= k < end ==> v(k).active != 0xFFFF_FFFF)
            && (batch.raised <==>
                exists k: DWord :: it <= k < end && AskedFor(v(k), flags) && v(k).size == 0xFFFF_FFFF)
            && (!batch.raised ==>
                  && batch.next == end
                  && (forall k: DWord :: it <= k < end && AskedFor(v(k), flags) ==>
                                           Item(k + 1, v(k).size, v(k).folder == 1, v(k).name) in batch.items)
                  && (forall i :: 0 <= i < |batch.items| ==> Tells(batch.items[i], v, flags, it, end))
                  && (forall i, j :: 0 <= i < j < |batch.items| ==> batch.items[i].id < batch.items[j].id))
  {
    hide Fetch, Listing, AskedFor, Wanted;
    var end := End(v, it);
    FetchIsListing(v, flags, it, celt);
    ListingExact(v, flags, it, end);
    forall k: DWord ensures AskedFor(v(k), flags) == Wanted(v(k), flags) { AskedForIsWanted(v(k), flags); }
    var items := Listing(v, flags, it, end);
    forall i | 0 <= i < |items| ensures Tells(items[i], v, flags, it, end) {
      assert Listed(v, flags, it, end, items[i]);
    }
    assert forall k: DWord :: it <= k < end && AskedFor(v(k), flags) ==> ItemOf(v, k) in items;
  }

  lemma AskedForIsWanted(s: Slot, flags: bv32)
    ensures AskedFor(s, flags) <==> Wanted(s, flags)
  {
  }

  // --- what the writing operations do to the slots -------------------------------------------

  ghost predicate IsSet(v: Slots, w: Slots, id: DWord, size: DWord, name: WString) {
    forall n: DWord :: w(n) == if n == id then v(n).(size := size, name := name) else v(n)
  }

  ghost predicate IsAdd(v: Slots, w: Slots, id: DWord, size: DWord, name: WString) {
    forall n: DWord :: w(n) == if n == id then Slot(1, v(n).folder, size, name) else v(n)
  }

  ghost predicate IsDelete(v: Slots, w: Slots, ids: seq<DWord>) {
    forall n: DWord :: w(n) == if n in ids then v(n).(active := 0) else v(n)
  }

  // --- the shape of the store ----------------------------------------------------------------

  /** The present slots are exactly the first `n`. */
  ghost predicate Prefix(v: Slots, n: nat) {
    n <= 0x1_0000_0000 && forall k: DWord :: v(k).Present() <==> k < n
  }

  lemma PrefixEnds(v: Slots, n: nat)
    requires Prefix(v, n) && n < 0x1_0000_0000
    ensures FreeFrom(v, 0) && FirstFree(v, 0) <= n
    ensures Ends(v, 0) && End(v, 0) == n
  {
    assert !v(n).Present() && !v(End(v, 0)).Present();
  }

  /** In such a folder the enumeration delivers every wanted slot there is, and then ends. */
  lemma EnumerationComplete(v: Slots, n: nat, flags: bv32)
    requires Prefix(v, n) && n < 0x1_0000_0000 && Sized(v, flags, 0, n)
    ensures Ends(v, 0) && Fetch(v, flags, 0, n + 1) == Batch(Listing(v, flags, 0, n), n, false)
    ensures forall k: DWord :: Wanted(v(k), flags) ==> k < n && ItemOf(v, k) in Listing(v, flags, 0, n)
  {
    hide Wanted, Fetch;
    PrefixEnds(v, n);
    FetchIsListing(v, flags, 0, n + 1);
    ListingComplete(v, flags, 0, n);
    forall k: DWord | Wanted(v(k), flags) ensures k < n { WantedIsPresent(v(k), flags); }
  }

  lemma WantedIsPresent(s: Slot, flags: bv32)
    requires Wanted(s, flags)
    ensures s.Present()
  {
  }

  lemma AddKeepsPrefix(v: Slots, w: Slots, n: nat, size: DWord, name: WString)
    requires Prefix(v, n) && n < 0x1_0000_0000 && FreeFrom(v, 0) && IsAdd(v, w, FirstFree(v, 0), size, name)
    ensures Prefix(w, if FirstFree(v, 0) < n then n else n + 1)
  {
    PrefixEnds(v, n);
  }

  lemma SetKeepsPrefix(v: Slots, w: Slots, n: nat, id: DWord, size: DWord, name: WString)
    requires Prefix(v, n) && IsSet(v, w, id, size, name)
    ensures Prefix(w, n)
  {
  }

  /** Deleting present slots, or the first missing one, keeps the shape; */
  lemma DeleteKeepsPrefix(v: Slots, w: Slots, n: nat, ids: seq<DWord>)
    requires Prefix(v, n) && IsDelete(v, w, ids) && forall id :: id in ids ==> id <= n
    ensures Prefix(w, if n < 0x1_0000_0000 && n in ids then n + 1 else n)
  {
  }

  /** deleting a single slot keeps it only then. */
  lemma DeletePrefixExactly(v: Slots, w: Slots, n: nat, id: DWord)
    requires Prefix(v, n) && IsDelete(v, w, [id])
    ensures (exists m :: Prefix(w, m)) <==> id <= n
  {
    if id <= n {
      DeleteKeepsPrefix(v, w, n, [id]);
    } else {
      assert w(id).Present() && !w(n).Present();
    }
  }

  /** No inactive slot is marked as a folder. */
  ghost predicate FoldersActive(v: Slots) { forall k: DWord :: v(k).IsFolder() ==> v(k).IsActive() }

  /** Deleting keeps that exactly when it deletes no slot marked as a folder. */
  lemma DeleteFoldersActive(v: Slots, w: Slots, ids: seq<DWord>)
    requires FoldersActive(v) && IsDelete(v, w, ids)
    ensures FoldersActive(w) <==> forall id :: id in ids ==> !v(id).IsFolder()
  {
    forall id | id in ids && v(id).IsFolder() ensures !FoldersActive(w) {
      assert w(id).IsFolder() && !w(id).IsActive();
    }
  }

  /** Every active slot has a size that can be read. */
  ghost predicate ActiveSized(v: Slots) { forall k: DWord :: v(k).IsActive() ==> v(k).size != NO_VALUE }

  /** An enumeration of all entries with these flags ends in an exception. */
  predicate EnumerationRaises(v: Slots, flags: bv32)
    requires Ends(v, 0)
  {
    Fetch(v, flags, 0, End(v, 0) + 1).raised
  }

  /** That is what it takes for no enumeration of the folder, whatever its flags, to raise an exception. */
  lemma NoneRaisesExactly(v: Slots, n: nat)
    requires Prefix(v, n) && n < 0x1_0000_0000
    ensures Ends(v, 0)
    ensures ActiveSized(v) <==> forall flags :: !EnumerationRaises(v, flags)
  {
    hide Fetch, Wanted, Sized, ActiveSized, Prefix;
    PrefixEnds(v, n);
    forall flags ensures EnumerationRaises(v, flags) <==> !Sized(v, flags, 0, n) {
      FetchIsListing(v, flags, 0, n + 1);
    }
    hide EnumerationRaises;
    AllSizedExactly(v, n);
    if !ActiveSized(v) { assert EnumerationRaises(v, SHCONTF_FOLDERS | SHCONTF_NONFOLDERS); }
  }

  lemma AllSizedExactly(v: Slots, n: nat)
    requires Prefix(v, n) && n < 0x1_0000_0000
    ensures ActiveSized(v) ==> forall flags :: Sized(v, flags, 0, n)
    ensures !ActiveSized(v) ==> !Sized(v, SHCONTF_FOLDERS | SHCONTF_NONFOLDERS, 0, n)
  {
    if !ActiveSized(v) {
      var k: DWord :| v(k).IsActive() && v(k).size == NO_VALUE;
      assert v(k).Present() && Wanted(v(k), SHCONTF_FOLDERS | SHCONTF_NONFOLDERS);
    }
  }

  lemma OthersFoldersActive(v: Slots, w: Slots, id: DWord, size: DWord, name: WString)
    requires FoldersActive(v) && (IsSet(v, w, id, size, name) || IsAdd(v, w, id, size, name))
    ensures FoldersActive(w)
  {
  }

  // --- counting ------------------------------------------------------------------------------

  ghost function ActiveSlots(v: Slots): set<DWord> {
    set n: DWord | 0 <= n < 0x1_0000_0000 && v(n).IsActive()
  }

  lemma AddCounts(v: Slots, w: Slots, id: DWord, size: DWord, name: WString)
    requires IsAdd(v, w, id, size, name) && !v(id).IsActive()
    ensures |ActiveSlots(w)| == |ActiveSlots(v)| + 1
  {
    assert ActiveSlots(w) == ActiveSlots(v) + {id};
  }

  lemma SetCounts(v: Slots, w: Slots, id: DWord, size: DWord, name: WString)
    requires IsSet(v, w, id, size, name)
    ensures ActiveSlots(w) == ActiveSlots(v)
  {
  }

  predicate Distinct(ids: seq<DWord>) { forall i, j :: 0 <= i < j < |ids| ==> ids[i] != ids[j] }

  predicate DistinctActive(v: Slots, ids: seq<DWord>) {
    Distinct(ids) && forall i :: 0 <= i < |ids| ==> v(ids[i]).IsActive()
  }

  ghost function Hit(v: Slots, ids: seq<DWord>): set<DWord> { set n | n in ids && v(n).IsActive() }

  // As many active slots are hit as ids are given exactly when the ids are distinct and active.
  lemma {:induction false} HitCount(v: Slots, ids: seq<DWord>)
    ensures |Hit(v, ids)| <= |ids|
    ensures |Hit(v, ids)| == |ids| <==> DistinctActive(v, ids)
    decreases |ids|
  {
    if ids == [] {
      assert Hit(v, ids) == {};
    } else {
      hide DistinctActive, Hit;
      var init, last := ids[..|ids| - 1], ids[|ids| - 1];
      HitCount(v, init);
      assert ids == init + [last];
      HitAppend(v, init, last);
    }
  }

  lemma HitAppend(v: Slots, ids: seq<DWord>, id: DWord)
    ensures Hit(v, ids + [id]) == if v(id).IsActive() then Hit(v, ids) + {id} else Hit(v, ids)
    ensures id in Hit(v, ids) <==> id in ids && v(id).IsActive()
    ensures DistinctActive(v, ids + [id]) <==> DistinctActive(v, ids) && id !in ids && v(id).IsActive()
  {
    var more := ids + [id];
    assert more[|ids|] == id && forall i :: 0 <= i < |ids| ==> more[i] == ids[i];
  }

  lemma DeleteCounts(v: Slots, w: Slots, ids: seq<DWord>)
    requires IsDelete(v, w, ids)
    ensures |ActiveSlots(w)| == |ActiveSlots(v)| - |Hit(v, ids)|
    ensures |Hit(v, ids)| <= |ActiveSlots(v)|
  {
    assert ActiveSlots(w) == ActiveSlots(v) - Hit(v, ids);
    assert Hit(v, ids) <= ActiveSlots(v);
    assert ActiveSlots(v) == ActiveSlots(w) + Hit(v, ids);
  }

  // --- enumerated ids are off by one ---------------------------------------------------------

  /**
   Deleting by the id the enumeration reported does not delete the entry it was reported for:
   the same scan finds the same entry again. The slot that is lost is the one after it.
   */
  lemma {:induction false} DeleteByEnumeratedId(v: Slots, w: Slots, flags: bv32, it: DWord)
    requires Ends(v, it) && Ends(w, it) && Scan(v, flags, it).0.Next?
    requires IsDelete(v, w, [Scan(v, flags, it).0.item.id])
    ensures Scan(w, flags, it) == Scan(v, flags, it)
    ensures !w(Scan(v, flags, it).1).IsActive()
    decreases 0x1_0000_0000 - it
  {
    var (r, next) := Scan(v, flags, it);
    ScanWithinEnd(v, flags, it);
    assert w(it) == v(it);
    EndAhead(v, it);
    EndAhead(w, it);
    if !Wanted(v(it), flags) { DeleteByEnumeratedId(v, w, flags, it + 1); }
  }

  /** Likewise, renaming by the reported id leaves the reported entry with its old name. */
  lemma {:induction false} RenameByEnumeratedId(v: Slots, w: Slots, flags: bv32, it: DWord, name: WString)
    requires Ends(v, it) && Ends(w, it) && Scan(v, flags, it).0.Next?
    requires IsSet(v, w, Scan(v, flags, it).0.item.id, Scan(v, flags, it).0.item.size, name)
    ensures Scan(w, flags, it) == Scan(v, flags, it)
    ensures w(Scan(v, flags, it).1).name == name
    decreases 0x1_0000_0000 - it
  {
    ScanWithinEnd(v, flags, it);
    assert w(it) == v(it);
    EndAhead(v, it);
    EndAhead(w, it);
    if !Wanted(v(it), flags) { RenameByEnumeratedId(v, w, flags, it + 1, name); }
  }

  /** Ids reported by the enumeration never reach behind the first missing slot. */
  lemma EnumeratedIdsKeepPrefix(v: Slots, w: Slots, n: nat, flags: bv32, ids: seq<DWord>)
    requires Prefix(v, n) && n < 0x1_0000_0000 && IsDelete(v, w, ids)
    requires forall id :: id in ids ==> exists item :: item in Listing(v, flags, 0, n) && item.id == id
    ensures Prefix(w, n) || Prefix(w, n + 1)
  {
    ListingExact(v, flags, 0, n);
    DeleteKeepsPrefix(v, w, n, ids);
  }
}
