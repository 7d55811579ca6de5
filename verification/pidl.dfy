/**
 Item-ID lists as raw bytes: a run of length-prefixed items, each a 16-bit `cb`
 that counts itself, ended by a `cb` of zero ([MS-SHLLINK] sections 2.2.1 and 2.2.2).
 A list is addressed by a buffer and an offset into it.
 */
module Pidl {
  import opened Words

  /** CoTaskMemAlloc and CoTaskMemFree; `live` holds the blocks that were handed out and not yet freed. */
  class TaskMemory {
    var live: set<array<Byte>>

    constructor ()
      ensures live == {}
    {
      live := {};
    }

    method Alloc(size: nat) returns (p: array<Byte>)
      modifies this
      ensures fresh(p) && p.Length == size
      ensures live == old(live) + {p} && p !in old(live)
    {
      p := new Byte[size];
      live := live + {p};
    }

    method Free(p: array<Byte>)
      requires p in live
      modifies this
      ensures live == old(live) - {p}
    {
      live := live - {p};
    }
  }

  function Cb(b: seq<Byte>, p: nat): Word
    requires p + 2 <= |b|
  {
    Get16(b, p)
  }

  /** A complete item-ID list starts at `p`: every item and the terminator lie inside the buffer. */
  predicate ValidAt(b: seq<Byte>, p: nat)
    decreases |b| - p
  {
    && p + 2 <= |b|
    && (Cb(b, p) == 0 || (Cb(b, p) >= 2 && p + Cb(b, p) <= |b| && ValidAt(b, p + Cb(b, p))))
  }

  /** The data parts (`abID`) of the items of the list at `p`. */
  function ItemsAt(b: seq<Byte>, p: nat): (items: seq<seq<Byte>>)
    requires ValidAt(b, p)
    ensures items == [] <==> Cb(b, p) == 0
    decreases |b| - p
  {
    if Cb(b, p) == 0 then [] else [b[p + 2..p + Cb(b, p)]] + ItemsAt(b, p + Cb(b, p))
  }

  /** ILGetSize: the number of bytes of the list, its terminator included. */
  function SizeAt(b: seq<Byte>, p: nat): (n: nat)
    requires ValidAt(b, p)
    ensures 2 <= n && p + n <= |b|
    decreases |b| - p
  {
    if Cb(b, p) == 0 then 2 else Cb(b, p) + SizeAt(b, p + Cb(b, p))
  }

  /** ILGetNext: the position behind the item at `p`; there is none behind the terminator. */
  function ILGetNext(b: seq<Byte>, p: nat): Option<nat>
    requires p + 2 <= |b|
  {
    if Cb(b, p) == 0 then None else Some(p + Cb(b, p))
  }

  /** ItemIDList::GetNextItem: like ILGetNext, but the terminator counts as "no next item". */
  function GetNextItem(b: seq<Byte>, p: nat): (next: Option<nat>)
    requires ValidAt(b, p)
    ensures next.Some? ==> p < next.value <= |b| - 2 && ValidAt(b, next.value) && Cb(b, next.value) != 0
  {
    var next := ILGetNext(b, p);
    assert next.Some? ==> ValidAt(b, next.value);
    if next.Some? && Cb(b, next.value) == 0 then None else next
  }

  /** GetNextItem without any promise about the list; `BehindEnd` when the next size field is not in the buffer. */
  datatype NextPosition = NoNext | NextAt(p: nat) | BehindEnd

  function NextFrom(b: seq<Byte>, p: nat): (next: NextPosition)
    requires p + 2 <= |b|
    ensures next.NextAt? ==> p < next.p && next.p + 2 <= |b|
  {
    if Cb(b, p) == 0 then NoNext
    else if p + Cb(b, p) + 2 > |b| then BehindEnd
    else if Cb(b, p + Cb(b, p)) == 0 then NoNext
    else NextAt(p + Cb(b, p))
  }

  /** In a complete list the next size field is always there. */
  lemma NextFromValid(b: seq<Byte>, p: nat)
    requires ValidAt(b, p)
    ensures NextFrom(b, p) == match GetNextItem(b, p) case None => NoNext case Some(q) => NextAt(q)
  {
    assert Cb(b, p) != 0 ==> ValidAt(b, p + Cb(b, p));
  }

  /** Bytes behind the buffer cannot change a step that was taken without them. */
  lemma NextFromLocal(b: seq<Byte>, more: seq<Byte>, p: nat)
    requires p + 2 <= |b| && !NextFrom(b, p).BehindEnd?
    ensures NextFrom(b + more, p) == NextFrom(b, p)
  {
  }

  // Following GetNextItem from item to item visits the decoded list, in order and to its end.
  lemma WalkStep(b: seq<Byte>, p: nat)
    requires ValidAt(b, p) && Cb(b, p) != 0
    ensures ItemsAt(b, p)[0] == b[p + 2..p + Cb(b, p)]
    ensures ItemsAt(b, p)[1..] == Rest(b, GetNextItem(b, p))
  {
  }

  /** The items from a position on, if there is one. */
  function Rest(b: seq<Byte>, p: Option<nat>): seq<seq<Byte>>
    requires p.Some? ==> ValidAt(b, p.value)
  {
    match p case None => [] case Some(q) => ItemsAt(b, q)
  }

  predicate AllFit(items: seq<seq<Byte>>) {
    forall i :: 0 <= i < |items| ==> |items[i]| + 2 < 0x1_0000
  }

  function Encode(items: seq<seq<Byte>>): (b: seq<Byte>)
    requires AllFit(items)
    ensures |b| >= 2
  {
    if items == [] then [0, 0] else Le16(|items[0]| + 2) + items[0] + Encode(items[1..])
  }

  // One item in front of a list.
  lemma ConsAt(b: seq<Byte>, p: nat, data: seq<Byte>)
    requires |data| + 2 < 0x1_0000
    requires At(b, p, Le16(|data| + 2)) && At(b, p + 2, data) && ValidAt(b, p + 2 + |data|)
    ensures ValidAt(b, p) && SizeAt(b, p) == |data| + 2 + SizeAt(b, p + 2 + |data|)
    ensures ItemsAt(b, p) == [data] + ItemsAt(b, p + 2 + |data|)
  {
    Read16(b, p, |data| + 2);
  }

  lemma EncodeSplit(b: seq<Byte>, p: nat, items: seq<seq<Byte>>)
    requires AllFit(items) && items != []
    ensures At(b, p, Encode(items)) <==>
            && At(b, p, Le16(|items[0]| + 2)) && At(b, p + 2, items[0])
            && At(b, p + 2 + |items[0]|, Encode(items[1..]))
  {
    var head, data := Le16(|items[0]| + 2), items[0];
    AtSplit(b, p, head + data, Encode(items[1..]));
    AtSplit(b, p, head, data);
  }

  lemma {:induction false} DecodeOfEncode(b: seq<Byte>, p: nat, items: seq<seq<Byte>>)
    requires AllFit(items) && At(b, p, Encode(items))
    ensures ValidAt(b, p) && ItemsAt(b, p) == items && SizeAt(b, p) == |Encode(items)|
    decreases |items|
  {
    if items == [] {
      Read16(b, p, 0);
    } else {
      EncodeSplit(b, p, items);
      DecodeOfEncode(b, p + 2 + |items[0]|, items[1..]);
      ConsAt(b, p, items[0]);
      assert items == [items[0]] + items[1..];
    }
  }

  lemma {:induction false} EncodeOfDecode(b: seq<Byte>, p: nat)
    requires ValidAt(b, p)
    ensures AllFit(ItemsAt(b, p)) && At(b, p, Encode(ItemsAt(b, p)))
    ensures |Encode(ItemsAt(b, p))| == SizeAt(b, p)
    decreases |b| - p
  {
    Write16(b, p);
    hide Le16, Get16;
    if Cb(b, p) != 0 {
      var data, rest := b[p + 2..p + Cb(b, p)], p + Cb(b, p);
      EncodeOfDecode(b, rest);
      assert ItemsAt(b, p)[1..] == ItemsAt(b, rest);
      EncodeSplit(b, p, ItemsAt(b, p));
    }
  }

  lemma EncodeDecodes(items: seq<seq<Byte>>)
    requires AllFit(items)
    ensures ValidAt(Encode(items), 0)
    ensures ItemsAt(Encode(items), 0) == items && SizeAt(Encode(items), 0) == |Encode(items)|
  {
    var e := Encode(items);
    assert e[0..|e|] == e;
    DecodeOfEncode(e, 0, items);
  }

  /** A copied list decodes at its new place exactly as it did at the old one. */
  lemma CopyDecodes(b: seq<Byte>, p: nat, c: seq<Byte>, q: nat)
    requires ValidAt(b, p) && At(c, q, b[p..p + SizeAt(b, p)])
    ensures ValidAt(c, q) && ItemsAt(c, q) == ItemsAt(b, p) && SizeAt(c, q) == SizeAt(b, p)
  {
    EncodeOfDecode(b, p);
    DecodeOfEncode(c, q, ItemsAt(b, p));
  }

  /** ILClone of the list at the start of `b`. */
  function Clone(b: seq<Byte>): (c: seq<Byte>)
    requires ValidAt(b, 0)
    ensures ValidAt(c, 0) && ItemsAt(c, 0) == ItemsAt(b, 0) && SizeAt(c, 0) == |c|
  {
    CopyDecodes(b, 0, b[..SizeAt(b, 0)], 0);
    b[..SizeAt(b, 0)]
  }

  /** ILCombine of two lists: the first without its terminator, then the second. */
  function Combine(b1: seq<Byte>, b2: seq<Byte>): seq<Byte>
    requires ValidAt(b1, 0) && ValidAt(b2, 0)
  {
    b1[..SizeAt(b1, 0) - 2] + b2[..SizeAt(b2, 0)]
  }

  lemma {:induction false} EncodeConcat(xs: seq<seq<Byte>>, ys: seq<seq<Byte>>)
    requires AllFit(xs) && AllFit(ys)
    ensures AllFit(xs + ys) && Encode(xs + ys) == Encode(xs)[..|Encode(xs)| - 2] + Encode(ys)
    decreases |xs|
  {
    hide Le16;
    if xs == [] {
      assert xs + ys == ys;
    } else {
      EncodeConcat(xs[1..], ys);
      var head, e := Le16(|xs[0]| + 2) + xs[0], Encode(xs[1..]);
      assert (xs + ys)[0] == xs[0] && (xs + ys)[1..] == xs[1..] + ys;
      assert (head + e)[..|head + e| - 2] == head + e[..|e| - 2];
      assert head + (e[..|e| - 2] + Encode(ys)) == head + e[..|e| - 2] + Encode(ys);
    }
  }

  lemma JoinEncoded(b1: seq<Byte>, xs: seq<seq<Byte>>, b2: seq<Byte>, ys: seq<seq<Byte>>)
    requires AllFit(xs) && AllFit(ys)
    requires At(b1, 0, Encode(xs)) && At(b2, 0, Encode(ys))
    ensures AllFit(xs + ys)
    ensures Encode(xs + ys) == b1[..|Encode(xs)| - 2] + b2[..|Encode(ys)|]
  {
    EncodeConcat(xs, ys);
    assert b1[0..|Encode(xs)|][..|Encode(xs)| - 2] == b1[..|Encode(xs)| - 2];
  }

  lemma CombineDecodes(b1: seq<Byte>, b2: seq<Byte>)
    requires ValidAt(b1, 0) && ValidAt(b2, 0)
    ensures ValidAt(Combine(b1, b2), 0)
    ensures ItemsAt(Combine(b1, b2), 0) == ItemsAt(b1, 0) + ItemsAt(b2, 0)
    ensures SizeAt(Combine(b1, b2), 0) == |Combine(b1, b2)|
  {
    EncodeOfDecode(b1, 0);
    EncodeOfDecode(b2, 0);
    JoinEncoded(b1, ItemsAt(b1, 0), b2, ItemsAt(b2, 0));
    EncodeDecodes(ItemsAt(b1, 0) + ItemsAt(b2, 0));
  }

  /** One item of `n` data bytes followed by the terminator, filling the buffer. */
  predicate IsSingle(b: seq<Byte>, n: nat) {
    |b| == n + 4 && Cb(b, 0) == n + 2 && Cb(b, n + 2) == 0
  }

  lemma SingleDecodes(b: seq<Byte>, n: nat)
    requires IsSingle(b, n)
    ensures ValidAt(b, 0) && ItemsAt(b, 0) == [b[2..n + 2]] && SizeAt(b, 0) == n + 4
  {
    assert ItemsAt(b, n + 2) == [];
  }

  /**
   Allocates a one-item list whose data part is left as the allocator delivered it. `None` is
   the null dereference of a size whose low 16 bits are zero. The list is as asked for exactly
   when the size survives the cast to 16 bits.
   */
  method CreateItemIdListWithTerminator(mem: TaskMemory, sizeItem: nat) returns (r: Option<array<Byte>>)
    modifies mem
    ensures r.Some? <==> ToUShort(sizeItem + 2) != 0
    ensures r.Some? ==> fresh(r.value) && mem.live == old(mem.live) + {r.value} && r.value !in old(mem.live)
    ensures r.Some? ==> r.value.Length == sizeItem + 4
    ensures r.Some? ==> (IsSingle(r.value[..], sizeItem) <==> sizeItem + 2 < 0x1_0000)
  {
    var size := 2 + sizeItem;
    var pidl := mem.Alloc(size + 2);
    var cb := ToUShort(size);
    pidl[0], pidl[1] := cb % 0x100, cb / 0x100;
    if cb == 0 {
      return None;
    }
    pidl[cb], pidl[cb + 1] := 0, 0;
    return Some(pidl);
  }
}
