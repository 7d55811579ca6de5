/**
 The clipboard form of a selection: a count, a table of n + 1 offsets and then the item-ID
 list of the folder followed by those of the n children.
 */
module Cida {
  import opened Words
  import opened Pidl
  import opened VvvItem

  /** Where block `k` starts; with `k` the number of blocks, the size of the whole buffer. */
  function Off(blocks: seq<seq<Byte>>, k: nat): (n: nat)
    requires k <= |blocks|
    ensures n >= 4 + 4 * |blocks|
  {
    if k == 0 then 4 + 4 * |blocks| else Off(blocks, k - 1) + |blocks[k - 1]|
  }

  lemma {:induction false} OffMonotone(blocks: seq<seq<Byte>>, j: nat, k: nat)
    requires j <= k <= |blocks|
    ensures Off(blocks, j) <= Off(blocks, k)
    decreases k - j
  {
    if j < k { OffMonotone(blocks, j, k - 1); }
  }

  lemma OffStep(blocks: seq<seq<Byte>>, k: nat)
    requires k < |blocks|
    ensures Off(blocks, k) + |blocks[k]| == Off(blocks, k + 1) <= Off(blocks, |blocks|)
  {
    OffMonotone(blocks, k + 1, |blocks|);
  }

  /** Block `k` and its table entry are in place. */
  predicate BlockAt(b: seq<Byte>, blocks: seq<seq<Byte>>, k: nat)
    requires k < |blocks| && |b| >= 4 + 4 * |blocks|
  {
    Get32(b, 4 + 4 * k) == Off(blocks, k) && At(b, Off(blocks, k), blocks[k])
  }

  predicate Packed(b: seq<Byte>, blocks: seq<seq<Byte>>, k: nat)
    requires k <= |blocks| && |b| >= 4 + 4 * |blocks|
  {
    forall j :: 0 <= j < k ==> BlockAt(b, blocks, j)
  }

  /** `b` is the packed form of these blocks, the first being the folder. */
  predicate IsCida(b: seq<Byte>, blocks: seq<seq<Byte>>) {
    && |blocks| >= 1
    && |b| == Off(blocks, |blocks|)
    && Get32(b, 0) == |blocks| - 1
    && Packed(b, blocks, |blocks|)
  }

  /**
   The blocks lie behind the n + 1 table entries, one directly after the other, and the last one,
   which is the folder if there are no children, ends where the buffer ends.
   */
  lemma Layout(b: seq<Byte>, blocks: seq<seq<Byte>>, i: nat)
    requires IsCida(b, blocks) && i < |blocks|
    ensures Get32(b, 4) == 4 + 4 * (Get32(b, 0) + 1)
    ensures Get32(b, 4 + 4 * i) + |blocks[i]| == if i + 1 < |blocks| then Get32(b, 4 + 4 * (i + 1)) else |b|
  {
    hide At, Get32;
    assert BlockAt(b, blocks, 0) && BlockAt(b, blocks, i);
    if i + 1 < |blocks| { assert BlockAt(b, blocks, i + 1); }
  }

  /** So no two of them overlap, and with non-empty blocks the offsets are strictly increasing. */
  lemma LayoutOrdered(b: seq<Byte>, blocks: seq<seq<Byte>>, i: nat, j: nat)
    requires IsCida(b, blocks) && i < j < |blocks|
    ensures Get32(b, 4 + 4 * i) + |blocks[i]| <= Get32(b, 4 + 4 * j)
    ensures blocks[i] != [] ==> Get32(b, 4 + 4 * i) < Get32(b, 4 + 4 * j)
  {
    hide At, Get32;
    assert BlockAt(b, blocks, i) && BlockAt(b, blocks, j);
    OffMonotone(blocks, i + 1, j);
  }

  predicate Lists(folder: seq<Byte>, pidls: seq<seq<Byte>>) {
    ValidAt(folder, 0) && forall i :: 0 <= i < |pidls| ==> ValidAt(pidls[i], 0)
  }

  /** What is packed: of every list exactly its own bytes, whatever follows it in memory. */
  function ListBytes(b: seq<Byte>): (bytes: seq<Byte>)
    requires ValidAt(b, 0)
    ensures |bytes| == SizeAt(b, 0)
  {
    b[0..SizeAt(b, 0)]
  }

  predicate AreBlocks(blocks: seq<seq<Byte>>, folder: seq<Byte>, pidls: seq<seq<Byte>>)
    requires Lists(folder, pidls)
  {
    && |blocks| == |pidls| + 1
    && blocks[0] == ListBytes(folder)
    && forall i :: 0 <= i < |pidls| ==> blocks[i + 1] == ListBytes(pidls[i])
  }

  function Blocks(folder: seq<Byte>, pidls: seq<seq<Byte>>): (blocks: seq<seq<Byte>>)
    requires Lists(folder, pidls)
    ensures AreBlocks(blocks, folder, pidls)
  {
    [ListBytes(folder)] + seq(|pidls|, i requires 0 <= i < |pidls| => ListBytes(pidls[i]))
  }

  lemma BlockKept(b: seq<Byte>, c: seq<Byte>, blocks: seq<seq<Byte>>, j: nat, k: nat)
    requires j < k < |blocks| && 4 + 4 * |blocks| <= Off(blocks, k) <= |b| == |c|
    requires b[..4 + 4 * k] == c[..4 + 4 * k] && b[8 + 4 * k..Off(blocks, k)] == c[8 + 4 * k..Off(blocks, k)]
    requires BlockAt(b, blocks, j)
    ensures BlockAt(c, blocks, j)
  {
    OffMonotone(blocks, j + 1, k);
    assert forall i :: 0 <= i < 4 + 4 * k ==> b[..4 + 4 * k][i] == c[i];
    AtKept(b, c, 8 + 4 * k, Off(blocks, k), Off(blocks, j), blocks[j]);
  }

  // Writing table entry k and block k leaves everything packed before in place.
  lemma PackNext(b: seq<Byte>, c: seq<Byte>, blocks: seq<seq<Byte>>, k: nat)
    requires k < |blocks| && 4 + 4 * |blocks| <= Off(blocks, k) <= |b| == |c|
    requires Packed(b, blocks, k) && BlockAt(c, blocks, k)
    requires b[..4 + 4 * k] == c[..4 + 4 * k] && b[8 + 4 * k..Off(blocks, k)] == c[8 + 4 * k..Off(blocks, k)]
    ensures Packed(c, blocks, k + 1)
  {
    forall j | 0 <= j < k ensures BlockAt(c, blocks, j) { BlockKept(b, c, blocks, j, k); }
  }

  /** Writes a table entry and copies a list; apart from these nothing changes, if the list lies behind the entry. */
  method AddPidlToCida(cida: array<Byte>, pidl: seq<Byte>, index: nat, offset: DWord) returns (size: DWord)
    requires ValidAt(pidl, 0) && SizeAt(pidl, 0) < 0x1_0000_0000
    requires 8 + 4 * index <= cida.Length && offset + SizeAt(pidl, 0) <= cida.Length
    modifies cida
    ensures size == SizeAt(pidl, 0) && At(cida[..], offset, pidl[..size])
    ensures 8 + 4 * index <= offset ==>
              && Get32(cida[..], 4 + 4 * index) == offset
              && cida[..4 + 4 * index] == old(cida[..4 + 4 * index])
              && cida[8 + 4 * index..offset] == old(cida[8 + 4 * index..offset])
              && cida[offset + size..] == old(cida[offset + size..])
  {
    hide ValidAt, ToUInt;
    Store32(cida, 4 + 4 * index, offset);
    size := SizeAt(pidl, 0);
    ghost var table, rest := cida[..offset], cida[offset + size..];
    var k := 0;
    while k < size
      invariant 0 <= k <= size
      invariant cida[..offset] == table && cida[offset + size..] == rest
      invariant cida[offset..offset + k] == pidl[..k]
    {
      cida[offset + k] := pidl[k];
      k := k + 1;
    }
    if 8 + 4 * index <= offset { TableKept(cida[..], table, offset, index); }
  }

  lemma TableKept(b: seq<Byte>, table: seq<Byte>, offset: nat, index: nat)
    requires 8 + 4 * index <= offset <= |b| && b[..offset] == table
    ensures Get32(b, 4 + 4 * index) == Get32(table, 4 + 4 * index)
    ensures b[..4 + 4 * index] == table[..4 + 4 * index] && b[8 + 4 * index..offset] == table[8 + 4 * index..]
  {
    assert forall i :: 0 <= i < offset ==> b[i] == table[i];
  }

  /**
   AddPidlToCida as the next step of the fill pass; `None` when one of its writes would leave the
   block. In its right place it packs one block more.
   */
  method AddBlock(cida: array<Byte>, pidl: seq<Byte>, index: nat, offset: DWord, ghost blocks: seq<seq<Byte>>)
    returns (size: Option<DWord>)
    requires ValidAt(pidl, 0) && SizeAt(pidl, 0) < 0x1_0000_0000
    requires index < |blocks| && blocks[index] == ListBytes(pidl)
    modifies cida
    ensures size == if 8 + 4 * index <= cida.Length && offset + |blocks[index]| <= cida.Length
                    then Some(|blocks[index]|) else None
    ensures && size.Some? && offset == Off(blocks, index)
            && cida.Length >= 4 + 4 * |blocks| && old(Packed(cida[..], blocks, index)) ==>
              Packed(cida[..], blocks, index + 1) && Get32(cida[..], 0) == old(Get32(cida[..], 0))
  {
    hide ValidAt, Packed, BlockAt, Get32;
    if 8 + 4 * index > cida.Length || offset + SizeAt(pidl, 0) > cida.Length { return None; }
    ghost var was := cida[..];
    var n := AddPidlToCida(cida, pidl, index, offset);
    if offset == Off(blocks, index) && cida.Length >= 4 + 4 * |blocks| && Packed(was, blocks, index) {
      BlockAdded(was, cida[..], blocks, index);
    }
    return Some(n);
  }

  lemma BlockAdded(was: seq<Byte>, now: seq<Byte>, blocks: seq<seq<Byte>>, index: nat)
    requires index < |blocks| && 4 + 4 * |blocks| <= |was| == |now|
    requires Off(blocks, index) + |blocks[index]| <= |now| && Packed(was, blocks, index)
    requires Get32(now, 4 + 4 * index) == Off(blocks, index) && At(now, Off(blocks, index), blocks[index])
    requires now[..4 + 4 * index] == was[..4 + 4 * index]
    requires now[8 + 4 * index..Off(blocks, index)] == was[8 + 4 * index..Off(blocks, index)]
    ensures Packed(now, blocks, index + 1) && Get32(now, 0) == Get32(was, 0)
  {
    PackNext(was, now, blocks, index);
    assert forall i :: 0 <= i < 4 ==> now[i] == now[..4 + 4 * index][i] == was[i];
  }

  /** The sizing pass of GetData: 32 bits of the end of the first table and of the last block. */
  method CidaSize(folder: seq<Byte>, pidls: seq<seq<Byte>>, ghost blocks: seq<seq<Byte>>)
    returns (sizeHeader: DWord, size: DWord)
    requires Lists(folder, pidls) && AreBlocks(blocks, folder, pidls)
    ensures sizeHeader == ToUInt(Off(blocks, 0)) && size == ToUInt(Off(blocks, |blocks|))
  {
    hide ToUInt, ValidAt;
    sizeHeader := ToUInt(8 + 4 * |pidls|);
    ToUIntAdd(8 + 4 * |pidls|, SizeAt(folder, 0));
    OffStep(blocks, 0);
    size := ToUInt(sizeHeader + SizeAt(folder, 0));
    for i := 0 to |pidls|
      invariant size == ToUInt(Off(blocks, i + 1))
    {
      OffStep(blocks, i + 1);
      ToUIntAdd(Off(blocks, i + 1), SizeAt(pidls[i], 0));
      size := ToUInt(size + SizeAt(pidls[i], 0));
    }
  }

  // ILGetSize counts in 32 bits.
  predicate SizesFit(folder: seq<Byte>, pidls: seq<seq<Byte>>)
    requires Lists(folder, pidls)
  {
    SizeAt(folder, 0) < 0x1_0000_0000 && forall i :: 0 <= i < |pidls| ==> SizeAt(pidls[i], 0) < 0x1_0000_0000
  }

  /**
   CCfShellIdListHandler::GetData: one pass computes the size in 32 bits, a second one fills the
   buffer of that size. It stays inside the buffer exactly when the sum of all sizes fits 32 bits,
   and then the buffer is the packed selection; `None` stands for the first write behind the end.
   */
  method GetData(folder: seq<Byte>, pidls: seq<seq<Byte>>) returns (r: Option<array<Byte>>)
    requires Lists(folder, pidls) && SizesFit(folder, pidls)
    ensures r.Some? <==> Off(Blocks(folder, pidls), |pidls| + 1) < 0x1_0000_0000
    ensures r.Some? ==> fresh(r.value) && IsCida(r.value[..], Blocks(folder, pidls))
  {
    hide ValidAt, Packed, BlockAt, Get32, ToUInt, Off, SizeAt, Blocks, ListBytes, IsCida;
    ghost var blocks := Blocks(folder, pidls);
    ghost var total := Off(blocks, |blocks|);
    assert Off(blocks, 0) == 8 + 4 * |pidls| <= total by { OffStart(blocks); }
    ToUIntFits(total);
    var offset, size := CidaSize(folder, pidls, blocks);
    if size < 4 { return None; }
    var cida := new Byte[size];
    Store32(cida, 0, ToUInt(|pidls|));
    ToUIntFits(|pidls|);
    NothingPacked(cida[..], blocks);
    ToUIntFits(8 + 4 * |pidls|);
    OffStep(blocks, 0);
    var added := AddBlock(cida, folder, 0, offset, blocks);
    if added.None? { return None; }
    ToUIntFits(offset + added.value);
    offset := ToUInt(offset + added.value);
    for i := 0 to |pidls|
      invariant 8 + 4 * i <= size
      invariant 8 + 4 * |pidls| <= size ==> offset == Off(blocks, i + 1) <= size
      invariant total < 0x1_0000_0000 ==> Get32(cida[..], 0) == |pidls| && Packed(cida[..], blocks, i + 1)
    {
      OffStep(blocks, i + 1);
      added := AddBlock(cida, pidls[i], i + 1, offset, blocks);
      if added.None? { return None; }
      ToUIntFits(offset + added.value);
      offset := ToUInt(offset + added.value);
    }
    Finished(cida[..], blocks);
    return Some(cida);
  }

  lemma Finished(b: seq<Byte>, blocks: seq<seq<Byte>>)
    requires |blocks| >= 1 && |b| == Off(blocks, |blocks|)
    requires Get32(b, 0) == |blocks| - 1 && Packed(b, blocks, |blocks|)
    ensures IsCida(b, blocks)
  {
  }

  lemma OffStart(blocks: seq<seq<Byte>>)
    ensures Off(blocks, 0) == 4 + 4 * |blocks| <= Off(blocks, |blocks|)
  {
    OffMonotone(blocks, 0, |blocks|);
  }

  lemma NothingPacked(b: seq<Byte>, blocks: seq<seq<Byte>>)
    ensures |b| >= 4 + 4 * |blocks| ==> Packed(b, blocks, 0)
  {
  }

  // --- the reader -------------------------------------------------------------------------

  /** CfShellIdList::size */
  function Count(b: seq<Byte>): DWord
    requires |b| >= 4
  {
    Get32(b, 0)
  }

  /** CfShellIdList::GetItem: the position of child `index`. */
  function GetItem(b: seq<Byte>, index: nat): nat
    requires 12 + 4 * index <= |b|
  {
    Get32(b, 4 + 4 * (index + 1))
  }

  /** What is found at child `i`, if its table entry lies in the buffer at all. */
  function Child(b: seq<Byte>, i: nat): Probe {
    if 12 + 4 * i > |b| then Outside else Inspect(b, GetItem(b, i))
  }

  /** Bytes behind the block cannot change what a child was found to be without them. */
  lemma ChildLocal(b: seq<Byte>, more: seq<Byte>, i: nat)
    requires Child(b, i) != Outside
    ensures Child(b + more, i) == Child(b, i)
  {
    hide Inspect;
    InspectLocal(b, more, GetItem(b, i));
    var all, k := b + more, 8 + 4 * i;
    assert all[k] == b[k] && all[k + 1] == b[k + 1] && all[k + 2] == b[k + 2] && all[k + 3] == b[k + 3];
  }

  /** The children before `k` are all items. */
  predicate ReadUpTo(b: seq<Byte>, k: nat) { forall j :: 0 <= j < k ==> Child(b, j).Read? }

  datatype Retrieved = Retrieved(items: seq<Item>) | InvalidChild | OutOfBuffer

  /**
   RetrieveItems on any bytes: the items of all children, or what the first child that is not an
   item leads to, the exception of a refused one or a read behind the end of the buffer.
   */
  method RetrieveItems(b: seq<Byte>) returns (r: Retrieved)
    ensures |b| < 4 ==> r == OutOfBuffer
    ensures |b| >= 4 ==>
              && (r.Retrieved? <==> ReadUpTo(b, Count(b)))
              && (r.Retrieved? ==>
                    |r.items| == Count(b) && forall i :: 0 <= i < Count(b) ==> Child(b, i) == Read(r.items[i]))
              && (r.InvalidChild? <==> exists k :: 0 <= k < Count(b) && ReadUpTo(b, k) && Child(b, k) == Refused)
  {
    hide Child, Get32;
    if |b| < 4 { return OutOfBuffer; }
    var items := [];
    for i := 0 to Count(b)
      invariant |items| == i
      invariant forall j :: 0 <= j < i ==> Child(b, j) == Read(items[j])
    {
      var child := Child(b, i);
      if child == Refused { return InvalidChild; }
      if child == Outside { return OutOfBuffer; }
      items := items + [child.item];
    }
    return Retrieved(items);
  }

  /** The count and the folder come out of the packed selection as they went in, */
  lemma FolderDecodes(folder: seq<Byte>, pidls: seq<seq<Byte>>, b: seq<Byte>)
    requires Lists(folder, pidls) && IsCida(b, Blocks(folder, pidls))
    ensures Count(b) == |pidls| && 8 + 4 * Count(b) <= |b|
    ensures ValidAt(b, Get32(b, 4)) && ItemsAt(b, Get32(b, 4)) == ItemsAt(folder, 0)
  {
    hide ValidAt, ItemsAt, SizeAt, Get32;
    assert BlockAt(b, Blocks(folder, pidls), 0);
    CopyDecodes(folder, 0, b, Get32(b, 4));
  }

  /** and so does every child list, with all its items. */
  lemma ChildDecodes(folder: seq<Byte>, pidls: seq<seq<Byte>>, b: seq<Byte>, i: nat)
    requires Lists(folder, pidls) && IsCida(b, Blocks(folder, pidls)) && i < |pidls|
    ensures ValidAt(b, GetItem(b, i)) && ItemsAt(b, GetItem(b, i)) == ItemsAt(pidls[i], 0)
  {
    hide ValidAt, ItemsAt, SizeAt, Off, Get32;
    assert BlockAt(b, Blocks(folder, pidls), i + 1);
    CopyDecodes(pidls[i], 0, b, GetItem(b, i));
  }

  /** Lists made by CreateItemIdList are all accepted after the trip, and read as they were made. */
  lemma SelectionRoundTrip(items: seq<Item>, folder: seq<Byte>, pidls: seq<seq<Byte>>, b: seq<Byte>)
    requires AllHold(pidls, items)
    requires Lists(folder, pidls) && IsCida(b, Blocks(folder, pidls))
    ensures |b| >= 4 && Count(b) == |items|
    ensures forall i :: 0 <= i < |items| ==> Child(b, i) == Read(items[i])
  {
    FolderDecodes(folder, pidls, b);
    hide Construct, Inspect, Get32;
    forall i | 0 <= i < |items|
      ensures ValidAt(b, GetItem(b, i)) && Cb(b, GetItem(b, i)) != 0 && Child(b, i) == Read(items[i])
    {
      ChildDecodes(folder, pidls, b, i);
      HoldsItemDecodes(pidls[i], items[i]);
      ConstructDecodes(b, GetItem(b, i));
      InspectValid(b, GetItem(b, i));
    }
  }

  predicate AllHold(pidls: seq<seq<Byte>>, items: seq<Item>) {
    |pidls| == |items| && forall i :: 0 <= i < |items| ==> HoldsItem(pidls[i], items[i])
  }

  function AppendHolding(pidls: seq<seq<Byte>>, items: seq<Item>, pidl: seq<Byte>, item: Item): (r: seq<seq<Byte>>)
    requires AllHold(pidls, items) && HoldsItem(pidl, item)
    ensures AllHold(r, items + [item])
  {
    pidls + [pidl]
  }

  lemma NoneHold()
    ensures AllHold([], [])
  {
  }

  method CreateAll(mem: TaskMemory, items: seq<Item>) returns (r: Option<seq<seq<Byte>>>)
    requires forall i :: 0 <= i < |items| ==> 0 !in items[i].name
    modifies mem
    ensures r.Some? <==> forall i :: 0 <= i < |items| ==> |items[i].name| < MAX_PATH
    ensures r.Some? ==> AllHold(r.value, items)
  {
    hide HoldsItem, AllHold, CStr;
    var pidls: seq<seq<Byte>> := [];
    NoneHold();
    for i := 0 to |items|
      invariant |pidls| == i
      invariant forall j :: 0 <= j < i ==> |items[j].name| < MAX_PATH
      invariant AllHold(pidls, items[..i])
    {
      var item := items[i];
      CStrOfClean(item.name);
      var pidl := CreateItemIdList(mem, item.id, item.size, item.folder, item.name);
      if pidl.None? { return None; }
      pidls := AppendHolding(pidls, items[..i], pidl.value[..], item);
      assert items[..i + 1] == items[..i] + [item];
    }
    assert items[..|items|] == items;
    return Some(pidls);
  }

  datatype Transfer = Transferred(items: seq<Item>) | NameTooLong | TooLarge

  /**
   The whole trip of a selection: create the lists, pack them, retrieve the items again. It
   returns the very items, in order, unless a name does not fit its field or the size of the
   whole does not fit 32 bits.
   */
  method TransferSelection(mem: TaskMemory, folder: seq<Byte>, items: seq<Item>) returns (r: Transfer)
    requires ValidAt(folder, 0) && SizeAt(folder, 0) < 0x1_0000_0000
    requires forall i :: 0 <= i < |items| ==> 0 !in items[i].name
    modifies mem
    ensures r.NameTooLong? <==> exists i :: 0 <= i < |items| && |items[i].name| >= MAX_PATH
    ensures r.Transferred? ==> r.items == items
    ensures !r.NameTooLong? ==>
              (r.Transferred? <==> 8 + SizeAt(folder, 0) + |items| * (RECORD_SIZE + 8) < 0x1_0000_0000)
  {
    hide IsCida, Child, HoldsItem, ValidAt;
    var created := CreateAll(mem, items);
    if created.None? { return NameTooLong; }
    SelectionSize(folder, created.value, items);
    var cida := GetData(folder, created.value);
    if cida.None? { return TooLarge; }
    SelectionRoundTrip(items, folder, created.value, cida.value[..]);
    hide ReadUpTo, Count, AllHold, Lists, SizesFit, Blocks, Off, SizeAt;
    var back := RetrieveItems(cida.value[..]);
    RetrievedAll(cida.value[..], items, back);
    return Transferred(back.items);
  }

  // When every child is the item it should be, these are what is retrieved.
  lemma RetrievedAll(b: seq<Byte>, items: seq<Item>, r: Retrieved)
    requires |b| >= 4 && Count(b) == |items| && forall i :: 0 <= i < |items| ==> Child(b, i) == Read(items[i])
    requires r.Retrieved? <==> ReadUpTo(b, Count(b))
    requires r.Retrieved? ==> |r.items| == Count(b) && forall i :: 0 <= i < Count(b) ==> Child(b, i) == Read(r.items[i])
    ensures r == Retrieved(items)
  {
    hide Child, Count;
    assert ReadUpTo(b, Count(b));
    assert forall i :: 0 <= i < |items| ==> Read(r.items[i]) == Read(items[i]);
  }

  lemma {:induction false} UniformOff(blocks: seq<seq<Byte>>, m: nat, k: nat)
    requires k < |blocks| && forall j :: 1 <= j < |blocks| ==> |blocks[j]| == m
    ensures Off(blocks, k + 1) == 4 + 4 * |blocks| + |blocks[0]| + k * m
  {
    if k == 0 {
      assert Off(blocks, 0) == 4 + 4 * |blocks|;
    } else {
      UniformOff(blocks, m, k - 1);
    }
  }

  lemma SelectionSize(folder: seq<Byte>, pidls: seq<seq<Byte>>, items: seq<Item>)
    requires ValidAt(folder, 0) && AllHold(pidls, items)
    ensures Lists(folder, pidls) && (SizeAt(folder, 0) < 0x1_0000_0000 ==> SizesFit(folder, pidls))
    ensures Off(Blocks(folder, pidls), |pidls| + 1) == 8 + SizeAt(folder, 0) + |items| * (RECORD_SIZE + 8)
  {
    forall i | 0 <= i < |pidls| ensures ValidAt(pidls[i], 0) && SizeAt(pidls[i], 0) == RECORD_SIZE + 4 {
      HoldsItemDecodes(pidls[i], items[i]);
    }
    var blocks := Blocks(folder, pidls);
    forall j | 1 <= j < |blocks| ensures |blocks[j]| == RECORD_SIZE + 4 {
      assert blocks[j - 1 + 1] == ListBytes(pidls[j - 1]);
    }
    UniformOff(blocks, RECORD_SIZE + 4, |pidls|);
  }
}
