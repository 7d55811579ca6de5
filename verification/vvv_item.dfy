/** The packed record inside a .vvv item-ID list: its writer, its validation and its getters. */
module VvvItem {
  import opened Words
  import opened Pidl

  const TYPE_ID: Word := 0x5601
  const MAX_PATH: nat := 260

  // Byte offsets of the packed fields: type id, folder flag, id, size, name[MAX_PATH].
  const FOLDER_AT: nat := 2
  const ID_AT: nat := 3
  const SIZE_AT: nat := 7
  const NAME_AT: nat := 11
  const RECORD_SIZE: nat := NAME_AT + 2 * MAX_PATH

  datatype Item = Item(id: DWord, size: DWord, folder: bool, name: WString)

  /** What the getters GetID, GetSize, IsFolder and GetName read from the record at `p`. */
  function RecordAt(b: seq<Byte>, p: nat): (item: Item)
    requires p + RECORD_SIZE <= |b|
    ensures 0 !in item.name && |item.name| <= MAX_PATH
  {
    Item(Get32(b, p + ID_AT), Get32(b, p + SIZE_AT), b[p + FOLDER_AT] != 0, CStrAt(b, p + NAME_AT, MAX_PATH))
  }

  // ItemBase::GetDataSize: the subtraction is cut to 16 bits.
  function GetDataSize(b: seq<Byte>, p: nat): Word
    requires p + 2 <= |b|
  {
    ToUShort(Cb(b, p) - 2)
  }

  /** The item stored in the data part of one item ID, if it passes the constructor's checks. */
  function Decode(data: seq<Byte>): (r: Option<Item>)
  {
    if |data| >= RECORD_SIZE && Get16(data, 0) == TYPE_ID then Some(RecordAt(data, 0)) else None
  }

  lemma RecordInWindow(b: seq<Byte>, lo: nat, hi: nat)
    requires lo + RECORD_SIZE <= hi <= |b|
    ensures RecordAt(b[lo..hi], 0) == RecordAt(b, lo)
  {
    ReadWindow(b, lo, hi, ID_AT);
    ReadWindow(b, lo, hi, SIZE_AT);
    ReadStringWindow(b, lo, hi, NAME_AT, MAX_PATH);
  }

  // The checks and reads of the constructor depend on the data part of the item alone.
  lemma DecodeInWindow(b: seq<Byte>, lo: nat, hi: nat)
    requires lo <= hi <= |b|
    ensures Decode(b[lo..hi]) == if hi - lo >= RECORD_SIZE && Get16(b, lo) == TYPE_ID
                                 then Some(RecordAt(b, lo)) else None
  {
    ReadWindow(b, lo, hi, 0);
    if hi - lo >= RECORD_SIZE { RecordInWindow(b, lo, hi); }
  }

  /** The VVVItem constructor on the item ID at `p`; `None` is the exception it raises. */
  function Construct(b: seq<Byte>, p: nat): Option<Item>
    requires ValidAt(b, p) && Cb(b, p) != 0
  {
    if GetDataSize(b, p) >= RECORD_SIZE && Get16(b, p + 2) == TYPE_ID then Some(RecordAt(b, p + 2)) else None
  }

  lemma ConstructDecodes(b: seq<Byte>, p: nat)
    requires ValidAt(b, p) && Cb(b, p) != 0
    ensures Construct(b, p) == Decode(ItemsAt(b, p)[0])
  {
    var lo, hi := p + 2, p + Cb(b, p);
    assert ItemsAt(b, p)[0] == b[lo..hi];
    DataSizeExact(b, p);
    DecodeInWindow(b, lo, hi);
  }

  // No 16-bit borrow once `cb` counts itself.
  lemma DataSizeExact(b: seq<Byte>, p: nat)
    requires p + 2 <= |b| && Cb(b, p) >= 2
    ensures GetDataSize(b, p) == Cb(b, p) - 2
  {
  }

  /** Exactly items of at least 533 bytes in all with the right type id are accepted; this is their layout. */
  lemma ConstructExactly(b: seq<Byte>, p: nat)
    requires ValidAt(b, p) && Cb(b, p) != 0
    ensures Construct(b, p).Some? <==> Cb(b, p) >= 533 && Get16(b, p + 2) == 0x5601
    ensures Construct(b, p).Some? ==>
              Construct(b, p).value == Item(Get32(b, p + 5), Get32(b, p + 9), b[p + 4] != 0, CStrAt(b, p + 13, 260))
  {
    DataSizeExact(b, p);
  }

  /** What comes of looking at the bytes at `p` as an item, whatever they are. */
  datatype Probe = Read(item: Item) | Refused | Outside

  /**
   The constructor without any promise about the list: `Outside` when it, or a getter on what it
   accepts, needs bytes that are not in the buffer. A terminator looks like 65534 bytes of data.
   */
  function Inspect(b: seq<Byte>, p: nat): (r: Probe)
    ensures r.Read? ==> p + 2 + RECORD_SIZE <= |b|
  {
    if p + 2 > |b| then Outside
    else if GetDataSize(b, p) < RECORD_SIZE then Refused
    else if p + 4 > |b| then Outside
    else if Get16(b, p + 2) != TYPE_ID then Refused
    else if p + 2 + RECORD_SIZE > |b| then Outside
    else Read(RecordAt(b, p + 2))
  }

  /** An item of a complete list is read or refused, never anything outside. */
  lemma InspectValid(b: seq<Byte>, p: nat)
    requires ValidAt(b, p) && Cb(b, p) != 0
    ensures Inspect(b, p) == match Construct(b, p) case None => Refused case Some(item) => Read(item)
  {
    DataSizeExact(b, p);
  }

  /** Bytes behind the buffer cannot change what was decided without them. */
  lemma InspectLocal(b: seq<Byte>, more: seq<Byte>, p: nat)
    requires Inspect(b, p) != Outside
    ensures Inspect(b + more, p) == Inspect(b, p)
  {
    var lo := p + 2;
    if Inspect(b, p).Read? {
      assert b[lo..|b|] == (b + more)[lo..|b|];
      RecordInWindow(b, lo, |b|);
      RecordInWindow(b + more, lo, |b|);
    }
  }

  lemma InspectDecodes(b: seq<Byte>, p: nat)
    requires ValidAt(b, p) && Cb(b, p) != 0
    ensures Inspect(b, p) == match Decode(ItemsAt(b, p)[0]) case None => Refused case Some(item) => Read(item)
  {
    InspectValid(b, p);
    ConstructDecodes(b, p);
  }

  /** GetName: the code units up to the first NUL, wherever that is; `None` if the buffer ends before. */
  function NameRead(b: seq<Byte>, i: nat): Option<WString>
    decreases |b| - i
  {
    if i + 2 > |b| then None
    else if Get16(b, i) == 0 then Some([])
    else match NameRead(b, i + 2) case None => None case Some(s) => Some([Get16(b, i)] + s)
  }

  /** What is read is the name in its field exactly when a NUL ends it there or right behind. */
  lemma NameReadExactly(b: seq<Byte>, p: nat)
    requires p + RECORD_SIZE <= |b|
    ensures NameRead(b, p + NAME_AT) == Some(RecordAt(b, p).name) <==>
            || |RecordAt(b, p).name| < MAX_PATH
            || (p + RECORD_SIZE + 2 <= |b| && Get16(b, p + RECORD_SIZE) == 0)
  {
    NameReadFrom(b, p + NAME_AT, MAX_PATH);
  }

  lemma {:induction false} NameReadFrom(b: seq<Byte>, i: nat, max: nat)
    requires i + 2 * max <= |b|
    ensures NameRead(b, i) == Some(CStrAt(b, i, max)) <==>
            |CStrAt(b, i, max)| < max || (i + 2 * max + 2 <= |b| && Get16(b, i + 2 * max) == 0)
    decreases max
  {
    hide Get16;
    if max > 0 && Get16(b, i) != 0 {
      NameReadFrom(b, i + 2, max - 1);
      var x, t := Get16(b, i), CStrAt(b, i + 2, max - 1);
      if NameRead(b, i + 2).Some? {
        var s := NameRead(b, i + 2).value;
        assert ([x] + s)[1..] == s && ([x] + t)[1..] == t;
      }
    }
  }

  /** A one-item list whose record holds exactly `item`; bytes behind the name are arbitrary. */
  predicate HoldsItem(b: seq<Byte>, item: Item) {
    IsSingle(b, RECORD_SIZE) && Get16(b, 2) == TYPE_ID && RecordAt(b, 2) == item
  }

  lemma HoldsItemDecodes(b: seq<Byte>, item: Item)
    requires HoldsItem(b, item)
    ensures ValidAt(b, 0) && Cb(b, 0) != 0 && SizeAt(b, 0) == |b|
    ensures |ItemsAt(b, 0)| == 1 && Decode(ItemsAt(b, 0)[0]) == Some(item)
    ensures Construct(b, 0) == Some(item)
  {
    SingleDecodes(b, RECORD_SIZE);
    ConstructDecodes(b, 0);
    DecodeInWindow(b, 2, RECORD_SIZE + 2);
  }

  method Store16(a: array<Byte>, p: nat, w: Word)
    requires p + 2 <= a.Length
    modifies a
    ensures Get16(a[..], p) == w
    ensures forall i :: 0 <= i < a.Length && !(p <= i < p + 2) ==> a[i] == old(a[i])
  {
    a[p], a[p + 1] := w % 0x100, w / 0x100;
  }

  method Store32(a: array<Byte>, p: nat, d: DWord)
    requires p + 4 <= a.Length
    modifies a
    ensures Get32(a[..], p) == d
    ensures forall i :: 0 <= i < a.Length && !(p <= i < p + 4) ==> a[i] == old(a[i])
  {
    var lo, hi: Word := d % 0x1_0000, d / 0x1_0000;
    a[p], a[p + 1], a[p + 2], a[p + 3] := lo % 0x100, lo / 0x100, hi % 0x100, hi / 0x100;
  }

  /** wcscpy_s into a field of `count` code units; on overflow the field becomes empty. */
  method CopyString(a: array<Byte>, p: nat, count: nat, s: WString) returns (ok: bool)
    requires count > 0 && p + 2 * count <= a.Length
    modifies a
    ensures ok <==> |CStr(s)| < count
    ensures ok ==> CStrAt(a[..], p, count) == CStr(s)
    ensures forall i :: 0 <= i < a.Length && !(p <= i < p + 2 * count) ==> a[i] == old(a[i])
  {
    var c := CStr(s);
    if |c| >= count {
      Store16(a, p, 0);
      return false;
    }
    var k := 0;
    while k < |c|
      invariant 0 <= k <= |c|
      invariant forall j :: 0 <= j < k ==> a[p + 2 * j] == c[j] % 0x100 && a[p + 2 * j + 1] == c[j] / 0x100
      invariant forall i :: 0 <= i < p || p + 2 * count <= i < a.Length ==> a[i] == old(a[i])
    {
      a[p + 2 * k], a[p + 2 * k + 1] := c[k] % 0x100, c[k] / 0x100;
      k := k + 1;
    }
    a[p + 2 * k], a[p + 2 * k + 1] := 0, 0;
    ReadString(a[..], p, count, c);
    return true;
  }

  /** Fills the record at `p` in place; `ok` is false when the name does not fit its field. */
  method InitializeItemData(a: array<Byte>, p: nat, id: DWord, size: DWord, folder: bool, name: WString)
    returns (ok: bool)
    requires p + RECORD_SIZE <= a.Length
    modifies a
    ensures ok <==> |CStr(name)| < MAX_PATH
    ensures ok ==> Get16(a[..], p) == TYPE_ID && RecordAt(a[..], p) == Item(id, size, folder, CStr(name))
    // The packed layout, byte by byte.
    ensures ok ==> Get16(a[..], p) == 0x5601 && a[p + 2] == (if folder then 1 else 0)
    ensures ok ==> Get32(a[..], p + 3) == id && Get32(a[..], p + 7) == size && CStrAt(a[..], p + 11, 260) == CStr(name)
    ensures forall i :: 0 <= i < a.Length && !(p <= i < p + RECORD_SIZE) ==> a[i] == old(a[i])
  {
    Store16(a, p, TYPE_ID);
    Store32(a, p + ID_AT, id);
    a[p + FOLDER_AT] := if folder then 1 else 0;
    Store32(a, p + SIZE_AT, size);
    ghost var fixed := a[..];
    assert Get16(fixed, p) == TYPE_ID && Get32(fixed, p + ID_AT) == id;
    hide Get16, Get32, CStr, CStrAt;
    ok := CopyString(a, p + NAME_AT, MAX_PATH, name);
    FixedKept(fixed, a[..], p);
  }

  lemma FixedKept(b: seq<Byte>, c: seq<Byte>, p: nat)
    requires p + NAME_AT <= |b| == |c| && forall i :: p <= i < p + NAME_AT ==> b[i] == c[i]
    ensures Get16(c, p) == Get16(b, p) && c[p + FOLDER_AT] == b[p + FOLDER_AT]
    ensures Get32(c, p + ID_AT) == Get32(b, p + ID_AT) && Get32(c, p + SIZE_AT) == Get32(b, p + SIZE_AT)
  {
  }

  /** VVVItem::CreateItemIdList; `None` is the abort of a name that does not fit. */
  method CreateItemIdList(mem: TaskMemory, id: DWord, size: DWord, folder: bool, name: WString)
    returns (r: Option<array<Byte>>)
    modifies mem
    ensures r.Some? <==> |CStr(name)| < MAX_PATH
    ensures r.Some? ==> fresh(r.value) && mem.live == old(mem.live) + {r.value} && r.value !in old(mem.live)
    ensures r.Some? ==> HoldsItem(r.value[..], Item(id, size, folder, CStr(name)))
  {
    var pidl := CreateItemIdListWithTerminator(mem, RECORD_SIZE);
    var a := pidl.value;
    var ok := InitializeItemData(a, 2, id, size, folder, name);
    return if ok then pidl else None;
  }
}
