/**
 The .vvv store: numbered slots kept as sections of an INI file. The INI file is a map from
 section to keys that stores text verbatim.
 */
module VvvStore {
  import opened Words
  import opened Pidl
  import opened VvvItem
  import opened Naming
  import opened Slots

  datatype Key = Name | Size | Active | Folder | FileCount

  type Ini = map<WString, map<Key, WString>>

  // A 255-character buffer leaves room for 254 characters.
  const NAME_LIMIT: nat := 254

  function GetInt(ini: Ini, section: WString, key: Key): DWord {
    if section in ini && key in ini[section] then ParseUInt(ini[section][key]) else NO_VALUE
  }

  function GetString(ini: Ini, section: WString, key: Key): (s: WString)
    ensures |s| <= NAME_LIMIT && 0 !in s
  {
    if section in ini && key in ini[section] then FirstPart(CStr(ini[section][key])) else []
  }

  /** What fits the read buffer: the whole text, or its first 254 characters. */
  function FirstPart(s: WString): (t: WString)
    ensures |t| == (if |s| < 254 then |s| else 254) && t == s[..|t|]
  {
    if |s| <= NAME_LIMIT then s else s[..NAME_LIMIT]
  }

  function Put(ini: Ini, section: WString, key: Key, text: WString): Ini {
    ini[section := (if section in ini then ini[section] else map[])[key := text]]
  }

  function PutInt(ini: Ini, section: WString, key: Key, n: DWord): Ini {
    Put(ini, section, key, Decimal(n))
  }

  lemma PutThenGet(ini: Ini, section: WString, key: Key, n: DWord)
    ensures GetInt(PutInt(ini, section, key, n), section, key) == n
  {
    ParseOfDecimal(n);
  }

  /** The readings of one slot. */
  function SlotAt(ini: Ini, f: WString, n: DWord): (s: Slot)
    ensures |s.name| <= NAME_LIMIT && 0 !in s.name
  {
    var section := ItemSection(f, n);
    Slot(GetInt(ini, section, Active), GetInt(ini, section, Folder), GetInt(ini, section, Size),
         GetString(ini, section, Name))
  }

  function SlotsOf(ini: Ini, f: WString): Slots { (n: DWord) => SlotAt(ini, f, n) }

  function CountIn(ini: Ini, f: WString): DWord { GetInt(ini, DirectorySection(f), FileCount) }

  // --- the writes --------------------------------------------------------------------------

  function WithItem(ini: Ini, f: WString, item: Item): Ini {
    PutInt(Put(ini, ItemSection(f, item.id), Name, item.name), ItemSection(f, item.id), Size, item.size)
  }

  function WithActive(ini: Ini, f: WString, id: DWord, active: DWord): Ini {
    PutInt(ini, ItemSection(f, id), Active, active)
  }

  function WithCount(ini: Ini, f: WString, count: DWord): Ini {
    PutInt(ini, DirectorySection(f), FileCount, count)
  }

  /** An operation ends normally or with an exception; either way it leaves a store behind. */
  datatype Outcome = Done(ini: Ini) | Raised(ini: Ini)

  // The count read is always the root's, the count written is that of the folder.
  function CountChanged(ini: Ini, f: WString, delta: int): Outcome {
    if CountIn(ini, []) == NO_VALUE then Raised(ini)
    else Done(WithCount(ini, f, ToUInt(CountIn(ini, []) + delta)))
  }

  function AfterAdd(ini: Ini, f: WString, item: Item): Outcome {
    CountChanged(WithActive(WithItem(ini, f, item), f, item.id, 1), f, 1)
  }

  function Deactivated(ini: Ini, f: WString, ids: seq<DWord>): Ini {
    if ids == [] then ini
    else WithActive(Deactivated(ini, f, ids[..|ids| - 1]), f, ids[|ids| - 1], 0)
  }

  function AfterDelete(ini: Ini, f: WString, ids: seq<DWord>): Outcome {
    CountChanged(Deactivated(ini, f, ids), f, -|ids|)
  }

  // --- what a write does to the slots ------------------------------------------------------

  lemma ItemWritten(ini: Ini, f: WString, item: Item, n: DWord)
    ensures SlotAt(WithItem(ini, f, item), f, n) ==
            if n == item.id then SlotAt(ini, f, n).(size := item.size, name := FirstPart(CStr(item.name)))
            else SlotAt(ini, f, n)
    ensures forall g :: CountIn(WithItem(ini, f, item), g) == CountIn(ini, g)
  {
    hide ItemSection, DirectorySection, Decimal, ParseUInt, CStr;
    SlotSectionsDistinct(f, item.id, n);
    PutThenGet(Put(ini, ItemSection(f, item.id), Name, item.name), ItemSection(f, item.id), Size, item.size);
  }

  lemma ActiveWritten(ini: Ini, f: WString, id: DWord, active: DWord, n: DWord)
    ensures SlotAt(WithActive(ini, f, id, active), f, n) ==
            if n == id then SlotAt(ini, f, n).(active := active) else SlotAt(ini, f, n)
    ensures forall g :: CountIn(WithActive(ini, f, id, active), g) == CountIn(ini, g)
  {
    hide ItemSection, DirectorySection, Decimal, ParseUInt, CStr;
    SlotSectionsDistinct(f, id, n);
    PutThenGet(ini, ItemSection(f, id), Active, active);
  }

  lemma CountWritten(ini: Ini, f: WString, count: DWord, g: WString, n: DWord)
    ensures SlotAt(WithCount(ini, f, count), g, n) == SlotAt(ini, g, n)
    ensures CountIn(WithCount(ini, f, count), f) == count
  {
    PutThenGet(ini, DirectorySection(f), FileCount, count);
  }

  lemma {:induction false} DeactivatedSlot(ini: Ini, f: WString, ids: seq<DWord>, n: DWord)
    ensures SlotAt(Deactivated(ini, f, ids), f, n) ==
            if n in ids then SlotAt(ini, f, n).(active := 0) else SlotAt(ini, f, n)
    ensures forall g :: CountIn(Deactivated(ini, f, ids), g) == CountIn(ini, g)
    decreases |ids|
  {
    hide SlotAt, CountIn, WithActive;
    if ids != [] {
      var init, last := ids[..|ids| - 1], ids[|ids| - 1];
      DeactivatedSlot(ini, f, init, n);
      ActiveWritten(Deactivated(ini, f, init), f, last, 0, n);
      assert ids == init + [last];
    }
  }

  /** The complete effect of adding an entry on the folder's slots. */
  lemma AddedSlot(ini: Ini, f: WString, item: Item, n: DWord)
    ensures SlotAt(AfterAdd(ini, f, item).ini, f, n) ==
            if n == item.id
            then Slot(1, SlotAt(ini, f, n).folder, item.size, FirstPart(CStr(item.name)))
            else SlotAt(ini, f, n)
    ensures AfterAdd(ini, f, item).Raised? <==> CountIn(ini, []) == NO_VALUE
    ensures AfterAdd(ini, f, item).Done? ==> CountIn(AfterAdd(ini, f, item).ini, f) == ToUInt(CountIn(ini, []) + 1)
  {
    hide SlotAt, CountIn, WithCount, WithItem, WithActive;
    var i1 := WithItem(ini, f, item);
    var i2 := WithActive(i1, f, item.id, 1);
    ItemWritten(ini, f, item, n);
    ActiveWritten(i1, f, item.id, 1, n);
    CountWritten(i2, f, ToUInt(CountIn(i2, []) + 1), f, n);
  }

  /** The complete effect of deleting entries on the folder's slots. */
  lemma DeletedSlot(ini: Ini, f: WString, ids: seq<DWord>, n: DWord)
    ensures SlotAt(AfterDelete(ini, f, ids).ini, f, n) ==
            if n in ids then SlotAt(ini, f, n).(active := 0) else SlotAt(ini, f, n)
    ensures AfterDelete(ini, f, ids).Raised? <==> CountIn(ini, []) == NO_VALUE
    ensures AfterDelete(ini, f, ids).Done? ==>
              CountIn(AfterDelete(ini, f, ids).ini, f) == ToUInt(CountIn(ini, []) - |ids|)
  {
    hide SlotAt, CountIn, WithCount, Deactivated, ToUInt;
    var i1 := Deactivated(ini, f, ids);
    DeactivatedSlot(ini, f, ids, n);
    CountWritten(i1, f, ToUInt(CountIn(i1, []) - |ids|), f, n);
  }

  /** The same, for all slots at once. */
  lemma SetIsSet(ini: Ini, f: WString, item: Item)
    ensures IsSet(SlotsOf(ini, f), SlotsOf(WithItem(ini, f, item), f), item.id, item.size, FirstPart(CStr(item.name)))
  {
    hide SlotAt;
    forall n: DWord { ItemWritten(ini, f, item, n); }
  }

  lemma AddIsAdd(ini: Ini, f: WString, item: Item)
    ensures IsAdd(SlotsOf(ini, f), SlotsOf(AfterAdd(ini, f, item).ini, f),
                  item.id, item.size, FirstPart(CStr(item.name)))
  {
    hide SlotAt;
    forall n: DWord { AddedSlot(ini, f, item, n); }
  }

  lemma DeleteIsDelete(ini: Ini, f: WString, ids: seq<DWord>)
    ensures IsDelete(SlotsOf(ini, f), SlotsOf(AfterDelete(ini, f, ids).ini, f), ids)
  {
    hide SlotAt;
    forall n: DWord { DeletedSlot(ini, f, ids, n); }
  }

  // --- finite stores -----------------------------------------------------------------------

  ghost function Sections(f: WString, from: DWord, k: nat): (s: set<WString>)
    requires from + k <= 0x1_0000_0000
  {
    set n: DWord | from <= n < from + k :: ItemSection(f, n)
  }

  lemma {:induction false} SectionsCount(f: WString, from: DWord, k: nat)
    requires from + k <= 0x1_0000_0000
    ensures |Sections(f, from, k)| == k
    decreases k
  {
    hide ItemSection;
    if k == 0 {
      assert Sections(f, from, 0) == {};
    } else {
      var last: DWord := from + k - 1;
      SectionsCount(f, from, k - 1);
      forall n: DWord | from <= n < last ensures ItemSection(f, n) != ItemSection(f, last) {
        SlotSectionsDistinct(f, n, last);
      }
      assert Sections(f, from, k) == Sections(f, from, k - 1) + {ItemSection(f, last)};
    }
  }

  /** In a store of k sections, any k + 1 consecutive slots include one without a section. */
  lemma SomeSlotMissing(ini: Ini, f: WString, from: DWord)
    requires from + |ini| < 0x1_0000_0000
    ensures exists n: DWord :: from <= n <= from + |ini| && !SlotAt(ini, f, n).Present()
  {
    var k := |ini| + 1;
    SectionsCount(f, from, k);
    assert |ini.Keys| == |ini|;
    if Sections(f, from, k) <= ini.Keys {
      CardinalityMonotone(Sections(f, from, k), ini.Keys);
      assert false;
    }
    var section :| section in Sections(f, from, k) && section !in ini.Keys;
    var n: DWord :| from <= n < from + k && section == ItemSection(f, n);
    assert !SlotAt(ini, f, n).Present();
  }

  lemma {:induction false} CardinalityMonotone<T>(a: set<T>, b: set<T>)
    requires a <= b
    ensures |a| <= |b|
    decreases a
  {
    if a != {} {
      var x :| x in a;
      CardinalityMonotone(a - {x}, b - {x});
    }
  }

  /** On a store with few enough sections the search for a free slot and every scan end. */
  lemma FiniteStoreEnds(ini: Ini, f: WString, it: DWord)
    requires it + |ini| < 0x1_0000_0000
    ensures FreeFrom(SlotsOf(ini, f), 0) && Ends(SlotsOf(ini, f), it)
  {
    SomeSlotMissing(ini, f, it);
    var n: DWord :| it <= n <= it + |ini| && !SlotAt(ini, f, n).Present();
    assert !SlotsOf(ini, f)(n).Present();
  }

  // --- the class ---------------------------------------------------------------------------

  class IniFile {
    var sections: Ini

    constructor (sections: Ini)
      ensures this.sections == sections
    {
      this.sections := sections;
    }
  }

  datatype Added = Added(pidl: array<Byte>) | NameTooLong | NoCount

  datatype Fetched = FetchedNone | FetchFailed | Fetched(pidl: array<Byte>)

  class VVVFile {
    const file: IniFile
    const folder: WString

    constructor (file: IniFile, folder: WString)
      ensures this.file == file && this.folder == folder
    {
      this.file := file;
      this.folder := folder;
    }

    method GetFileCount() returns (r: Option<DWord>)
      ensures r == if CountIn(file.sections, []) == NO_VALUE then None else Some(CountIn(file.sections, []))
    {
      var nCount := GetInt(file.sections, DirectoryLeaf(), FileCount);
      return if nCount == NO_VALUE then None else Some(nCount);
    }

    method SetFileCount(nNewFileCount: DWord)
      modifies file
      ensures file.sections == WithCount(old(file.sections), folder, nNewFileCount)
      ensures CountIn(file.sections, folder) == nNewFileCount
      ensures forall g, n: DWord :: SlotAt(file.sections, g, n) == SlotAt(old(file.sections), g, n)
    {
      hide SlotAt, CountIn;
      forall g, n: DWord { CountWritten(file.sections, folder, nNewFileCount, g, n); }
      CountWritten(file.sections, folder, nNewFileCount, folder, 0);
      file.sections := PutInt(file.sections, DirectorySection(folder), FileCount, nNewFileCount);
    }

    method SetItem(item: Item)
      modifies file
      ensures file.sections == WithItem(old(file.sections), folder, item)
      ensures IsSet(SlotsOf(old(file.sections), folder), SlotsOf(file.sections, folder),
                    item.id, item.size, FirstPart(CStr(item.name)))
      ensures forall g :: CountIn(file.sections, g) == CountIn(old(file.sections), g)
    {
      hide SlotAt, CountIn, IsSet, CStr, FirstPart;
      SetIsSet(file.sections, folder, item);
      ItemWritten(file.sections, folder, item, 0);
      var section := ItemSection(folder, item.id);
      file.sections := Put(file.sections, section, Name, item.name);
      file.sections := PutInt(file.sections, section, Size, item.size);
    }

    method FindFreeEntry() returns (id: DWord)
      requires FreeFrom(SlotsOf(file.sections, folder), 0)
      ensures id == FirstFree(SlotsOf(file.sections, folder), 0)
    {
      hide SlotAt;
      ghost var v := SlotsOf(file.sections, folder);
      id := 0;
      while SlotAt(file.sections, folder, id).IsActive()
        invariant FreeFrom(v, id) && FirstFree(v, id) == FirstFree(v, 0)
        decreases 0x1_0000_0000 - id
      {
        FreeAhead(v, id);
        id := id + 1;
      }
    }

    method AddEntry(item: Item) returns (ok: bool)
      modifies file
      ensures file.sections == AfterAdd(old(file.sections), folder, item).ini
      ensures ok <==> AfterAdd(old(file.sections), folder, item).Done?
    {
      hide SlotAt, SlotsOf, IsSet, CountIn, WithItem, WithCount, CStr, FirstPart, ItemSection;
      SetItem(item);
      file.sections := PutInt(file.sections, ItemSection(folder, item.id), Active, 1);
      var nCount := GetFileCount();
      if nCount.None? { return false; }
      SetFileCount(ToUInt(nCount.value + 1));
      return true;
    }

    /** Adds a non-folder entry in the first free slot and returns its item-ID list, with the slot as id. */
    method AddItem(mem: TaskMemory, size: DWord, name: WString) returns (r: Added)
      requires FreeFrom(SlotsOf(file.sections, folder), 0)
      modifies file, mem
      ensures r.NameTooLong? <==> |CStr(name)| >= MAX_PATH
      ensures r.NameTooLong? ==> file.sections == old(file.sections)
      ensures !r.NameTooLong? ==>
                var item := Item(FirstFree(SlotsOf(old(file.sections), folder), 0), size, false, CStr(name));
                && file.sections == AfterAdd(old(file.sections), folder, item).ini
                && (r.Added? <==> AfterAdd(old(file.sections), folder, item).Done?)
                && (r.Added? ==> fresh(r.pidl) && mem.live == old(mem.live) + {r.pidl} && HoldsItem(r.pidl[..], item))
                && (r.NoCount? ==> mem.live == old(mem.live))
    {
      var nId := FindFreeEntry();
      var pidl := CreateItemIdList(mem, nId, size, false, name);
      if pidl.None? { return NameTooLong; }
      HoldsItemDecodes(pidl.value[..], Item(nId, size, false, CStr(name)));
      var item := Construct(pidl.value[..], 0);
      var ok := AddEntry(item.value);
      if !ok {
        mem.Free(pidl.value);
        return NoCount;
      }
      return Added(pidl.value);
    }

    method DeleteItem(item: Item)
      modifies file
      ensures file.sections == WithActive(old(file.sections), folder, item.id, 0)
    {
      file.sections := PutInt(file.sections, ItemSection(folder, item.id), Active, 0);
    }

    method DeleteItems(items: seq<Item>) returns (ok: bool)
      modifies file
      ensures file.sections == AfterDelete(old(file.sections), folder, Ids(items)).ini
      ensures ok <==> AfterDelete(old(file.sections), folder, Ids(items)).Done?
    {
      hide PutInt, WithActive, WithCount, CountIn;
      for i := 0 to |items|
        invariant file.sections == Deactivated(old(file.sections), folder, Ids(items)[..i])
      {
        DeleteItem(items[i]);
        assert Ids(items)[..i + 1] == Ids(items)[..i] + [items[i].id];
      }
      assert Ids(items)[..|items|] == Ids(items);
      var nCount := GetFileCount();
      if nCount.None? { return false; }
      SetFileCount(ToUInt(nCount.value - |items|));
      return true;
    }

    /** The next active entry from slot `it` on that the flags ask for, as an item-ID list. */
    method GetNextItem(mem: TaskMemory, grfFlags: bv32, it: DWord) returns (r: Fetched, it': DWord)
      requires Ends(SlotsOf(file.sections, folder), it)
      modifies mem
      ensures var (next, end) := Scan(SlotsOf(file.sections, folder), grfFlags, it);
              && it' == end
              && (r.FetchedNone? <==> next.NoMore?)
              && (r.FetchFailed? <==> next.Broken?)
              && (r.Fetched? ==> HoldsItem(r.pidl[..], next.item))
      ensures r.Fetched? ==> fresh(r.pidl) && mem.live == old(mem.live) + {r.pidl} && r.pidl !in old(mem.live)
      ensures !r.Fetched? ==> mem.live == old(mem.live)
    {
      hide SlotAt, Scan;
      ghost var v := SlotsOf(file.sections, folder);
      it' := it;
      while true
        invariant Ends(v, it') && Scan(v, grfFlags, it') == Scan(v, grfFlags, it)
        invariant mem.live == old(mem.live)
        decreases 0x1_0000_0000 - it'
      {
        ScanStep(v, grfFlags, it');
        var s := SlotAt(file.sections, folder, it');
        if !s.Present() {
          return FetchedNone, it';
        }
        it' := it' + 1;
        if s.IsActive() {
          var isFolder := s.IsFolder();
          if (grfFlags & SHCONTF_NONFOLDERS != 0 && !isFolder) || (grfFlags & SHCONTF_FOLDERS != 0 && isFolder) {
            if s.size == NO_VALUE {
              return FetchFailed, it';
            }
            CStrOfClean(s.name);
            var pidl := CreateItemIdList(mem, it', s.size, isFolder, s.name);
            return Fetched(pidl.value), it';
          }
        }
      }
    }
  }

  function Ids(items: seq<Item>): (ids: seq<DWord>)
    ensures |ids| == |items| && forall i :: 0 <= i < |ids| ==> ids[i] == items[i].id
  {
    seq(|items|, i requires 0 <= i < |items| => items[i].id)
  }
}
