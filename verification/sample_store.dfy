/** The store that comes with the sample, read by the model. */
module SampleStore {
  import opened Words
  import opened VvvItem
  import opened Naming
  import opened Slots
  import opened VvvStore
  import opened StoreRuns

  function Plain(name: string, size: DWord): map<Key, WString> {
    map[Name := Wide(name), Size := Decimal(size), Active := Wide("1")]
  }

  function Marked(name: string): map<Key, WString> {
    map[Name := Wide(name), Size := Wide("0"), Active := Wide("1"), Folder := Wide("1")]
  }

  /** The sections of the file as they are spelled there; labels are left out. */
  function Sample(): Ini {
    map[Wide("directory") := map[FileCount := Wide("4")],
        Wide("file0") := Plain("File One", 45386),
        Wide("file1") := Plain("File Two", 12900),
        Wide("file2") := Marked("Directory One"),
        Wide("file3") := Marked("Directory Two"),
        Wide("2\\directory") := map[FileCount := Wide("0")],
        Wide("3\\directory") := map[FileCount := Wide("1")],
        Wide("3\\File0") := Plain("File 1", 2999)]
  }

  lemma LeafText()
    ensures FileLeaf(0) == Wide("file0") && FileLeaf(1) == Wide("file1")
    ensures FileLeaf(2) == Wide("file2") && FileLeaf(3) == Wide("file3")
    ensures DirectoryLeaf() == Wide("directory")
  {
  }

  /** How the sections below the root are spelled. */
  lemma SectionText()
    ensures DirectorySection(Join([2])) == Wide("2\\directory") && DirectorySection(Join([3])) == Wide("3\\directory")
    ensures ItemSection(Join([3]), 0) == Wide("3\\file0")
  {
    LeafText();
    hide FileLeaf, DirectoryLeaf;
    assert Join([2]) == Wide("2") && Join([3]) == Wide("3");
  }

  lemma DeepSectionText()
    ensures ItemSection(Join([3, 12]), 0) == Wide("3\\12\\file0")
  {
    LeafText();
    hide FileLeaf;
    assert Decimal(12) == Decimal(1) + [ZERO + 2];
    assert [3, 12][1..] == [12] && Join([3, 12]) == Decimal(3) + [BACKSLASH] + Join([12]);
    hide Join, Decimal;
    assert Join([3, 12]) == Wide("3\\12");
  }

  lemma Digit(n: nat)
    requires n < 10
    ensures ParseUInt([ZERO + n]) == n
  {
    ParseOfDecimal(n);
  }

  lemma Numbers()
    ensures ParseUInt(Wide("0")) == 0 && ParseUInt(Wide("1")) == 1 && ParseUInt(Wide("4")) == 4
  {
    Digit(0);
    Digit(1);
    Digit(4);
    assert Wide("0") == [ZERO] && Wide("1") == [ZERO + 1] && Wide("4") == [ZERO + 4];
  }

  lemma OtherLeaf(m: DWord, n: DWord)
    requires m != n
    ensures FileLeaf(m) != FileLeaf(n)
  {
    hide FileLeaf;
    if FileLeaf(m) == FileLeaf(n) { FileLeafInjective(m, n); }
  }

  lemma NotFiles(leaf: WString)
    requires leaf != [] && leaf[0] == 'f' as int
    ensures leaf != Wide("2\\directory") && leaf != Wide("3\\directory") && leaf != Wide("3\\File0")
  {
    assert Wide("2\\directory")[0] == '2' as int && Wide("3\\directory")[0] == '3' as int;
    assert Wide("3\\File0")[0] == '3' as int;
  }

  // No other names of item sections occur.
  lemma NoMoreFiles(n: DWord)
    requires n >= 4
    ensures ItemSection([], n) !in Sample()
  {
    LeafText();
    LeavesAreLeaves(n);
    assert FileLeaf(n)[0] == 'f' as int;
    NotFiles(FileLeaf(n));
    hide Wide, FileLeaf, DirectoryLeaf, Plain, Marked, Decimal;
    OtherLeaf(n, 0);
    OtherLeaf(n, 1);
    OtherLeaf(n, 2);
    OtherLeaf(n, 3);
  }

  lemma Lookups()
    ensures var ini := Sample();
            && Wide("directory") in ini && ini[Wide("directory")] == map[FileCount := Wide("4")]
            && Wide("file0") in ini && ini[Wide("file0")] == Plain("File One", 45386)
            && Wide("file1") in ini && ini[Wide("file1")] == Plain("File Two", 12900)
            && Wide("file2") in ini && ini[Wide("file2")] == Marked("Directory One")
            && Wide("file3") in ini && ini[Wide("file3")] == Marked("Directory Two")
  {
    hide Plain, Marked;
    assert Wide("directory")[0] == 'd' as int && Wide("2\\directory")[0] == '2' as int;
    assert Wide("3\\directory")[0] == '3' as int && Wide("3\\File0")[0] == '3' as int;
    assert Wide("file0")[0] == 'f' as int && Wide("file0")[4] == '0' as int;
    assert Wide("file1")[0] == 'f' as int && Wide("file1")[4] == '1' as int;
    assert Wide("file2")[0] == 'f' as int && Wide("file2")[4] == '2' as int;
    assert Wide("file3")[0] == 'f' as int && Wide("file3")[4] == '3' as int;
  }

  lemma Names(name: string)
    requires |name| <= NAME_LIMIT && forall i :: 0 <= i < |name| ==> ' ' <= name[i] <= '~'
    ensures FirstPart(CStr(Wide(name))) == Wide(name)
  {
    CStrOfClean(Wide(name));
  }

  // What the four slots of the root hold.
  function SampleSlot(n: nat): Slot {
    if n == 0 then Slot(1, NO_VALUE, 45386, Wide("File One"))
    else if n == 1 then Slot(1, NO_VALUE, 12900, Wide("File Two"))
    else if n == 2 then Slot(1, 1, 0, Wide("Directory One"))
    else Slot(1, 1, 0, Wide("Directory Two"))
  }

  lemma PlainReads(ini: Ini, n: DWord, name: string, size: DWord)
    requires ItemSection([], n) in ini && ini[ItemSection([], n)] == Plain(name, size)
    requires |name| <= NAME_LIMIT && forall i :: 0 <= i < |name| ==> ' ' <= name[i] <= '~'
    ensures SlotAt(ini, [], n) == Slot(1, NO_VALUE, size, Wide(name))
  {
    Names(name);
    Numbers();
    ParseOfDecimal(size);
    hide Wide, Decimal, ParseUInt, ItemSection, FirstPart, CStr;
  }

  lemma MarkedReads(ini: Ini, n: DWord, name: string)
    requires ItemSection([], n) in ini && ini[ItemSection([], n)] == Marked(name)
    requires |name| <= NAME_LIMIT && forall i :: 0 <= i < |name| ==> ' ' <= name[i] <= '~'
    ensures SlotAt(ini, [], n) == Slot(1, 1, 0, Wide(name))
  {
    Names(name);
    Numbers();
    hide Wide, ParseUInt, ItemSection, FirstPart, CStr;
  }

  lemma SampleSlots(n: DWord)
    ensures n < 4 ==> SlotAt(Sample(), [], n) == SampleSlot(n)
    ensures n >= 4 ==> SlotAt(Sample(), [], n).active == NO_VALUE && SlotAt(Sample(), [], n).folder == NO_VALUE
  {
    LeafText();
    Lookups();
    hide Sample, Wide, Plain, Marked, FileLeaf, SlotAt;
    if n == 0 {
      PlainReads(Sample(), 0, "File One", 45386);
    } else if n == 1 {
      PlainReads(Sample(), 1, "File Two", 12900);
    } else if n == 2 {
      MarkedReads(Sample(), 2, "Directory One");
    } else if n == 3 {
      MarkedReads(Sample(), 3, "Directory Two");
    } else {
      NoMoreFiles(n);
      AbsentReads(Sample(), n);
    }
  }

  lemma AbsentReads(ini: Ini, n: DWord)
    requires ItemSection([], n) !in ini
    ensures SlotAt(ini, [], n) == Slot(0xFFFF_FFFF, 0xFFFF_FFFF, 0xFFFF_FFFF, [])
  {
  }

  // The root of the sample, whatever store it is part of.
  ghost predicate IsSample(v: Slots) {
    forall n: DWord ::
      && (n < 4 ==> v(n) == SampleSlot(n))
      && (n >= 4 ==> v(n).active == NO_VALUE && v(n).folder == NO_VALUE)
  }

  lemma SampleRoot()
    ensures IsSample(SlotsOf(Sample(), [])) && CountIn(Sample(), []) == 4
  {
    assert CountIn(Sample(), []) == 4 by {
      LeafText();
      Lookups();
      Numbers();
    }
    hide SlotAt, Sample, SampleSlot;
    forall n: DWord { SampleSlots(n); }
  }

  lemma SampleShape(v: Slots)
    requires IsSample(v)
    ensures Prefix(v, 4) && FoldersActive(v) && ActiveSized(v) && ActiveSlots(v) == {0, 1, 2, 3}
  {
    hide Wide;
  }

  /** The root is as every run keeps it: well shaped, truly counted and with readable sizes. */
  lemma SampleIsSound()
    ensures Sound(Sample()) && ActiveSized(SlotsOf(Sample(), []))
  {
    hide SlotsOf, CountIn, Sample, IsSample, Prefix, ActiveSized, ActiveSlots, FoldersActive;
    SampleRoot();
    SampleShape(SlotsOf(Sample(), []));
  }

  function Files(): seq<Item> {
    [Item(1, 45386, false, Wide("File One")), Item(2, 12900, false, Wide("File Two"))]
  }

  function Directories(): seq<Item> {
    [Item(3, 0, true, Wide("Directory One")), Item(4, 0, true, Wide("Directory Two"))]
  }

  /** What the shell is shown: the files, the directories or both, under ids that are one more than their slots. */
  lemma SampleIsListed(flags: bv32)
    ensures Ends(SlotsOf(Sample(), []), 0)
    ensures Fetch(SlotsOf(Sample(), []), flags, 0, 5) ==
            Batch((if flags & 0x40 != 0 then Files() else []) + (if flags & 0x20 != 0 then Directories() else []), 4, false)
  {
    var v := SlotsOf(Sample(), []);
    hide SlotsOf, Sample, Wide, Fetch, IsSample;
    SampleRoot();
    SampleShape(v);
    SampleListing(v, flags);
  }

  lemma SampleListing(v: Slots, flags: bv32)
    requires IsSample(v) && Prefix(v, 4)
    ensures Ends(v, 0)
    ensures Fetch(v, flags, 0, 5) ==
            Batch((if flags & 0x40 != 0 then Files() else []) + (if flags & 0x20 != 0 then Directories() else []), 4, false)
  {
    hide Wide, Fetch;
    PrefixEnds(v, 4);
    FetchIsListing(v, flags, 0, 5);
    hide Prefix;
    assert Listing(v, flags, 0, 0) == [];
    assert Listing(v, flags, 0, 2) == if flags & 0x40 != 0 then Files() else [];
    assert Listing(v, flags, 0, 4) == Listing(v, flags, 0, 2) + if flags & 0x20 != 0 then Directories() else [];
  }
}
