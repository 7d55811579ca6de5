/** Runs of operations on the .vvv store: what every run keeps, and where it can go wrong. */
module StoreRuns {
  import opened Words
  import opened Pidl
  import opened VvvItem
  import opened Naming
  import opened Slots
  import opened VvvStore

  datatype Op = Add(size: DWord, name: WString) | Set(item: Item) | Delete(ids: seq<DWord>)

  /** An operation that returns at all: a free slot can be found. */
  ghost predicate Runnable(ini: Ini, f: WString, op: Op) {
    op.Add? ==> FreeFrom(SlotsOf(ini, f), 0)
  }

  /** The store an operation leaves behind, whether or not it raised an exception. */
  ghost function Apply(ini: Ini, f: WString, op: Op): Ini
    requires Runnable(ini, f, op)
  {
    match op
    case Add(size, name) =>
      if |CStr(name)| >= MAX_PATH then ini
      else AfterAdd(ini, f, Item(FirstFree(SlotsOf(ini, f), 0), size, false, CStr(name))).ini
    case Set(item) => WithItem(ini, f, item)
    case Delete(ids) => AfterDelete(ini, f, ids).ini
  }

  // --- one folder ----------------------------------------------------------------------------

  /** The present slots are the first n, and one more can follow. */
  ghost predicate Shaped(v: Slots) { exists n: nat :: n < NO_VALUE && Prefix(v, n) }

  /** A root folder with a true count: the stored count is the number of active slots. */
  ghost predicate Counted(ini: Ini) {
    Shaped(SlotsOf(ini, [])) && CountIn(ini, []) == |ActiveSlots(SlotsOf(ini, []))|
  }

  /** A sound root folder: moreover no inactive slot is marked as a folder. */
  ghost predicate Sound(ini: Ini) { Counted(ini) && FoldersActive(SlotsOf(ini, [])) }

  predicate NoFolders(v: Slots, ids: seq<DWord>) { forall id :: id in ids ==> !v(id).IsFolder() }

  /** There are slots left to add to, and deleted entries can be counted in 32 bits. */
  ghost predicate Roomy(ini: Ini, f: WString, op: Op) {
    var v := SlotsOf(ini, f);
    match op
    case Add(_, _) => FreeFrom(v, 0) && Ends(v, 0) && End(v, 0) + 1 < NO_VALUE
    case Set(_) => true
    case Delete(ids) => |ids| < 0x1_0000_0000
  }

  /** Adding while there are slots left, any change of an item, and deleting distinct active entries. */
  ghost predicate Legal(ini: Ini, f: WString, op: Op) {
    Roomy(ini, f, op) && (op.Delete? ==> DistinctActive(SlotsOf(ini, f), op.ids))
  }

  /** Operations that delete no slot marked as a folder. */
  ghost predicate Plain(ini: Ini, f: WString, op: Op) { op.Delete? ==> NoFolders(SlotsOf(ini, f), op.ids) }

  lemma CountedFacts(ini: Ini)
    requires Counted(ini)
    ensures var v := SlotsOf(ini, []);
            && FreeFrom(v, 0) && Ends(v, 0) && End(v, 0) < NO_VALUE && Prefix(v, End(v, 0))
            && CountIn(ini, []) <= End(v, 0)
  {
    var v := SlotsOf(ini, []);
    var n: nat :| n < NO_VALUE && Prefix(v, n);
    PrefixEnds(v, n);
    assert forall k: DWord :: v(k).IsActive() ==> v(k).Present();
    assert ActiveSlots(v) <= FirstNumbers(n);
    CardinalityMonotone(ActiveSlots(v), FirstNumbers(n));
  }

  ghost function FirstNumbers(n: nat): (s: set<int>)
    ensures |s| == n && forall k :: k in s <==> 0 <= k < n
  {
    if n == 0 then {} else FirstNumbers(n - 1) + {n - 1}
  }

  lemma AddKeepsCounted(ini: Ini, size: DWord, name: WString)
    requires Counted(ini) && Roomy(ini, [], Add(size, name))
    ensures Counted(Apply(ini, [], Add(size, name)))
    ensures Sound(ini) ==> Sound(Apply(ini, [], Add(size, name)))
  {
    if |CStr(name)| < MAX_PATH {
      CountedFacts(ini);
      EntryKeepsCounted(ini, Item(FirstFree(SlotsOf(ini, []), 0), size, false, CStr(name)), End(SlotsOf(ini, []), 0));
    }
  }

  lemma EntryKeepsCounted(ini: Ini, item: Item, n: nat)
    requires FreeFrom(SlotsOf(ini, []), 0) && item.id == FirstFree(SlotsOf(ini, []), 0)
    requires Prefix(SlotsOf(ini, []), n) && n + 1 < NO_VALUE
    requires CountIn(ini, []) == |ActiveSlots(SlotsOf(ini, []))| && CountIn(ini, []) <= n
    ensures Counted(AfterAdd(ini, [], item).ini)
    ensures FoldersActive(SlotsOf(ini, [])) ==> FoldersActive(SlotsOf(AfterAdd(ini, [], item).ini, []))
  {
    hide SlotAt, SlotsOf, AfterAdd, CountIn, ActiveSlots, FoldersActive;
    var v, w, name := SlotsOf(ini, []), SlotsOf(AfterAdd(ini, [], item).ini, []), FirstPart(CStr(item.name));
    AddIsAdd(ini, [], item);
    AddKeepsPrefix(v, w, n, item.size, name);
    if FoldersActive(v) { OthersFoldersActive(v, w, item.id, item.size, name); }
    AddCounts(v, w, item.id, item.size, name);
    AddedSlot(ini, [], item, 0);
  }

  lemma SetKeepsCounted(ini: Ini, item: Item)
    requires Counted(ini)
    ensures Counted(Apply(ini, [], Set(item)))
    ensures Sound(ini) ==> Sound(Apply(ini, [], Set(item)))
  {
    hide SlotAt, SlotsOf, WithItem, CountIn, FoldersActive;
    var v, w, name := SlotsOf(ini, []), SlotsOf(WithItem(ini, [], item), []), FirstPart(CStr(item.name));
    var n: nat :| n < NO_VALUE && Prefix(v, n);
    SetIsSet(ini, [], item);
    SetKeepsPrefix(v, w, n, item.id, item.size, name);
    if FoldersActive(v) { OthersFoldersActive(v, w, item.id, item.size, name); }
    SetCounts(v, w, item.id, item.size, name);
    ItemWritten(ini, [], item, 0);
  }

  /** Deleting keeps the count true exactly when the ids are distinct and active. */
  lemma DeleteCountedExactly(ini: Ini, ids: seq<DWord>)
    requires Counted(ini) && |ids| < 0x1_0000_0000
    ensures Counted(Apply(ini, [], Delete(ids))) <==> DistinctActive(SlotsOf(ini, []), ids)
  {
    hide SlotAt, SlotsOf, AfterDelete, CountIn, ActiveSlots, Hit, ToUInt;
    var v := SlotsOf(ini, []);
    var after := AfterDelete(ini, [], ids).ini;
    var w := SlotsOf(after, []);
    CountedFacts(ini);
    DeleteIsDelete(ini, [], ids);
    DeletedSlot(ini, [], ids, 0);
    DeleteCounts(v, w, ids);
    HitCount(v, ids);
    CountAfterDelete(CountIn(ini, []), |ids|, |Hit(v, ids)|);
    hide IsDelete, DistinctActive, Prefix, Shaped, Ends, End, FreeFrom;
    if DistinctActive(v, ids) { DeleteKeepsShape(v, w, End(v, 0), ids); }
  }

  lemma DeleteKeepsShape(v: Slots, w: Slots, n: nat, ids: seq<DWord>)
    requires Prefix(v, n) && n < NO_VALUE && IsDelete(v, w, ids) && DistinctActive(v, ids)
    ensures Shaped(w)
  {
    ActiveBefore(v, n, ids);
    DeleteKeepsPrefix(v, w, n, ids);
    assert Prefix(w, n);
  }

  // In 32 bits the count goes down by as many as were deleted only if all of them counted.
  lemma CountAfterDelete(count: DWord, ids: nat, hit: nat)
    requires hit <= count && hit <= ids < 0x1_0000_0000
    ensures ToUInt(count - ids) == count - hit <==> ids == hit
  {
  }

  /** Deleting keeps the root sound exactly when, moreover, none of the ids is a folder. */
  lemma DeleteSoundExactly(ini: Ini, ids: seq<DWord>)
    requires Sound(ini) && |ids| < 0x1_0000_0000
    ensures Sound(Apply(ini, [], Delete(ids))) <==>
            DistinctActive(SlotsOf(ini, []), ids) && NoFolders(SlotsOf(ini, []), ids)
  {
    hide SlotAt, SlotsOf, AfterDelete, Counted, FoldersActive;
    DeleteCountedExactly(ini, ids);
    DeleteIsDelete(ini, [], ids);
    DeleteFoldersActive(SlotsOf(ini, []), SlotsOf(AfterDelete(ini, [], ids).ini, []), ids);
  }

  // --- the size that stands for no value --------------------------------------------------------

  /** Operations that give no active slot the size that reads as missing. */
  ghost predicate SizedOp(ini: Ini, f: WString, op: Op) {
    match op
    case Add(size, name) => |CStr(name)| < MAX_PATH ==> size != NO_VALUE
    case Set(item) => SlotsOf(ini, f)(item.id).IsActive() ==> item.size != NO_VALUE
    case Delete(_) => true
  }

  /** Exactly these keep the sizes of all active slots readable. */
  lemma SizedExactly(ini: Ini, f: WString, op: Op)
    requires Runnable(ini, f, op) && ActiveSized(SlotsOf(ini, f))
    ensures ActiveSized(SlotsOf(Apply(ini, f, op), f)) <==> SizedOp(ini, f, op)
  {
    hide SlotAt, SlotsOf, AfterAdd, AfterDelete, WithItem;
    var v, w := SlotsOf(ini, f), SlotsOf(Apply(ini, f, op), f);
    match op
    case Add(size, name) =>
      if |CStr(name)| < MAX_PATH {
        var item := Item(FirstFree(v, 0), size, false, CStr(name));
        AddIsAdd(ini, f, item);
        assert w(item.id).IsActive() && w(item.id).size == size;
      }
    case Set(item) =>
      SetIsSet(ini, f, item);
      assert w(item.id).size == item.size;
    case Delete(ids) => DeleteIsDelete(ini, f, ids);
  }

  // --- runs over any folders ---------------------------------------------------------------------

  /** An operation in the folder with this id path; the root has the empty one. */
  datatype Step = Step(path: seq<DWord>, op: Op)

  ghost predicate RunnableRun(ini: Ini, steps: seq<Step>)
    decreases |steps|
  {
    steps != [] ==> Runnable(ini, Join(steps[0].path), steps[0].op) && RunnableRun(After(ini, steps[0]), steps[1..])
  }

  ghost function After(ini: Ini, step: Step): Ini
    requires Runnable(ini, Join(step.path), step.op)
  {
    Apply(ini, Join(step.path), step.op)
  }

  ghost function Run(ini: Ini, steps: seq<Step>): Ini
    requires RunnableRun(ini, steps)
    decreases |steps|
  {
    if steps == [] then ini else Run(After(ini, steps[0]), steps[1..])
  }

  /** Every store of the run, the first and the last one included, has the property. */
  ghost predicate Throughout(p: Ini -> bool, ini: Ini, steps: seq<Step>)
    requires RunnableRun(ini, steps)
    decreases |steps|
  {
    p(ini) && (steps != [] ==> Throughout(p, After(ini, steps[0]), steps[1..]))
  }

  /** Every step has the property in the store it is taken in. */
  ghost predicate Each(p: (Ini, Step) -> bool, ini: Ini, steps: seq<Step>)
    requires RunnableRun(ini, steps)
    decreases |steps|
  {
    steps != [] ==> p(ini, steps[0]) && Each(p, After(ini, steps[0]), steps[1..])
  }

  lemma {:induction false} ThroughoutEnds(p: Ini -> bool, ini: Ini, steps: seq<Step>)
    requires RunnableRun(ini, steps) && Throughout(p, ini, steps)
    ensures p(Run(ini, steps))
    decreases |steps|
  {
    if steps != [] { ThroughoutEnds(p, After(ini, steps[0]), steps[1..]); }
  }

  // What a property of operations asks of the steps taken in folder `q`.
  ghost function RoomyIn(q: seq<DWord>): (Ini, Step) -> bool {
    (ini: Ini, step: Step) => step.path == q ==> Roomy(ini, Join(q), step.op)
  }

  ghost function LegalIn(q: seq<DWord>): (Ini, Step) -> bool {
    (ini: Ini, step: Step) => step.path == q ==> Legal(ini, Join(q), step.op)
  }

  ghost function PlainLegalIn(q: seq<DWord>): (Ini, Step) -> bool {
    (ini: Ini, step: Step) => step.path == q ==> Legal(ini, Join(q), step.op) && Plain(ini, Join(q), step.op)
  }

  ghost function SizedIn(q: seq<DWord>): (Ini, Step) -> bool {
    (ini: Ini, step: Step) => step.path == q ==> SizedOp(ini, Join(q), step.op)
  }

  // The same for the stores.
  ghost function TidyIn(q: seq<DWord>): Ini -> bool {
    ini => Shaped(SlotsOf(ini, Join(q))) && FoldersActive(SlotsOf(ini, Join(q)))
  }

  ghost function ActiveSizedIn(q: seq<DWord>): Ini -> bool { ini => ActiveSized(SlotsOf(ini, Join(q))) }

  /** A step of a run in the root keeps its count true exactly when it is legal; */
  lemma CountedStep(ini: Ini, step: Step)
    requires Counted(ini) && Runnable(ini, Join(step.path), step.op) && RoomyIn([])(ini, step)
    ensures Counted(After(ini, step)) <==> LegalIn([])(ini, step)
  {
    hide SlotsOf, Apply;
    if step.path == [] {
      hide Counted;
      match step.op {
        case Add(size, name) => AddKeepsCounted(ini, size, name);
        case Set(item) => SetKeepsCounted(ini, item);
        case Delete(ids) => DeleteCountedExactly(ini, ids);
      }
    } else {
      ElsewhereKeeps(ini, step, []);
    }
  }

  /** and keeps it sound exactly when it moreover deletes no folder. */
  lemma SoundStep(ini: Ini, step: Step)
    requires Sound(ini) && Runnable(ini, Join(step.path), step.op) && RoomyIn([])(ini, step)
    ensures Sound(After(ini, step)) <==> PlainLegalIn([])(ini, step)
  {
    hide SlotsOf, FoldersActive, Apply;
    if step.path == [] {
      hide Counted;
      match step.op {
        case Add(size, name) => AddKeepsCounted(ini, size, name);
        case Set(item) => SetKeepsCounted(ini, item);
        case Delete(ids) => DeleteSoundExactly(ini, ids);
      }
    } else {
      ElsewhereKeeps(ini, step, []);
    }
  }

  /**
   Runs over any folders, as long as there is room in the root: the root's count stays true all
   along exactly when every delete in the root names distinct active entries;
   */
  lemma {:induction false} RunCountedExactly(ini: Ini, steps: seq<Step>)
    requires RunnableRun(ini, steps) && Counted(ini) && Each(RoomyIn([]), ini, steps)
    ensures Throughout(Counted, ini, steps) <==> Each(LegalIn([]), ini, steps)
    decreases |steps|
  {
    hide Counted, After, RoomyIn, LegalIn;
    if steps != [] {
      CountedStep(ini, steps[0]);
      if Counted(After(ini, steps[0])) { RunCountedExactly(After(ini, steps[0]), steps[1..]); }
    }
  }

  /** the root stays sound all along exactly when, moreover, none of them names a folder; */
  lemma {:induction false} RunSoundExactly(ini: Ini, steps: seq<Step>)
    requires RunnableRun(ini, steps) && Sound(ini) && Each(RoomyIn([]), ini, steps)
    ensures Throughout(Sound, ini, steps) <==> Each(PlainLegalIn([]), ini, steps)
    decreases |steps|
  {
    hide Sound, After, RoomyIn, PlainLegalIn;
    if steps != [] {
      SoundStep(ini, steps[0]);
      if Sound(After(ini, steps[0])) { RunSoundExactly(After(ini, steps[0]), steps[1..]); }
    }
  }

  /**
   in every folder the sizes of all active slots stay readable exactly when no step gives an
   active slot of it the size that reads as missing;
   */
  lemma {:induction false} RunSizedExactly(ini: Ini, q: seq<DWord>, steps: seq<Step>)
    requires RunnableRun(ini, steps) && ActiveSized(SlotsOf(ini, Join(q)))
    ensures Throughout(ActiveSizedIn(q), ini, steps) <==> Each(SizedIn(q), ini, steps)
    decreases |steps|
  {
    hide SlotsOf, ActiveSized, SizedOp, Apply;
    if steps != [] {
      var step, after := steps[0], After(ini, steps[0]);
      if step.path == q { SizedExactly(ini, Join(q), step.op); } else { ElsewhereKeeps(ini, step, q); }
      if ActiveSized(SlotsOf(after, Join(q))) { RunSizedExactly(after, q, steps[1..]); }
    }
  }

  /** and every folder keeps its shape and folder marks through deletes of distinct active plain entries. */
  lemma {:induction false} RunKeepsTidy(ini: Ini, q: seq<DWord>, steps: seq<Step>)
    requires RunnableRun(ini, steps) && TidyIn(q)(ini) && Each(PlainLegalIn(q), ini, steps)
    ensures Throughout(TidyIn(q), ini, steps)
    decreases |steps|
  {
    hide SlotsOf, Shaped, FoldersActive, Apply, Legal, Plain;
    if steps != [] {
      if steps[0].path == q { LegalKeepsTidy(ini, Join(q), steps[0].op); } else { ElsewhereKeeps(ini, steps[0], q); }
      RunKeepsTidy(After(ini, steps[0]), q, steps[1..]);
    }
  }

  lemma LegalKeepsTidy(ini: Ini, f: WString, op: Op)
    requires Shaped(SlotsOf(ini, f)) && FoldersActive(SlotsOf(ini, f))
    requires Runnable(ini, f, op) && Legal(ini, f, op) && Plain(ini, f, op)
    ensures Shaped(SlotsOf(Apply(ini, f, op), f)) && FoldersActive(SlotsOf(Apply(ini, f, op), f))
  {
    hide SlotAt, SlotsOf, AfterAdd, AfterDelete, WithItem, FoldersActive;
    var v, w := SlotsOf(ini, f), SlotsOf(Apply(ini, f, op), f);
    var n: nat :| n < NO_VALUE && Prefix(v, n);
    PrefixEnds(v, n);
    match op
    case Add(size, name) =>
      if |CStr(name)| < MAX_PATH {
        var item, text := Item(FirstFree(v, 0), size, false, CStr(name)), FirstPart(CStr(CStr(name)));
        AddIsAdd(ini, f, item);
        AddKeepsPrefix(v, w, n, size, text);
        OthersFoldersActive(v, w, item.id, size, text);
      }
    case Set(item) =>
      SetIsSet(ini, f, item);
      SetKeepsPrefix(v, w, n, item.id, item.size, FirstPart(CStr(item.name)));
      OthersFoldersActive(v, w, item.id, item.size, FirstPart(CStr(item.name)));
    case Delete(ids) =>
      DeleteIsDelete(ini, f, ids);
      ActiveBefore(v, n, ids);
      DeleteKeepsPrefix(v, w, n, ids);
      DeleteFoldersActive(v, w, ids);
  }

  // Active slots lie before the first missing one.
  lemma ActiveBefore(v: Slots, n: nat, ids: seq<DWord>)
    requires Prefix(v, n) && DistinctActive(v, ids)
    ensures forall id :: id in ids ==> id < n
  {
    forall id | id in ids ensures id < n {
      var i :| 0 <= i < |ids| && ids[i] == id;
      assert v(id).IsActive();
    }
  }

  /** Carries out one operation on the file. */
  method Perform(mem: TaskMemory, file: IniFile, step: Step)
    requires Runnable(file.sections, Join(step.path), step.op)
    modifies file, mem
    ensures file.sections == After(old(file.sections), step)
  {
    var vvvFile := new VVVFile(file, Join(step.path));
    match step.op
    case Add(size, name) => var added := vvvFile.AddItem(mem, size, name);
    case Set(item) => vvvFile.SetItem(item);
    case Delete(ids) =>
      var items := ItemsWith(ids);
      var ok := vvvFile.DeleteItems(items);
  }

  /** A run carried out on the file leaves behind the store that Run speaks of. */
  method PerformAll(mem: TaskMemory, file: IniFile, steps: seq<Step>)
    requires RunnableRun(file.sections, steps)
    modifies file, mem
    ensures file.sections == Run(old(file.sections), steps)
  {
    hide Runnable, Apply, After;
    assert steps[0..] == steps;
    for i := 0 to |steps|
      invariant RunnableRun(file.sections, steps[i..])
      invariant Run(file.sections, steps[i..]) == Run(old(file.sections), steps)
    {
      assert steps[i..][0] == steps[i] && steps[i..][1..] == steps[i + 1..];
      Perform(mem, file, steps[i]);
    }
    assert steps[|steps|..] == [];
  }

  // Items of which only the id matters.
  function ItemsWith(ids: seq<DWord>): (items: seq<Item>)
    ensures Ids(items) == ids
  {
    seq(|ids|, i requires 0 <= i < |ids| => Item(ids[i], 0, false, []))
  }

  // A store without entries, as the sample's empty folders are.
  function NewStore(): Ini { map[DirectorySection([]) := map[FileCount := Decimal(0)]] }

  /** Such a store is sound, has no unreadable sizes and takes entries. */
  lemma NewStoreIsSound(size: DWord, name: WString)
    ensures Sound(NewStore()) && ActiveSized(SlotsOf(NewStore(), [])) && Legal(NewStore(), [], Add(size, name))
  {
    var v := SlotsOf(NewStore(), []);
    forall n: DWord ensures !v(n).Present() && !v(n).IsActive() && !v(n).IsFolder() { NewSlot(n); }
    assert CountIn(NewStore(), []) == 0 by { ParseOfDecimal(0); }
    hide SlotAt, SlotsOf, CountIn, NewStore, DirectorySection;
    NothingActive(v);
    PrefixEnds(v, 0);
    hide Prefix, ActiveSized, FoldersActive, ActiveSlots, Ends, End, FreeFrom;
  }

  lemma NothingActive(v: Slots)
    requires forall n: DWord :: !v(n).Present() && !v(n).IsActive() && !v(n).IsFolder()
    ensures Prefix(v, 0) && ActiveSlots(v) == {} && ActiveSized(v) && FoldersActive(v)
  {
  }

  lemma NewSlot(n: DWord)
    ensures SlotAt(NewStore(), [], n).active == NO_VALUE && SlotAt(NewStore(), [], n).folder == NO_VALUE
  {
    SlotSectionsDistinct([], n, n);
  }

  // --- reading back what was added -------------------------------------------------------------

  const ALL_ITEMS: bv32 := SHCONTF_FOLDERS | SHCONTF_NONFOLDERS

  /**
   A new entry is enumerated as the non-folder that was added exactly when the reused slot carries
   no folder mark, the name fits the read buffer and the size is not the one that reads as missing.
   */
  lemma AddReadsBack(ini: Ini, f: WString, size: DWord, name: WString)
    requires FreeFrom(SlotsOf(ini, f), 0) && |CStr(name)| < MAX_PATH
    ensures var id := FirstFree(SlotsOf(ini, f), 0);
            var w := SlotsOf(Apply(ini, f, Add(size, name)), f);
            && w(id) == Slot(1, SlotsOf(ini, f)(id).folder, size, FirstPart(CStr(name)))
            && (Ends(w, id) ==>
                  && id + 1 < 0x1_0000_0000
                  && (Scan(w, ALL_ITEMS, id) == (Next(Item(id + 1, size, false, CStr(name))), id + 1) <==>
                      && SlotsOf(ini, f)(id).folder != 1 && |CStr(name)| <= 254 && size != 0xFFFF_FFFF))
  {
    var item := Item(FirstFree(SlotsOf(ini, f), 0), size, false, CStr(name));
    hide SlotAt, SlotsOf, AfterAdd;
    AddIsAdd(ini, f, item);
    CStrOfClean(CStr(name));
    AddedAt(SlotsOf(ini, f), SlotsOf(AfterAdd(ini, f, item).ini, f), item.id, size, CStr(name));
    hide *;
  }

  lemma AddedAt(v: Slots, w: Slots, id: DWord, size: DWord, name: WString)
    requires IsAdd(v, w, id, size, FirstPart(name))
    ensures w(id) == Slot(1, v(id).folder, size, FirstPart(name))
    ensures Ends(w, id) ==>
              && id + 1 < 0x1_0000_0000
              && (Scan(w, ALL_ITEMS, id) == (Next(Item(id + 1, size, false, name)), id + 1) <==>
                  !v(id).IsFolder() && |name| <= NAME_LIMIT && size != NO_VALUE)
  {
    if Ends(w, id) { ScanAdded(w, id, size, name); }
  }

  // What a scan makes of a slot filled by an add.
  lemma ScanAdded(w: Slots, id: DWord, size: DWord, name: WString)
    requires Ends(w, id) && w(id).IsActive() && w(id).size == size && w(id).name == FirstPart(name)
    ensures id + 1 < 0x1_0000_0000
    ensures Scan(w, ALL_ITEMS, id) == (Next(Item(id + 1, size, false, name)), id + 1) <==>
            !w(id).IsFolder() && |name| <= NAME_LIMIT && size != NO_VALUE
  {
    hide Scan, Ends, End;
    ScanStep(w, ALL_ITEMS, id);
    assert Wanted(w(id), ALL_ITEMS);
  }

  /**
   In a sound root folder whose sizes are all readable, every new entry can be added, and it is
   then among what an enumeration of the plain entries fetches exactly when its name fits the read
   buffer and its size is readable; with an unreadable size that enumeration raises an exception.
   */
  lemma AddedIsListed(ini: Ini, size: DWord, name: WString, celt: nat)
    requires Sound(ini) && ActiveSized(SlotsOf(ini, [])) && Legal(ini, [], Add(size, name))
    ensures var w := SlotsOf(Apply(ini, [], Add(size, name)), []);
            && Ends(w, 0)
            && (celt > End(w, 0) ==>
                  var batch := Fetch(w, SHCONTF_NONFOLDERS, 0, celt);
                  && (!batch.raised && Item(FirstFree(SlotsOf(ini, []), 0) + 1, size, false, CStr(name)) in batch.items
                      <==> |CStr(name)| <= 254 && size != 0xFFFF_FFFF)
                  && (batch.raised <==> size == 0xFFFF_FFFF && |CStr(name)| < 260))
  {
    var after := Apply(ini, [], Add(size, name));
    var v, w, id := SlotsOf(ini, []), SlotsOf(after, []), FirstFree(SlotsOf(ini, []), 0);
    hide SlotAt, Apply, Fetch, CountIn, ActiveSized, ActiveSlots;
    AddKeepsCounted(ini, size, name);
    CountedFacts(after);
    SizedExactly(ini, [], Add(size, name));
    NamesFit(after, []);
    assert !v(id).IsFolder();
    hide SlotsOf, CStr, FirstPart, Prefix, Ends, End, FreeFrom, FirstFree, Counted, Shaped, FoldersActive, Scan;
    if celt > End(w, 0) {
      if |CStr(name)| < MAX_PATH { AddReadsBack(ini, [], size, name); }
      FetchesEntry(w, id, size, name, celt);
    }
  }

  lemma NamesFit(ini: Ini, f: WString)
    ensures forall k: DWord :: |SlotsOf(ini, f)(k).name| <= NAME_LIMIT
  {
    hide SlotAt;
  }

  // What an enumeration of the plain entries makes of a slot that was just filled.
  lemma FetchesEntry(w: Slots, id: DWord, size: DWord, name: WString, celt: nat)
    requires Ends(w, 0) && Prefix(w, End(w, 0)) && celt > End(w, 0)
    requires forall k: DWord :: |w(k).name| <= NAME_LIMIT
    requires ActiveSized(w) <==> (|CStr(name)| < MAX_PATH ==> size != NO_VALUE)
    requires |CStr(name)| < MAX_PATH ==>
               w(id).IsActive() && !w(id).IsFolder() && w(id).size == size && w(id).name == FirstPart(CStr(name))
    ensures var batch := Fetch(w, SHCONTF_NONFOLDERS, 0, celt);
            && (!batch.raised && id + 1 < 0x1_0000_0000 && Item(id + 1, size, false, CStr(name)) in batch.items
                <==> |CStr(name)| <= NAME_LIMIT && size != NO_VALUE)
            && (batch.raised <==> size == NO_VALUE && |CStr(name)| < MAX_PATH)
  {
    hide Fetch, CStr;
    var end := End(w, 0);
    FetchIsListing(w, SHCONTF_NONFOLDERS, 0, celt);
    ListingExact(w, SHCONTF_NONFOLDERS, 0, end);
    if |CStr(name)| < MAX_PATH {
      assert Wanted(w(id), SHCONTF_NONFOLDERS) && id < end;
      assert ItemOf(w, id) in Listing(w, SHCONTF_NONFOLDERS, 0, end);
      assert ItemOf(w, id) == Item(id + 1, size, false, FirstPart(CStr(name)));
    }
    forall item | item in Listing(w, SHCONTF_NONFOLDERS, 0, end) ensures |item.name| <= NAME_LIMIT {
      assert Listed(w, SHCONTF_NONFOLDERS, 0, end, item);
    }
  }

  /**
   What goes wrong with enumerated ids: deleting the plain entry in front of a folder, by the id
   the enumeration gave it, drops the folder's slot; the next entry added there reads as a folder.
   */
  lemma EnumeratedDeleteThenAdd(v: Slots, w: Slots, x: Slots, k: DWord, size: DWord, name: WString)
    requires k + 1 < 0x1_0000_0000 && v(k + 1).IsFolder()
    requires forall n: DWord :: n <= k + 1 ==> v(n).IsActive()
    requires IsDelete(v, w, [ItemOf(v, k).id])
    requires FreeFrom(w, 0) && IsAdd(w, x, FirstFree(w, 0), size, name)
    ensures v(k) == w(k) == x(k)
    ensures FirstFree(w, 0) == k + 1 && x(k + 1).IsActive() && x(k + 1).IsFolder()
  {
    assert !w(k + 1).IsActive();
    assert forall n: DWord :: n <= k ==> w(n).IsActive();
  }

  // --- several folders -------------------------------------------------------------------------

  /** Operations in one folder leave every slot and the count of every other folder alone. */
  lemma OtherFolderUntouched(ini: Ini, p: seq<DWord>, q: seq<DWord>, op: Op, n: DWord)
    requires p != q && Runnable(ini, Join(p), op)
    ensures SlotAt(Apply(ini, Join(p), op), Join(q), n) == SlotAt(ini, Join(q), n)
    ensures CountIn(Apply(ini, Join(p), op), Join(q)) == CountIn(ini, Join(q))
  {
    match op
    case Add(size, name) =>
      if |CStr(name)| < MAX_PATH {
        var item := Item(FirstFree(SlotsOf(ini, Join(p)), 0), size, false, CStr(name));
        AddElsewhere(ini, p, q, item, n);
      }
    case Set(item) => ItemElsewhere(ini, p, q, item, n);
    case Delete(ids) => DeleteElsewhere(ini, p, q, ids, n);
  }

  // So every property of the slots and the count of the other folder stays as it is.
  lemma ElsewhereKeeps(ini: Ini, step: Step, q: seq<DWord>)
    requires step.path != q && Runnable(ini, Join(step.path), step.op)
    ensures var (v, w) := (SlotsOf(ini, Join(q)), SlotsOf(After(ini, step), Join(q)));
            && Shaped(w) == Shaped(v) && FoldersActive(w) == FoldersActive(v) && ActiveSized(w) == ActiveSized(v)
            && ActiveSlots(w) == ActiveSlots(v)
    ensures CountIn(After(ini, step), Join(q)) == CountIn(ini, Join(q))
  {
    hide SlotAt, CountIn, Apply;
    forall n: DWord { OtherFolderUntouched(ini, step.path, q, step.op, n); }
    OtherFolderUntouched(ini, step.path, q, step.op, 0);
    SameSlotsAlike(SlotsOf(ini, Join(q)), SlotsOf(After(ini, step), Join(q)));
  }

  lemma SameSlotsAlike(v: Slots, w: Slots)
    requires forall n: DWord :: w(n) == v(n)
    ensures Shaped(w) == Shaped(v) && FoldersActive(w) == FoldersActive(v) && ActiveSized(w) == ActiveSized(v)
    ensures ActiveSlots(w) == ActiveSlots(v)
  {
    if Shaped(v) {
      var n: nat :| n < NO_VALUE && Prefix(v, n);
      assert Prefix(w, n);
    }
    if Shaped(w) {
      var n: nat :| n < NO_VALUE && Prefix(w, n);
      assert Prefix(v, n);
    }
  }

  // Both readings a folder offers.
  predicate SameThere(ini: Ini, after: Ini, g: WString, n: DWord) {
    SlotAt(after, g, n) == SlotAt(ini, g, n) && CountIn(after, g) == CountIn(ini, g)
  }

  lemma ItemElsewhere(ini: Ini, p: seq<DWord>, q: seq<DWord>, item: Item, n: DWord)
    requires p != q
    ensures SameThere(ini, WithItem(ini, Join(p), item), Join(q), n)
  {
    hide ItemSection, DirectorySection, Join, Decimal, ParseUInt, FirstPart, CStr;
    SectionNamesDistinct(p, item.id, q, n);
  }

  lemma ActiveElsewhere(ini: Ini, p: seq<DWord>, q: seq<DWord>, id: DWord, active: DWord, n: DWord)
    requires p != q
    ensures SameThere(ini, WithActive(ini, Join(p), id, active), Join(q), n)
  {
    hide ItemSection, DirectorySection, Join, Decimal, ParseUInt, FirstPart, CStr;
    SectionNamesDistinct(p, id, q, n);
  }

  lemma CountElsewhere(ini: Ini, p: seq<DWord>, q: seq<DWord>, delta: int, n: DWord)
    requires p != q
    ensures SameThere(ini, CountChanged(ini, Join(p), delta).ini, Join(q), n)
  {
    hide ItemSection, DirectorySection, Join, Decimal, ParseUInt, FirstPart, CStr, ToUInt;
    SectionNamesDistinct(p, 0, q, n);
  }

  lemma AddElsewhere(ini: Ini, p: seq<DWord>, q: seq<DWord>, item: Item, n: DWord)
    requires p != q
    ensures SameThere(ini, AfterAdd(ini, Join(p), item).ini, Join(q), n)
  {
    hide SlotAt, CountIn, WithItem, WithActive, CountChanged;
    var i1 := WithItem(ini, Join(p), item);
    ItemElsewhere(ini, p, q, item, n);
    ActiveElsewhere(i1, p, q, item.id, 1, n);
    CountElsewhere(WithActive(i1, Join(p), item.id, 1), p, q, 1, n);
  }

  lemma {:induction false} DeactivatedElsewhere(ini: Ini, p: seq<DWord>, q: seq<DWord>, ids: seq<DWord>, n: DWord)
    requires p != q
    ensures SameThere(ini, Deactivated(ini, Join(p), ids), Join(q), n)
    decreases |ids|
  {
    hide SlotAt, CountIn, WithActive;
    if ids != [] {
      var init := ids[..|ids| - 1];
      DeactivatedElsewhere(ini, p, q, init, n);
      ActiveElsewhere(Deactivated(ini, Join(p), init), p, q, ids[|ids| - 1], 0, n);
    }
  }

  lemma DeleteElsewhere(ini: Ini, p: seq<DWord>, q: seq<DWord>, ids: seq<DWord>, n: DWord)
    requires p != q
    ensures SameThere(ini, AfterDelete(ini, Join(p), ids).ini, Join(q), n)
  {
    hide SlotAt, CountIn, Deactivated, CountChanged;
    DeactivatedElsewhere(ini, p, q, ids, n);
    CountElsewhere(Deactivated(ini, Join(p), ids), p, q, -|ids|, n);
  }

  /**
   A sub folder writes its own count but reads the root's: adding an entry keeps a correct count
   of the sub folder exactly when the two counts happen to agree.
   */
  lemma SubFolderCount(ini: Ini, f: WString, item: Item)
    requires CountIn(ini, []) != NO_VALUE
    requires CountIn(ini, f) == |ActiveSlots(SlotsOf(ini, f))|
    requires !SlotsOf(ini, f)(item.id).IsActive()
    ensures var after := AfterAdd(ini, f, item).ini;
            CountIn(after, f) == |ActiveSlots(SlotsOf(after, f))| <==> CountIn(ini, []) == CountIn(ini, f)
  {
    hide SlotAt, SlotsOf, AfterAdd, CountIn, ActiveSlots;
    AddIsAdd(ini, f, item);
    AddedSlot(ini, f, item, item.id);
    AddCounts(SlotsOf(ini, f), SlotsOf(AfterAdd(ini, f, item).ini, f), item.id, item.size, FirstPart(CStr(item.name)));
  }

  /**
   Deleting keeps it exactly when the root's count exceeds that of the sub folder, in 32 bits, by
   the number of ids that hit nothing; for distinct active ids, when the two counts agree.
   */
  lemma SubFolderDelete(ini: Ini, f: WString, ids: seq<DWord>)
    requires CountIn(ini, []) != NO_VALUE && |ids| < 0x1_0000_0000
    requires CountIn(ini, f) == |ActiveSlots(SlotsOf(ini, f))|
    ensures var (v, after) := (SlotsOf(ini, f), AfterDelete(ini, f, ids).ini);
            var stillTrue := CountIn(after, f) == |ActiveSlots(SlotsOf(after, f))|;
            && (stillTrue <==> ToUInt(CountIn(ini, []) - CountIn(ini, f)) == |ids| - |Hit(v, ids)|)
            && (DistinctActive(v, ids) ==> (stillTrue <==> CountIn(ini, []) == CountIn(ini, f)))
  {
    hide SlotAt, SlotsOf, AfterDelete, CountIn, ActiveSlots, Hit, ToUInt;
    var v := SlotsOf(ini, f);
    DeleteIsDelete(ini, f, ids);
    DeletedSlot(ini, f, ids, 0);
    DeleteCounts(v, SlotsOf(AfterDelete(ini, f, ids).ini, f), ids);
    HitCount(v, ids);
    CountsApart(CountIn(ini, []), CountIn(ini, f), |ids|, |Hit(v, ids)|);
  }

  lemma CountsApart(root: DWord, count: DWord, ids: nat, hit: nat)
    requires hit <= count && hit <= ids < 0x1_0000_0000
    ensures ToUInt(root - ids) == count - hit <==> ToUInt(root - count) == ids - hit
    ensures ids == hit ==> (ToUInt(root - ids) == count - hit <==> root == count)
  {
  }
}
