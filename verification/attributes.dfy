/** Attributes of a selection, the delete command that is guarded by them, and the rename command. */
module Attributes {
  import opened Words
  import opened Pidl
  import opened VvvItem
  import opened Cida
  import opened VvvStore

  type Flags = bv32

  const SFGAO_CANCOPY: Flags := 0x1
  const SFGAO_CANMOVE: Flags := 0x2
  const SFGAO_CANRENAME: Flags := 0x10
  const SFGAO_CANDELETE: Flags := 0x20
  const SFGAO_HASPROPSHEET: Flags := 0x40
  const SFGAO_FOLDER: Flags := 0x2000_0000
  const SFGAO_HASSUBFOLDER: Flags := 0x8000_0000

  // The global answer that asks for a look at every item; also the start of that fold.
  const SFGAO_UNDEFINED: Flags := 0xFFFF_FFFF

  function And(x: Flags, y: Flags): Flags { x & y }

  function Xor(x: Flags, y: Flags): Flags { x ^ y }

  // True when the value has any of the bits of the mask.
  predicate IsBitSet(value: Flags, mask: Flags) { And(value, mask) != 0 }

  function GetAttributeOf(item: Item, single: bool, readOnly: bool): Flags {
    if item.folder then SFGAO_FOLDER | SFGAO_HASSUBFOLDER
    else
      SFGAO_CANCOPY
      | (if readOnly then 0 else SFGAO_CANRENAME | SFGAO_CANDELETE | SFGAO_CANMOVE)
      | (if single then SFGAO_HASPROPSHEET else 0)
  }

  /** Deleting is offered for plain items of a writable store, and for nothing else. */
  lemma CanDelete(item: Item, single: bool, readOnly: bool)
    ensures IsBitSet(GetAttributeOf(item, single, readOnly), SFGAO_CANDELETE) <==> !item.folder && !readOnly
  {
  }

  /** The AND over the first `k` items of what `attr` says of them. */
  function AndFirst(attr: Item -> Flags, items: seq<Item>, k: nat): Flags
    requires k <= |items|
  {
    if k == 0 then SFGAO_UNDEFINED else And(AndFirst(attr, items, k - 1), attr(items[k - 1]))
  }

  lemma {:induction false} AndOnlyLoses(attr: Item -> Flags, items: seq<Item>, j: nat, k: nat, mask: Flags)
    requires j <= k <= |items| && !IsBitSet(AndFirst(attr, items, j), mask)
    ensures !IsBitSet(AndFirst(attr, items, k), mask)
    decreases k - j
  {
    hide And, IsBitSet;
    if j < k {
      AndOnlyLoses(attr, items, j, k - 1, mask);
      AndLoses(AndFirst(attr, items, k - 1), attr(items[k - 1]), mask);
    }
  }

  lemma AndLoses(x: Flags, y: Flags, mask: Flags)
    requires !IsBitSet(x, mask)
    ensures !IsBitSet(And(x, y), mask)
  {
    assert (x & y) & mask == (x & mask) & y;
  }

  predicate OneBit(mask: Flags) { mask != 0 && mask & (mask - 1) == 0 }

  // Testing an AND is testing each part, for this pair of values.
  predicate SplitsAnd(mask: Flags, x: Flags, y: Flags) {
    IsBitSet(And(x, y), mask) <==> IsBitSet(x, mask) && IsBitSet(y, mask)
  }

  /** Testing the AND of attributes tests each of them exactly for masks of a single bit. */
  lemma OneBitExactly(mask: Flags)
    requires mask != 0
    ensures OneBit(mask) <==> forall x, y :: SplitsAnd(mask, x, y)
  {
    hide SplitsAnd, OneBit;
    if OneBit(mask) {
      forall x, y ensures SplitsAnd(mask, x, y) { OneBitSplits(mask, x, y); }
    } else {
      var x := mask & (mask - 1);
      SeveralBits(mask);
      LowestBitCleared(mask);
      PartOfMask(mask, mask - 1);
      LowestBitSplitOff(mask, x);
    }
  }

  lemma SeveralBits(mask: Flags)
    requires mask != 0 && !OneBit(mask)
    ensures mask & (mask - 1) != 0
  {
  }

  lemma OneBitSplits(mask: Flags, x: Flags, y: Flags)
    requires OneBit(mask)
    ensures SplitsAnd(mask, x, y)
  {
    OneBitOrNone(mask, x);
    OneBitOrNone(mask, y);
    AndOverAnd(x, y, mask);
    AndLaws(mask, And(x, mask));
    AndLaws(And(x, mask), And(y, mask));
    AndLaws(And(y, mask), And(x, mask));
    assert mask != 0;
    hide And, OneBit;
  }

  lemma AndOverAnd(x: Flags, y: Flags, mask: Flags)
    ensures And(And(x, y), mask) == And(And(x, mask), And(y, mask))
  {
  }

  lemma OneBitOrNone(mask: Flags, x: Flags)
    requires OneBit(mask)
    ensures And(x, mask) == 0 || And(x, mask) == mask
  {
  }

  // A mask of several bits falls into two parts that an AND of values can separate.
  lemma LowestBitSplitOff(mask: Flags, x: Flags)
    requires And(x, mask) == x && x != mask && x != 0
    ensures !SplitsAnd(mask, x, Xor(mask, x))
  {
    hide And, Xor;
    AndLaws(x, mask);
    AndLaws(mask, x);
    AndLaws(Xor(mask, x), mask);
    AndOverXor(x, mask, x);
    AndOverXor(mask, mask, x);
    XorZero(x, x);
    XorZero(mask, x);
  }

  lemma AndLaws(x: Flags, y: Flags)
    ensures And(x, y) == And(y, x) && And(x, x) == x && And(0, y) == 0
  {
  }

  lemma AndOverXor(x: Flags, y: Flags, z: Flags)
    ensures And(x, Xor(y, z)) == Xor(And(x, y), And(x, z))
  {
  }

  lemma XorZero(x: Flags, y: Flags)
    ensures Xor(x, y) == 0 <==> x == y
  {
  }

  lemma PartOfMask(mask: Flags, y: Flags)
    ensures And(mask & y, mask) == mask & y
  {
  }

  lemma LowestBitCleared(mask: Flags)
    requires mask != 0
    ensures mask & (mask - 1) != mask
  {
  }

  /** For a single bit the AND over a selection has it exactly when every item has it. */
  lemma {:induction false} AndHasBit(attr: Item -> Flags, items: seq<Item>, k: nat, mask: Flags)
    requires k <= |items| && OneBit(mask)
    ensures IsBitSet(AndFirst(attr, items, k), mask) <==> forall i :: 0 <= i < k ==> IsBitSet(attr(items[i]), mask)
  {
    hide And, IsBitSet, OneBit;
    if k == 0 {
      AllBitsSet(mask);
    } else {
      AndHasBit(attr, items, k - 1, mask);
      OneBitSplits(mask, AndFirst(attr, items, k - 1), attr(items[k - 1]));
    }
  }

  lemma AllBitsSet(mask: Flags)
    requires OneBit(mask)
    ensures IsBitSet(SFGAO_UNDEFINED, mask)
  {
    assert SFGAO_UNDEFINED & mask == mask;
  }

  // --- the folds over a selection ------------------------------------------------------------

  function AttributesFor(count: nat, readOnly: bool): Item -> Flags {
    item => GetAttributeOf(item, count == 1, readOnly)
  }

  // The children from `i` on, up to the first one that is not read as an item.
  function ItemsFrom(b: seq<Byte>, i: nat): seq<Item>
    requires |b| >= 4 && i <= Count(b)
    decreases Count(b) - i
  {
    if i == Count(b) || !Child(b, i).Read? then [] else [Child(b, i).item] + ItemsFrom(b, i + 1)
  }

  lemma {:induction false} ItemsFromExact(b: seq<Byte>, i: nat)
    requires |b| >= 4 && i <= Count(b)
    ensures var items := ItemsFrom(b, i);
            && |items| <= Count(b) - i
            && (forall k :: i <= k < i + |items| ==> Child(b, k) == Read(items[k - i]))
            && (|items| < Count(b) - i ==> !Child(b, i + |items|).Read?)
    decreases Count(b) - i
  {
    hide Child, Get32;
    if i < Count(b) && Child(b, i).Read? { ItemsFromExact(b, i + 1); }
  }

  /** The children up to the first one that is refused or lies outside the buffer, */
  function Children(b: seq<Byte>): seq<Item>
    requires |b| >= 4
  {
    ItemsFrom(b, 0)
  }

  /** and what that one is, if there is one. */
  function FirstBad(b: seq<Byte>): Option<Probe>
    requires |b| >= 4
  {
    if |Children(b)| < Count(b) then Some(Child(b, |Children(b)|)) else None
  }

  lemma ChildrenExact(b: seq<Byte>)
    requires |b| >= 4
    ensures |Children(b)| <= Count(b)
    ensures forall k :: 0 <= k < |Children(b)| ==> Child(b, k) == Read(Children(b)[k])
    ensures |Children(b)| < Count(b) ==> FirstBad(b) == Some(Child(b, |Children(b)|)) && !Child(b, |Children(b)|).Read?
  {
    hide Child, Get32, ItemsFrom;
    ItemsFromExact(b, 0);
  }

  datatype Test = Has(yes: bool) | ItemRefused | ItemOutside

  /** The AND over the items decides if it can; otherwise what stopped them counts. */
  function Answer(attr: Item -> Flags, items: seq<Item>, bad: Option<Probe>, mask: Flags): Test {
    if items != [] && !IsBitSet(AndFirst(attr, items, |items|), mask) then Has(false)
    else if bad == None then Has(true)
    else if bad == Some(Outside) then ItemOutside
    else ItemRefused
  }

  /**
   HasAttributesOf on any block with a count; an early exit may forestall the exception of a refused
   item. Without a global answer, and if all items are valid, it is the AND over all of them that counts.
   */
  method HasAttributesOf(b: seq<Byte>, global: Flags, readOnly: bool, mask: Flags) returns (r: Test)
    requires |b| >= 4
    ensures r == if global != SFGAO_UNDEFINED then Has(IsBitSet(global, mask))
                 else Answer(AttributesFor(Count(b), readOnly), Children(b), FirstBad(b), mask)
  {
    hide And, IsBitSet, GetAttributeOf, Child, Children, FirstBad, Get32;
    ChildrenExact(b);
    if global != SFGAO_UNDEFINED {
      return Has(IsBitSet(global, mask));
    }
    ghost var items, attr := Children(b), AttributesFor(Count(b), readOnly);
    var sfgaof := SFGAO_UNDEFINED;
    var i := 0;
    while i < Count(b)
      invariant 0 <= i <= |items|
      invariant sfgaof == AndFirst(attr, items, i)
      invariant i > 0 ==> IsBitSet(sfgaof, mask)
    {
      var item := Child(b, i);
      if item == Refused { return ItemRefused; }
      if item == Outside { return ItemOutside; }
      assert item.item == items[i];
      sfgaof := And(sfgaof, GetAttributeOf(item.item, Count(b) == 1, readOnly));
      if !IsBitSet(sfgaof, mask) {
        AndOnlyLoses(attr, items, i + 1, |items|, mask);
        return Has(false);
      }
      i := i + 1;
    }
    NoneBad(b);
    return Has(true);
  }

  lemma NoneBad(b: seq<Byte>)
    requires |b| >= 4 && |Children(b)| == Count(b)
    ensures FirstBad(b) == None
  {
  }

  /** All children are read as items. */
  predicate AllRead(b: seq<Byte>) { |b| >= 4 && ReadUpTo(b, Count(b)) }

  /** The first child that is not read as an item is of this kind. */
  predicate StopsWith(b: seq<Byte>, bad: Probe) {
    |b| >= 4 && exists k :: 0 <= k < Count(b) && ReadUpTo(b, k) && Child(b, k) == bad
  }

  /** The first `k` children are items that have the bit. */
  predicate HaveUpTo(b: seq<Byte>, k: nat, readOnly: bool, bit: Flags)
    requires |b| >= 4 && ReadUpTo(b, k)
  {
    forall j :: 0 <= j < k ==> IsBitSet(GetAttributeOf(Child(b, j).item, Count(b) == 1, readOnly), bit)
  }

  /** The first child that is not read as an item is of this kind, and all before it have the bit. */
  predicate StopsBehind(b: seq<Byte>, bad: Probe, readOnly: bool, bit: Flags) {
    |b| >= 4 && exists k :: 0 <= k < Count(b) && ReadUpTo(b, k) && Child(b, k) == bad && HaveUpTo(b, k, readOnly, bit)
  }

  /**
   For a single bit the test of a selection says no exactly if, before any child that is not an
   item, one lacks the bit; it says yes exactly if all children are items that have it; and it
   fails exactly if the first other child comes behind items that all have it.
   */
  lemma TestExactly(b: seq<Byte>, readOnly: bool, bit: Flags)
    requires |b| >= 4 && OneBit(bit)
    ensures var r := Answer(AttributesFor(Count(b), readOnly), Children(b), FirstBad(b), bit);
            && (r == Has(false) <==> exists k :: 0 <= k <= Count(b) && ReadUpTo(b, k) && !HaveUpTo(b, k, readOnly, bit))
            && (r == Has(true) <==> AllRead(b) && HaveUpTo(b, Count(b), readOnly, bit))
            && (r == ItemRefused <==> StopsBehind(b, Refused, readOnly, bit))
            && (r == ItemOutside <==> StopsBehind(b, Outside, readOnly, bit))
  {
    var items, attr, n := Children(b), AttributesFor(Count(b), readOnly), |Children(b)|;
    hide Child, Children, FirstBad, Get32, StopsBehind, HaveUpTo, ReadUpTo, AllRead, IsBitSet, OneBit;
    AndHasBit(attr, items, n, bit);
    ChildrenHave(b, readOnly, bit);
    AnswerCases(attr, items, FirstBad(b), bit, HaveUpTo(b, n, readOnly, bit));
    hide *;
  }

  lemma AnswerCases(attr: Item -> Flags, items: seq<Item>, bad: Option<Probe>, mask: Flags, have: bool)
    requires (items == [] ==> have) && (have <==> IsBitSet(AndFirst(attr, items, |items|), mask))
    ensures Answer(attr, items, bad, mask) ==
            if !have then Has(false)
            else if bad == None then Has(true)
            else if bad == Some(Outside) then ItemOutside
            else ItemRefused
  {
  }

  // The same, in terms of the children up to the first one that is not an item.
  lemma ChildrenHave(b: seq<Byte>, readOnly: bool, bit: Flags)
    requires |b| >= 4
    ensures var (items, attr) := (Children(b), AttributesFor(Count(b), readOnly));
            && ReadUpTo(b, |items|)
            && (HaveUpTo(b, |items|, readOnly, bit) <==> forall i :: 0 <= i < |items| ==> IsBitSet(attr(items[i]), bit))
            && ((exists k :: 0 <= k <= Count(b) && ReadUpTo(b, k) && !HaveUpTo(b, k, readOnly, bit)) <==>
                !HaveUpTo(b, |items|, readOnly, bit))
            && (AllRead(b) <==> FirstBad(b) == None) && (AllRead(b) ==> |items| == Count(b))
            && (items == [] ==> HaveUpTo(b, 0, readOnly, bit))
            && (FirstBad(b).Some? ==> !FirstBad(b).value.Read?)
            && (StopsBehind(b, Refused, readOnly, bit) <==>
                FirstBad(b) == Some(Refused) && HaveUpTo(b, |items|, readOnly, bit))
            && (StopsBehind(b, Outside, readOnly, bit) <==>
                FirstBad(b) == Some(Outside) && HaveUpTo(b, |items|, readOnly, bit))
  {
    hide Child, Children, FirstBad, Get32, And, IsBitSet, GetAttributeOf;
    ChildrenEnd(b);
    ItemsHave(b, readOnly, bit);
    StopKind(b, Refused, readOnly, bit);
    StopKind(b, Outside, readOnly, bit);
    hide StopsBehind, ReadUpTo, IsBitSet, AllRead;
  }

  lemma ChildrenEnd(b: seq<Byte>)
    requires |b| >= 4
    ensures var n := |Children(b)|;
            && n <= Count(b) && ReadUpTo(b, n)
            && (forall k :: 0 <= k <= Count(b) && ReadUpTo(b, k) ==> k <= n)
            && (AllRead(b) <==> FirstBad(b) == None) && (AllRead(b) ==> n == Count(b))
            && (FirstBad(b).Some? ==> n < Count(b) && FirstBad(b).value == Child(b, n) && !Child(b, n).Read?)
  {
    ChildrenExact(b);
    hide Child, Children, Get32;
  }

  lemma ItemsHave(b: seq<Byte>, readOnly: bool, bit: Flags)
    requires |b| >= 4 && ReadUpTo(b, |Children(b)|)
    ensures var (items, attr) := (Children(b), AttributesFor(Count(b), readOnly));
            HaveUpTo(b, |items|, readOnly, bit) <==> forall i :: 0 <= i < |items| ==> IsBitSet(attr(items[i]), bit)
  {
    ChildrenExact(b);
    hide Child, Children, Get32, IsBitSet, GetAttributeOf, ReadUpTo;
    assert forall j :: 0 <= j < |Children(b)| ==> Child(b, j).item == Children(b)[j];
  }

  lemma StopKind(b: seq<Byte>, bad: Probe, readOnly: bool, bit: Flags)
    requires |b| >= 4 && !bad.Read? && ReadUpTo(b, |Children(b)|)
    ensures StopsBehind(b, bad, readOnly, bit) <==>
            FirstBad(b) == Some(bad) && HaveUpTo(b, |Children(b)|, readOnly, bit)
  {
    ChildrenEnd(b);
    hide Child, Children, Get32, FirstBad, HaveUpTo;
    if StopsBehind(b, bad, readOnly, bit) {
      var k :| 0 <= k < Count(b) && ReadUpTo(b, k) && Child(b, k) == bad && HaveUpTo(b, k, readOnly, bit);
      assert k == |Children(b)|;
    }
  }

  // What an array of child lists has to be: complete lists, none of them empty.
  predicate ChildLists(apidl: seq<seq<Byte>>) {
    forall i :: 0 <= i < |apidl| ==> ValidAt(apidl[i], 0) && Cb(apidl[i], 0) != 0
  }

  predicate AreItems(apidl: seq<seq<Byte>>, items: seq<Item>)
    requires ChildLists(apidl)
  {
    |items| == |apidl| && AreFirst(apidl, items)
  }

  predicate AreFirst(apidl: seq<seq<Byte>>, items: seq<Item>)
    requires ChildLists(apidl)
  {
    |items| <= |apidl| && forall i :: 0 <= i < |items| ==> Construct(apidl[i], 0) == Some(items[i])
  }

  lemma AreFirstAppend(apidl: seq<seq<Byte>>, items: seq<Item>, item: Item)
    requires ChildLists(apidl)
    requires AreFirst(apidl, items) && |items| < |apidl| && Construct(apidl[|items|], 0) == Some(item)
    ensures AreFirst(apidl, items + [item])
  {
    hide Construct, ValidAt, Cb;
  }

  lemma FirstAreItems(apidl: seq<seq<Byte>>, items: seq<Item>)
    requires ChildLists(apidl)
    requires AreFirst(apidl, items) && |items| == |apidl|
    ensures AreItems(apidl, items) && forall i :: 0 <= i < |apidl| ==> Construct(apidl[i], 0).Some?
  {
    hide Construct, ValidAt, Cb;
  }

  // Everything that is ever said of an item.
  const SFGAO_OFFERED: Flags :=
    SFGAO_CANCOPY | SFGAO_CANMOVE | SFGAO_CANRENAME | SFGAO_CANDELETE | SFGAO_HASPROPSHEET | SFGAO_FOLDER | SFGAO_HASSUBFOLDER

  predicate AllFolders(items: seq<Item>) { forall i :: 0 <= i < |items| ==> items[i].folder }

  predicate AllPlain(items: seq<Item>) { forall i :: 0 <= i < |items| ==> !items[i].folder }

  /** The bit is in the answer exactly under this condition, provided that it was requested. */
  predicate Says(answer: Flags, requested: Flags, bit: Flags, condition: bool) {
    requested & bit != 0 ==> (answer & bit != 0 <==> condition)
  }

  /**
   What an answer for these items says: folders are folders that may have sub folders, plain items
   can be copied, in a writable store also moved, renamed and deleted, and a single one has a
   property sheet; that, as far as it is true of all items and was requested, and nothing else.
   */
  predicate TellsAttributes(answer: Flags, items: seq<Item>, readOnly: bool, requested: Flags) {
    && answer & !requested == 0
    && (items == [] ==> answer == requested)
    && (items != [] ==>
          && answer & !SFGAO_OFFERED == 0
          && Says(answer, requested, SFGAO_FOLDER, AllFolders(items))
          && Says(answer, requested, SFGAO_HASSUBFOLDER, AllFolders(items))
          && Says(answer, requested, SFGAO_CANCOPY, AllPlain(items))
          && Says(answer, requested, SFGAO_CANMOVE, AllPlain(items) && !readOnly)
          && Says(answer, requested, SFGAO_CANRENAME, AllPlain(items) && !readOnly)
          && Says(answer, requested, SFGAO_CANDELETE, AllPlain(items) && !readOnly)
          && Says(answer, requested, SFGAO_HASPROPSHEET, AllPlain(items) && |items| == 1))
  }

  /** The requested part of the AND over a selection says just that. */
  lemma AnswerTells(items: seq<Item>, readOnly: bool, requested: Flags)
    ensures var all := AndFirst(AttributesFor(|items|, readOnly), items, |items|);
            TellsAttributes(And(all, requested), items, readOnly, requested)
  {
    var attr := AttributesFor(|items|, readOnly);
    var all := AndFirst(attr, items, |items|);
    RequestedPart(all, requested);
    if items == [] {
      assert And(SFGAO_UNDEFINED, requested) == requested;
    } else {
      OnlyOffered(items, readOnly);
      PartOffered(all, requested);
      FoldBits(items, readOnly);
      SaysBit(all, requested, SFGAO_FOLDER);
      SaysBit(all, requested, SFGAO_HASSUBFOLDER);
      SaysBit(all, requested, SFGAO_CANCOPY);
      SaysBit(all, requested, SFGAO_CANMOVE);
      SaysBit(all, requested, SFGAO_CANRENAME);
      SaysBit(all, requested, SFGAO_CANDELETE);
      SaysBit(all, requested, SFGAO_HASPROPSHEET);
      hide *;
    }
  }

  lemma RequestedPart(all: Flags, requested: Flags)
    ensures And(all, requested) & !requested == 0
  {
  }

  lemma PartOffered(all: Flags, requested: Flags)
    requires !IsBitSet(all, !SFGAO_OFFERED)
    ensures And(all, requested) & !SFGAO_OFFERED == 0
  {
    AndLoses(all, requested, !SFGAO_OFFERED);
  }

  lemma SaysBit(all: Flags, requested: Flags, bit: Flags)
    requires OneBit(bit)
    ensures Says(And(all, requested), requested, bit, IsBitSet(all, bit))
  {
    OneBitSplits(bit, all, requested);
  }

  // No item has a bit that is not offered, so neither has the AND.
  lemma OnlyOffered(items: seq<Item>, readOnly: bool)
    requires items != []
    ensures !IsBitSet(AndFirst(AttributesFor(|items|, readOnly), items, |items|), !SFGAO_OFFERED)
  {
    var attr := AttributesFor(|items|, readOnly);
    NothingElse(items[0], |items| == 1, readOnly);
    FirstItem(attr, items, !SFGAO_OFFERED);
    AndOnlyLoses(attr, items, 1, |items|, !SFGAO_OFFERED);
  }

  lemma FirstItem(attr: Item -> Flags, items: seq<Item>, mask: Flags)
    requires items != [] && !IsBitSet(attr(items[0]), mask)
    ensures !IsBitSet(AndFirst(attr, items, 1), mask)
  {
    hide And, IsBitSet;
    AndLaws(SFGAO_UNDEFINED, attr(items[0]));
    AndLoses(attr(items[0]), SFGAO_UNDEFINED, mask);
    assert AndFirst(attr, items, 1) == And(AndFirst(attr, items, 0), attr(items[0]));
  }

  lemma NothingElse(item: Item, single: bool, readOnly: bool)
    ensures !IsBitSet(GetAttributeOf(item, single, readOnly), !SFGAO_OFFERED)
  {
  }

  lemma ItemBits(item: Item, single: bool, readOnly: bool)
    ensures var a := GetAttributeOf(item, single, readOnly);
            && (IsBitSet(a, SFGAO_FOLDER) <==> item.folder) && (IsBitSet(a, SFGAO_HASSUBFOLDER) <==> item.folder)
            && (IsBitSet(a, SFGAO_CANCOPY) <==> !item.folder)
            && (IsBitSet(a, SFGAO_CANMOVE) <==> !item.folder && !readOnly)
            && (IsBitSet(a, SFGAO_CANRENAME) <==> !item.folder && !readOnly)
            && (IsBitSet(a, SFGAO_CANDELETE) <==> !item.folder && !readOnly)
            && (IsBitSet(a, SFGAO_HASPROPSHEET) <==> !item.folder && single)
  {
  }

  // The bits of the AND over a non-empty selection.
  lemma FoldBits(items: seq<Item>, readOnly: bool)
    requires items != []
    ensures var all := AndFirst(AttributesFor(|items|, readOnly), items, |items|);
            && (IsBitSet(all, SFGAO_FOLDER) <==> AllFolders(items))
            && (IsBitSet(all, SFGAO_HASSUBFOLDER) <==> AllFolders(items))
            && (IsBitSet(all, SFGAO_CANCOPY) <==> AllPlain(items))
            && (IsBitSet(all, SFGAO_CANMOVE) <==> AllPlain(items) && !readOnly)
            && (IsBitSet(all, SFGAO_CANRENAME) <==> AllPlain(items) && !readOnly)
            && (IsBitSet(all, SFGAO_CANDELETE) <==> AllPlain(items) && !readOnly)
            && (IsBitSet(all, SFGAO_HASPROPSHEET) <==> AllPlain(items) && |items| == 1)
  {
    var attr, n := AttributesFor(|items|, readOnly), |items|;
    AndHasBit(attr, items, n, SFGAO_FOLDER);
    AndHasBit(attr, items, n, SFGAO_HASSUBFOLDER);
    AndHasBit(attr, items, n, SFGAO_CANCOPY);
    AndHasBit(attr, items, n, SFGAO_CANMOVE);
    AndHasBit(attr, items, n, SFGAO_CANRENAME);
    AndHasBit(attr, items, n, SFGAO_CANDELETE);
    AndHasBit(attr, items, n, SFGAO_HASPROPSHEET);
    hide And, IsBitSet, GetAttributeOf, AndFirst;
    forall i | 0 <= i < n { ItemBits(items[i], n == 1, readOnly); }
  }

  /** GetAttributesOf on an array of lists; `None` is the exception of an invalid item. */
  method GetAttributesOf(apidl: seq<seq<Byte>>, global: Flags, readOnly: bool, requested: Flags) returns (r: Option<Flags>)
    requires ChildLists(apidl)
    ensures global != SFGAO_UNDEFINED ==> r == Some(And(global, requested))
    ensures global == SFGAO_UNDEFINED ==>
              (r.Some? <==> forall i :: 0 <= i < |apidl| ==> Construct(apidl[i], 0).Some?)
    ensures global == SFGAO_UNDEFINED && r.Some? ==>
              forall items :: AreItems(apidl, items) ==>
                                && r.value == And(AndFirst(AttributesFor(|apidl|, readOnly), items, |items|), requested)
                                && TellsAttributes(r.value, items, readOnly, requested)
  {
    if global != SFGAO_UNDEFINED {
      return Some(And(global, requested));
    }
    var sfgaof, items := AndOfLists(apidl, readOnly);
    if sfgaof.None? { return None; }
    ItemsUnique(apidl, items);
    AnswerTells(items, readOnly, requested);
    hide *;
    return Some(And(sfgaof.value, requested));
  }

  // The loop over the lists; `items` are what they hold.
  method AndOfLists(apidl: seq<seq<Byte>>, readOnly: bool) returns (r: Option<Flags>, ghost items: seq<Item>)
    requires ChildLists(apidl)
    ensures r.Some? <==> forall i :: 0 <= i < |apidl| ==> Construct(apidl[i], 0).Some?
    ensures r.Some? ==> AreItems(apidl, items) && r.value == AndFirst(AttributesFor(|apidl|, readOnly), items, |items|)
  {
    ghost var attr := AttributesFor(|apidl|, readOnly);
    var sfgaof := SFGAO_UNDEFINED;
    items := [];
    assert sfgaof == AndFirst(attr, items, 0) && AreFirst(apidl, items);
    hide And, AndFirst, Construct, GetAttributeOf, ValidAt, Cb, ChildLists, AreFirst, AreItems;
    for i := 0 to |apidl|
      invariant |items| == i && AreFirst(apidl, items)
      invariant sfgaof == AndFirst(attr, items, i)
    {
      var item := Construct(apidl[i], 0);
      if item.None? { return None, items; }
      sfgaof := And(sfgaof, GetAttributeOf(item.value, |apidl| == 1, readOnly));
      AndAppend(attr, items, item.value);
      AreFirstAppend(apidl, items, item.value);
      items := items + [item.value];
    }
    FirstAreItems(apidl, items);
    return Some(sfgaof), items;
  }

  lemma ItemsUnique(apidl: seq<seq<Byte>>, seen: seq<Item>)
    requires ChildLists(apidl)
    requires AreItems(apidl, seen)
    ensures forall items :: AreItems(apidl, items) ==> items == seen
  {
    hide Construct, ValidAt;
    forall items | AreItems(apidl, items) ensures items == seen {
      assert forall i :: 0 <= i < |items| ==> Some(items[i]) == Some(seen[i]);
    }
  }

  /**
   On a non-empty selection of valid items and for a single bit, the early-exit test, the bit in
   the answer of GetAttributesOf, and every item having the bit are one and the same.
   */
  lemma TestsAgree(attr: Item -> Flags, items: seq<Item>, mask: Flags)
    requires items != [] && OneBit(mask)
    ensures Answer(attr, items, None, mask) == Has(And(AndFirst(attr, items, |items|), mask) == mask)
    ensures Answer(attr, items, None, mask) == Has(forall i :: 0 <= i < |items| ==> IsBitSet(attr(items[i]), mask))
  {
    AndHasBit(attr, items, |items|, mask);
    OneBitOrNone(mask, AndFirst(attr, items, |items|));
  }

  lemma AndAppend(attr: Item -> Flags, items: seq<Item>, item: Item)
    ensures AndFirst(attr, items + [item], |items| + 1) == And(AndFirst(attr, items, |items|), attr(item))
  {
    hide And;
    AndOfPrefix(attr, items, item, |items|);
  }

  lemma {:induction false} AndOfPrefix(attr: Item -> Flags, items: seq<Item>, item: Item, k: nat)
    requires k <= |items|
    ensures AndFirst(attr, items + [item], k) == AndFirst(attr, items, k)
  {
    if k > 0 { AndOfPrefix(attr, items, item, k - 1); }
  }

  // --- the delete command --------------------------------------------------------------------

  datatype Deletion = NothingSelected | SelectionInvalid | SelectionOutside | NotAllowed | Aborted | CountMissing | Deleted

  /** Some child is a folder. */
  predicate SomeFolder(b: seq<Byte>)
    requires AllRead(b)
  {
    exists k :: 0 <= k < Count(b) && Child(b, k).item.folder
  }

  function ChildIds(b: seq<Byte>): (ids: seq<DWord>)
    requires AllRead(b)
    ensures |ids| == Count(b) && forall k :: 0 <= k < Count(b) ==> ids[k] == Child(b, k).item.id
  {
    seq(Count(b), k requires 0 <= k < Count(b) => Child(b, k).item.id)
  }

  /**
   OnDeleteFromDataObject with OnDelete of the sample, on any block. The children are deleted
   exactly if there are any, all of them are plain items, the store is writable and the user, where
   asked, has confirmed; in all other cases the store stays as it is, and the first check that fails
   gives the answer.
   */
  method OnDeleteFromDataObject(file: VVVFile, b: seq<Byte>, readOnly: bool, hasWindow: bool, confirmed: bool)
    returns (r: Deletion)
    modifies file.file
    ensures r == SelectionOutside <==> |b| < 4 || StopsWith(b, Outside)
    ensures r == NothingSelected <==> |b| >= 4 && Count(b) == 0
    ensures r == SelectionInvalid <==> StopsWith(b, Refused)
    ensures r == NotAllowed <==> AllRead(b) && Count(b) != 0 && (readOnly || SomeFolder(b))
    ensures r == Aborted <==>
            AllRead(b) && Count(b) != 0 && !readOnly && !SomeFolder(b) && !hasWindow && !confirmed
    ensures r == Deleted || r == CountMissing <==>
            AllRead(b) && Count(b) != 0 && !readOnly && !SomeFolder(b) && (hasWindow || confirmed)
    ensures if r == Deleted || r == CountMissing
            then && file.file.sections == AfterDelete(old(file.file.sections), file.folder, ChildIds(b)).ini
                 && (r == CountMissing <==> CountIn(old(file.file.sections), []) == 0xFFFF_FFFF)
            else file.file.sections == old(file.file.sections)
  {
    if |b| < 4 { return SelectionOutside; }
    hide Child, AfterDelete, Children, FirstBad, Get32, CountIn, StopsWith, SomeFolder, AllRead, ChildIds;
    ChildrenExact(b);
    OnlyOneStop(b);
    if Count(b) == 0 { return NothingSelected; }
    var items := RetrieveItems(b);
    RetrievedChildren(b, items);
    if items.InvalidChild? { return SelectionInvalid; }
    if items.OutOfBuffer? { return SelectionOutside; }
    var has := HasAttributesOf(b, SFGAO_UNDEFINED, readOnly, SFGAO_CANDELETE);
    SelectionCanDelete(items.items, readOnly);
    if has != Has(true) { return NotAllowed; }
    if !hasWindow && !confirmed { return Aborted; }
    DeletedSlot(file.file.sections, file.folder, Ids(items.items), 0);
    var ok := file.DeleteItems(items.items);
    return if ok then Deleted else CountMissing;
  }

  // A block stops with one kind of child, or with none.
  lemma OnlyOneStop(b: seq<Byte>)
    requires |b| >= 4
    ensures AllRead(b) ==> !StopsWith(b, Refused) && !StopsWith(b, Outside)
    ensures !(StopsWith(b, Refused) && StopsWith(b, Outside))
    ensures Count(b) == 0 ==> AllRead(b)
  {
    hide Child, Get32;
  }

  // RetrieveItems returns the children, or what kept it from doing so.
  lemma RetrievedChildren(b: seq<Byte>, r: Retrieved)
    requires |b| >= 4
    requires r.Retrieved? <==> ReadUpTo(b, Count(b))
    requires r.Retrieved? ==> |r.items| == Count(b) && forall i :: 0 <= i < Count(b) ==> Child(b, i) == Read(r.items[i])
    requires r.InvalidChild? <==> exists k :: 0 <= k < Count(b) && ReadUpTo(b, k) && Child(b, k) == Refused
    ensures r.Retrieved? <==> AllRead(b)
    ensures r.Retrieved? ==>
              && r.items == Children(b) && FirstBad(b) == None && Ids(r.items) == ChildIds(b)
              && (AllPlain(r.items) <==> !SomeFolder(b))
    ensures r.InvalidChild? <==> StopsWith(b, Refused)
    ensures r.OutOfBuffer? ==> StopsWith(b, Outside)
  {
    hide Child, Get32, ItemsFrom, Children;
    ChildrenExact(b);
    var n := |Children(b)|;
    if r.Retrieved? {
      assert forall i :: 0 <= i < n ==> Read(r.items[i]) == Read(Children(b)[i]);
      assert forall i :: 0 <= i < Count(b) ==> Child(b, i).item == r.items[i];
    } else {
      assert ReadUpTo(b, n);
    }
  }

  /** A non-empty selection may be deleted exactly when all of it is plain and the store is writable. */
  lemma SelectionCanDelete(items: seq<Item>, readOnly: bool)
    requires items != []
    ensures IsBitSet(AndFirst(AttributesFor(|items|, readOnly), items, |items|), SFGAO_CANDELETE) <==>
            AllPlain(items) && !readOnly
  {
    var attr := AttributesFor(|items|, readOnly);
    AndHasBit(attr, items, |items|, SFGAO_CANDELETE);
    forall i | 0 <= i < |items|
      ensures IsBitSet(attr(items[i]), SFGAO_CANDELETE) <==> !items[i].folder && !readOnly
    {
      CanDelete(items[i], |items| == 1, readOnly);
    }
  }

  // --- the rename command --------------------------------------------------------------------

  // The two kinds of name the sample can set.
  const SHGDN_NORMAL: DWord := 0
  const SHGDN_INFOLDER: DWord := 1

  /**
   OnSetNameOf of the sample: writes the new name to the slot the item's id names and returns a
   list with the new name. `None` is the exception for other kinds of name, or the abort of a name
   that does not fit; then the store is unchanged.
   */
  method OnSetNameOf(mem: TaskMemory, file: VVVFile, item: Item, newName: WString, shgndf: DWord)
    returns (r: Option<array<Byte>>)
    modifies mem, file.file
    ensures r.Some? <==> shgndf in {SHGDN_NORMAL, SHGDN_INFOLDER} && |CStr(newName)| < MAX_PATH
    ensures r.None? ==> file.file.sections == old(file.file.sections)
    ensures r.Some? ==> var renamed := item.(name := CStr(newName));
                        && file.file.sections == WithItem(old(file.file.sections), file.folder, renamed)
                        && fresh(r.value) && HoldsItem(r.value[..], renamed)
  {
    if shgndf != SHGDN_NORMAL && shgndf != SHGDN_INFOLDER { return None; }
    r := CreateItemIdList(mem, item.id, item.size, item.folder, newName);
    if r.Some? {
      HoldsItemDecodes(r.value[..], item.(name := CStr(newName)));
      var renamed := Construct(r.value[..], 0);
      file.SetItem(renamed.value);
    }
  }
}
