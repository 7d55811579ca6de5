/** How the shell folder orders items and whole item-ID lists. */
module Ordering {
  import opened Words
  import opened HResults
  import opened Pidl
  import opened VvvItem

  const COLUMN_NAME: Word := 0
  const COLUMN_SIZE: Word := 1
  const SHCIDS_ALLFIELDS: DWord := 0x8000_0000

  /** StrCmpW, whose result depends on the locale. */
  type StringOrder = (WString, WString) -> int

  /** A three-way comparison that orders all values and leaves ties only between equivalent ones. */
  ghost predicate TotalPreorder<T(!new)>(c: (T, T) -> int) {
    && (forall x, y {:trigger c(x, y)} :: Sign(c(x, y)) == -Sign(c(y, x)))
    && (forall x, y, z {:trigger c(x, y), c(y, z)} :: c(x, y) <= 0 && c(y, z) <= 0 ==> c(x, z) <= 0)
  }

  /** What is asked of StrCmpW: an order, with results that fit a signed 16-bit integer. */
  ghost predicate IsStringOrder(cmp: StringOrder) {
    TotalPreorder(cmp) && forall s, t :: -0x8000 <= cmp(s, t) < 0x8000
  }

  function UIntCmp(m: DWord, n: DWord): int {
    if m < n then -1 else if m > n then 1 else 0
  }

  // --- one item against another ------------------------------------------------------------

  function CompareByName(cmp: StringOrder, x: Item, y: Item): int {
    if x.folder && !y.folder then -1
    else if !x.folder && y.folder then 1
    else
      var nResult := cmp(x.name, y.name);
      if nResult != 0 then nResult else UIntCmp(x.id, y.id)
  }

  /** VVVItem::Compare; an unknown column makes any two items different. */
  function Compare(cmp: StringOrder, x: Item, y: Item, compareBy: Word): int {
    if compareBy == COLUMN_NAME then CompareByName(cmp, x, y)
    else if compareBy == COLUMN_SIZE then UIntCmp(x.size, y.size)
    else 1
  }

  // The first column from `i` on that tells the items apart decides.
  function CompareColumns(cmp: StringOrder, x: Item, y: Item, i: nat, columns: nat): int
    decreases columns - i
  {
    if i >= columns then 0
    else
      var nResult := Compare(cmp, x, y, ToUShort(i));
      if nResult != 0 then nResult else CompareColumns(cmp, x, y, i + 1, columns)
  }

  method CompareIDsAllFields(cmp: StringOrder, columns: nat, x: Item, y: Item) returns (nResult: int)
    ensures nResult == CompareColumns(cmp, x, y, 0, columns)
  {
    nResult := 0;
    var i := 0;
    while i < columns
      invariant 0 <= i <= columns && nResult == 0
      invariant CompareColumns(cmp, x, y, 0, columns) == CompareColumns(cmp, x, y, i, columns)
    {
      nResult := Compare(cmp, x, y, ToUShort(i));
      if nResult != 0 { return; }
      i := i + 1;
    }
  }

  function CompareItems(cmp: StringOrder, columns: nat, lParam: DWord, x: Item, y: Item): int {
    if lParam >= SHCIDS_ALLFIELDS then CompareColumns(cmp, x, y, 0, columns)
    else Compare(cmp, x, y, ToUShort(lParam))
  }

  function ItemOrder(cmp: StringOrder, columns: nat, lParam: DWord): (Item, Item) -> int {
    (x, y) => CompareItems(cmp, columns, lParam, x, y)
  }

  /** Comparisons that only ever look at registered columns. */
  predicate LegalMode(columns: nat, lParam: DWord) {
    if lParam >= SHCIDS_ALLFIELDS then columns <= 2 else ToUShort(lParam) <= 1
  }

  lemma ByNameIsOrder(cmp: StringOrder, x: Item, y: Item, z: Item)
    requires IsStringOrder(cmp)
    ensures Sign(CompareByName(cmp, x, y)) == -Sign(CompareByName(cmp, y, x))
    ensures CompareByName(cmp, x, y) <= 0 && CompareByName(cmp, y, z) <= 0 ==> CompareByName(cmp, x, z) <= 0
    ensures CompareByName(cmp, x, y) == 0 <==>
            x.folder == y.folder && cmp(x.name, y.name) == 0 && x.id == y.id
    ensures CompareByName(cmp, x, y) < 0 <==>
            || (x.folder && !y.folder)
            || (x.folder == y.folder && (cmp(x.name, y.name) < 0 || (cmp(x.name, y.name) == 0 && x.id < y.id)))
  {
    assert Sign(cmp(x.name, y.name)) == -Sign(cmp(y.name, x.name));
    assert Sign(cmp(y.name, z.name)) == -Sign(cmp(z.name, y.name));
    assert Sign(cmp(x.name, z.name)) == -Sign(cmp(z.name, x.name));
  }

  /**
   Comparing all registered columns: folders first, then by name, id and size; only items alike
   in every respect are equal.
   */
  lemma AllFieldsEqual(cmp: StringOrder, x: Item, y: Item)
    requires IsStringOrder(cmp)
    ensures CompareColumns(cmp, x, y, 0, 2) < 0 <==>
            || (x.folder && !y.folder)
            || (x.folder == y.folder
                && (cmp(x.name, y.name) < 0
                    || (cmp(x.name, y.name) == 0 && (x.id < y.id || (x.id == y.id && x.size < y.size)))))
    ensures CompareColumns(cmp, x, y, 0, 2) == 0 <==>
            x.folder == y.folder && cmp(x.name, y.name) == 0 && x.id == y.id && x.size == y.size
  {
    ByNameIsOrder(cmp, x, y, y);
    assert CompareColumns(cmp, x, y, 2, 2) == 0;
    assert CompareColumns(cmp, x, y, 1, 2) == UIntCmp(x.size, y.size);
  }

  /** CompareItems orders items exactly in the legal modes; elsewhere no item equals itself. */
  lemma CompareItemsIsOrder(cmp: StringOrder, columns: nat, lParam: DWord)
    requires IsStringOrder(cmp)
    ensures LegalMode(columns, lParam) <==> TotalPreorder(ItemOrder(cmp, columns, lParam))
  {
    var c := ItemOrder(cmp, columns, lParam);
    if LegalMode(columns, lParam) {
      forall x: Item, y: Item, z: Item
        ensures Sign(c(x, y)) == -Sign(c(y, x)) && (c(x, y) <= 0 && c(y, z) <= 0 ==> c(x, z) <= 0)
      {
        LegalIsOrder(cmp, columns, lParam, x, y, z);
      }
    } else {
      var x := Item(0, 0, false, []);
      IllegalNeverEqual(cmp, columns, lParam, x);
      assert Sign(c(x, x)) != -Sign(c(x, x));
    }
  }

  lemma LegalIsOrder(cmp: StringOrder, columns: nat, lParam: DWord, x: Item, y: Item, z: Item)
    requires IsStringOrder(cmp) && LegalMode(columns, lParam)
    ensures var c := ItemOrder(cmp, columns, lParam);
            Sign(c(x, y)) == -Sign(c(y, x)) && (c(x, y) <= 0 && c(y, z) <= 0 ==> c(x, z) <= 0)
    ensures -0x8000 <= CompareItems(cmp, columns, lParam, x, y) < 0x8000
  {
    ByNameIsOrder(cmp, x, y, z);
    ByNameIsOrder(cmp, y, z, x);
    ByNameIsOrder(cmp, x, z, y);
    forall a, b ensures CompareColumns(cmp, a, b, 0, columns) ==
                        if columns == 0 then 0
                        else if columns == 2 && CompareByName(cmp, a, b) == 0 then UIntCmp(a.size, b.size)
                        else if columns <= 2 then CompareByName(cmp, a, b)
                        else CompareColumns(cmp, a, b, 0, columns)
    {
      if columns == 2 {
        assert CompareColumns(cmp, a, b, 2, 2) == 0;
        assert CompareColumns(cmp, a, b, 1, 2) == UIntCmp(a.size, b.size);
      } else if columns == 1 {
        assert CompareColumns(cmp, a, b, 1, 1) == 0;
      }
    }
  }

  lemma IllegalNeverEqual(cmp: StringOrder, columns: nat, lParam: DWord, x: Item)
    requires IsStringOrder(cmp) && !LegalMode(columns, lParam)
    ensures CompareItems(cmp, columns, lParam, x, x) == 1
  {
    if lParam >= SHCIDS_ALLFIELDS {
      ByNameIsOrder(cmp, x, x, x);
      assert CompareColumns(cmp, x, x, 2, columns) == 1;
      assert CompareColumns(cmp, x, x, 1, columns) == 1;
    }
  }

  // --- paths of items ----------------------------------------------------------------------

  /** Lexicographic order: the first differing level decides, and a proper prefix comes first. */
  function Lex<T>(c: (T, T) -> int, xs: seq<T>, ys: seq<T>): int {
    if xs == [] && ys == [] then 0
    else if xs == [] then -1
    else if ys == [] then 1
    else
      var nResult := c(xs[0], ys[0]);
      if nResult != 0 then nResult else Lex(c, xs[1..], ys[1..])
  }

  lemma {:induction false} LexSymmetric<T(!new)>(c: (T, T) -> int, xs: seq<T>, ys: seq<T>)
    requires TotalPreorder(c)
    ensures Sign(Lex(c, xs, ys)) == -Sign(Lex(c, ys, xs))
    decreases |xs|
  {
    if xs != [] && ys != [] {
      assert Sign(c(xs[0], ys[0])) == -Sign(c(ys[0], xs[0]));
      LexSymmetric(c, xs[1..], ys[1..]);
    }
  }

  lemma {:induction false} LexTransitive<T(!new)>(c: (T, T) -> int, xs: seq<T>, ys: seq<T>, zs: seq<T>)
    requires TotalPreorder(c)
    requires Lex(c, xs, ys) <= 0 && Lex(c, ys, zs) <= 0
    ensures Lex(c, xs, zs) <= 0
    decreases |xs|
  {
    if xs != [] && ys != [] && zs != [] {
      var x, y, z := xs[0], ys[0], zs[0];
      assert Sign(c(x, y)) == -Sign(c(y, x)) && Sign(c(y, z)) == -Sign(c(z, y)) && Sign(c(x, z)) == -Sign(c(z, x));
      assert c(x, y) <= 0 && c(y, z) <= 0;
      if c(x, z) == 0 {
        assert c(z, x) <= 0;
        assert c(x, y) == 0 && c(y, z) == 0;
        LexTransitive(c, xs[1..], ys[1..], zs[1..]);
      }
    }
  }

  lemma {:induction false} LexZero<T(!new)>(c: (T, T) -> int, xs: seq<T>, ys: seq<T>)
    ensures Lex(c, xs, ys) == 0 <==> |xs| == |ys| && forall i :: 0 <= i < |xs| ==> c(xs[i], ys[i]) == 0
    decreases |xs|
  {
    if xs != [] && ys != [] && c(xs[0], ys[0]) == 0 {
      LexZero(c, xs[1..], ys[1..]);
      assert forall i :: 1 <= i < |xs| ==> xs[i] == xs[1..][i - 1];
      assert forall i :: 1 <= i < |ys| ==> ys[i] == ys[1..][i - 1];
    }
  }

  /**
   The result is that of the first level that tells the paths apart; without one, the shorter
   path comes first.
   */
  lemma {:induction false} LexDecides<T(!new)>(c: (T, T) -> int, xs: seq<T>, ys: seq<T>, k: nat)
    requires k <= |xs| && k <= |ys| && forall i :: 0 <= i < k ==> c(xs[i], ys[i]) == 0
    ensures k < |xs| && k < |ys| && c(xs[k], ys[k]) != 0 ==> Lex(c, xs, ys) == c(xs[k], ys[k])
    ensures k == |xs| < |ys| ==> Lex(c, xs, ys) == -1
    ensures k == |ys| < |xs| ==> Lex(c, xs, ys) == 1
    decreases k
  {
    if k > 0 { LexDecides(c, xs[1..], ys[1..], k - 1); }
  }

  // --- the walk over two item-ID lists -----------------------------------------------------

  /**
   The outcome of comparing two undecoded lists: `None` when, before a level told them apart,
   an item turned up that is not a .vvv item.
   */
  function LexRaw(c: (Item, Item) -> int, xs: seq<seq<Byte>>, ys: seq<seq<Byte>>): Option<int> {
    if xs == [] && ys == [] then Some(0)
    else if xs == [] then Some(-1)
    else if ys == [] then Some(1)
    else
      var x, y := Decode(xs[0]), Decode(ys[0]);
      if x.None? || y.None? then None
      else
        var nResult := c(x.value, y.value);
        if nResult != 0 then Some(nResult) else LexRaw(c, xs[1..], ys[1..])
  }

  predicate AllItems(datas: seq<seq<Byte>>) {
    forall i :: 0 <= i < |datas| ==> Decode(datas[i]).Some?
  }

  function DecodeAll(datas: seq<seq<Byte>>): (items: seq<Item>)
    requires AllItems(datas)
    ensures |items| == |datas| && forall i :: 0 <= i < |datas| ==> Decode(datas[i]) == Some(items[i])
  {
    seq(|datas|, i requires 0 <= i < |datas| => Decode(datas[i]).value)
  }

  lemma {:induction false} LexRawDecodes(c: (Item, Item) -> int, xs: seq<seq<Byte>>, ys: seq<seq<Byte>>)
    requires AllItems(xs) && AllItems(ys)
    ensures LexRaw(c, xs, ys) == Some(Lex(c, DecodeAll(xs), DecodeAll(ys)))
    decreases |xs|
  {
    if xs != [] && ys != [] {
      LexRawDecodes(c, xs[1..], ys[1..]);
      assert DecodeAll(xs)[1..] == DecodeAll(xs[1..]);
      assert DecodeAll(ys)[1..] == DecodeAll(ys[1..]);
    }
  }

  /** The lists agree on the first `k` levels: valid items on both sides, and no difference. */
  predicate TiedRaw(c: (Item, Item) -> int, xs: seq<seq<Byte>>, ys: seq<seq<Byte>>, k: nat)
    requires k <= |xs| && k <= |ys|
  {
    forall i :: 0 <= i < k ==>
                  Decode(xs[i]).Some? && Decode(ys[i]).Some? && c(Decode(xs[i]).value, Decode(ys[i]).value) == 0
  }

  /** At the first level that is not such a tie an invalid item fails the comparison, and otherwise that level decides. */
  lemma {:induction false} LexRawDecides(c: (Item, Item) -> int, xs: seq<seq<Byte>>, ys: seq<seq<Byte>>, k: nat)
    requires k <= |xs| && k <= |ys| && TiedRaw(c, xs, ys, k)
    ensures k == |xs| && k == |ys| ==> LexRaw(c, xs, ys) == Some(0)
    ensures k == |xs| && k < |ys| ==> LexRaw(c, xs, ys) == Some(-1)
    ensures k < |xs| && k == |ys| ==> LexRaw(c, xs, ys) == Some(1)
    ensures k < |xs| && k < |ys| && (Decode(xs[k]).None? || Decode(ys[k]).None?) ==> LexRaw(c, xs, ys) == None
    ensures k < |xs| && k < |ys| && Decode(xs[k]).Some? && Decode(ys[k]).Some?
            && c(Decode(xs[k]).value, Decode(ys[k]).value) != 0 ==>
              LexRaw(c, xs, ys) == Some(c(Decode(xs[k]).value, Decode(ys[k]).value))
    decreases k
  {
    hide Decode;
    if k > 0 {
      assert TiedRaw(c, xs[1..], ys[1..], k - 1) by {
        assert forall i :: 0 <= i < k - 1 ==> xs[1..][i] == xs[i + 1] && ys[1..][i] == ys[i + 1];
      }
      LexRawDecides(c, xs[1..], ys[1..], k - 1);
    }
  }

  // The first level that is not a tie.
  function FirstLevel(c: (Item, Item) -> int, xs: seq<seq<Byte>>, ys: seq<seq<Byte>>): (k: nat)
    ensures k <= |xs| && k <= |ys| && TiedRaw(c, xs, ys, k)
    ensures k < |xs| && k < |ys| && Decode(xs[k]).Some? && Decode(ys[k]).Some? ==>
              c(Decode(xs[k]).value, Decode(ys[k]).value) != 0
  {
    hide Decode;
    if xs == [] || ys == [] || Decode(xs[0]).None? || Decode(ys[0]).None?
       || c(Decode(xs[0]).value, Decode(ys[0]).value) != 0 then 0
    else
      TiedRawCons(c, xs, ys, FirstLevel(c, xs[1..], ys[1..]));
      1 + FirstLevel(c, xs[1..], ys[1..])
  }

  lemma TiedRawCons(c: (Item, Item) -> int, xs: seq<seq<Byte>>, ys: seq<seq<Byte>>, k: nat)
    requires k < |xs| && k < |ys| && TiedRaw(c, xs[1..], ys[1..], k)
    requires Decode(xs[0]).Some? && Decode(ys[0]).Some? && c(Decode(xs[0]).value, Decode(ys[0]).value) == 0
    ensures TiedRaw(c, xs, ys, k + 1)
  {
    hide Decode;
    assert forall i :: 1 <= i <= k ==> xs[i] == xs[1..][i - 1] && ys[i] == ys[1..][i - 1];
  }

  function HResultOf(r: Option<int>): DWord {
    match r
    case None => E_FAIL
    case Some(n) => ToUShort(n)
  }

  // --- the walk over the bytes -------------------------------------------------------------

  datatype Walked = Result(n: int) | InvalidItem | ReadsOutside

  /** The walk over whatever bytes are at the two positions; it ends at the first thing that goes wrong. */
  function Walk(c: (Item, Item) -> int, b1: seq<Byte>, p1: nat, b2: seq<Byte>, p2: nat): Walked
    decreases |b1| - p1
  {
    match Inspect(b1, p1)
    case Outside => ReadsOutside
    case Refused => InvalidItem
    case Read(item1) =>
      match Inspect(b2, p2)
      case Outside => ReadsOutside
      case Refused => InvalidItem
      case Read(item2) =>
        if c(item1, item2) != 0 then Result(c(item1, item2))
        else
          var next1, next2 := NextFrom(b1, p1), NextFrom(b2, p2);
          if next1.BehindEnd? || next2.BehindEnd? then ReadsOutside
          else if next1.NoNext? then (if next2.NoNext? then Result(0) else Result(-1))
          else if next2.NoNext? then Result(1)
          else Walk(c, b1, next1.p, b2, next2.p)
  }

  /** On two non-empty complete lists the walk stays inside and compares the decoded items. */
  lemma {:induction false} WalkDecodes(c: (Item, Item) -> int, b1: seq<Byte>, p1: nat, b2: seq<Byte>, p2: nat)
    requires ValidAt(b1, p1) && ValidAt(b2, p2) && Cb(b1, p1) != 0 && Cb(b2, p2) != 0
    ensures Walk(c, b1, p1, b2, p2) ==
            match LexRaw(c, ItemsAt(b1, p1), ItemsAt(b2, p2)) case None => InvalidItem case Some(n) => Result(n)
    decreases |b1| - p1
  {
    hide Inspect, Decode;
    InspectDecodes(b1, p1);
    InspectDecodes(b2, p2);
    WalkStep(b1, p1);
    WalkStep(b2, p2);
    NextFromValid(b1, p1);
    NextFromValid(b2, p2);
    hide ValidAt, ItemsAt, Cb, NextFrom, GetNextItem;
    var next1, next2 := GetNextItem(b1, p1), GetNextItem(b2, p2);
    if next1.Some? && next2.Some? { WalkDecodes(c, b1, next1.value, b2, next2.value); }
  }

  datatype Compared = HResult(hr: DWord) | OutOfBuffer

  /** What CompareIDs makes of the bytes it is given; two empty lists are rejected. */
  function Comparison(c: (Item, Item) -> int, b1: seq<Byte>, b2: seq<Byte>): Compared {
    if |b1| < 2 || (Cb(b1, 0) == 0 && |b2| < 2) then OutOfBuffer
    else if Cb(b1, 0) == 0 && Cb(b2, 0) == 0 then HResult(E_INVALIDARG)
    else
      match Walk(c, b1, 0, b2, 0)
      case ReadsOutside => OutOfBuffer
      case InvalidItem => HResult(HResultOf(None))
      case Result(n) => HResult(HResultOf(Some(n)))
  }

  /**
   CompareIDs on any two buffers. On complete lists of which neither is empty it returns the code
   of their comparison.
   */
  method CompareIDs(cmp: StringOrder, columns: nat, lParam: DWord, b1: seq<Byte>, b2: seq<Byte>) returns (r: Compared)
    ensures r == Comparison(ItemOrder(cmp, columns, lParam), b1, b2)
    ensures ValidAt(b1, 0) && ValidAt(b2, 0) && Cb(b1, 0) != 0 && Cb(b2, 0) != 0 ==>
              r == HResult(HResultOf(LexRaw(ItemOrder(cmp, columns, lParam), ItemsAt(b1, 0), ItemsAt(b2, 0))))
    ensures IsPath(b1) && IsPath(b2) ==>
              r.HResult? && ToShort(ToUShort(r.hr)) == Verdict(cmp, columns, lParam, b1, b2)
  {
    ghost var order := ItemOrder(cmp, columns, lParam);
    if ValidAt(b1, 0) && ValidAt(b2, 0) && Cb(b1, 0) != 0 && Cb(b2, 0) != 0 { WalkDecodes(order, b1, 0, b2, 0); }
    hide Inspect, NextFrom, LexRaw, ValidAt, CompareItems;
    if |b1| < 2 { return OutOfBuffer; }
    if Cb(b1, 0) == 0 {
      if |b2| < 2 { return OutOfBuffer; }
      if Cb(b2, 0) == 0 { return HResult(E_INVALIDARG); }
    }
    hide Cb;
    var nResult := 0;
    var pidl1, pidl2 := NextAt(0), NextAt(0);
    while pidl1.NextAt? && pidl2.NextAt?
      invariant pidl1.NextAt? && pidl2.NextAt? ==> nResult == 0
      invariant pidl1.NextAt? && pidl2.NextAt? ==> Walk(order, b1, 0, b2, 0) == Walk(order, b1, pidl1.p, b2, pidl2.p)
      invariant !(pidl1.NextAt? && pidl2.NextAt?) ==> Walk(order, b1, 0, b2, 0) == Result(nResult)
      decreases if pidl1.NextAt? then |b1| - pidl1.p + 1 else 0
    {
      var item1 := Inspect(b1, pidl1.p);
      if item1 == Outside { return OutOfBuffer; }
      if item1 == Refused { return HResult(E_FAIL); }
      var item2 := Inspect(b2, pidl2.p);
      if item2 == Outside { return OutOfBuffer; }
      if item2 == Refused { return HResult(E_FAIL); }
      nResult := CompareItems(cmp, columns, lParam, item1.item, item2.item);
      if nResult != 0 { break; }

      pidl1, pidl2 := NextFrom(b1, pidl1.p), NextFrom(b2, pidl2.p);
      if pidl1.BehindEnd? || pidl2.BehindEnd? { return OutOfBuffer; }
      if pidl1.NoNext? && pidl2.NextAt? {
        nResult := -1;
        break;
      }
      if pidl1.NextAt? && pidl2.NoNext? {
        nResult := 1;
        break;
      }
    }
    return HResult(ToUShort(nResult));
  }

  /** Bytes behind the lists cannot change a comparison that did not need them. */
  lemma {:induction false} WalkLocal(c: (Item, Item) -> int, b1: seq<Byte>, p1: nat, b2: seq<Byte>, p2: nat,
                                     more1: seq<Byte>, more2: seq<Byte>)
    requires Walk(c, b1, p1, b2, p2) != ReadsOutside
    ensures Walk(c, b1 + more1, p1, b2 + more2, p2) == Walk(c, b1, p1, b2, p2)
    decreases |b1| - p1
  {
    hide Inspect, NextFrom;
    InspectLocal(b1, more1, p1);
    if Inspect(b1, p1).Read? {
      InspectLocal(b2, more2, p2);
      if Inspect(b2, p2).Read? && c(Inspect(b1, p1).item, Inspect(b2, p2).item) == 0 {
        NextFromLocal(b1, more1, p1);
        NextFromLocal(b2, more2, p2);
        if NextFrom(b1, p1).NextAt? && NextFrom(b2, p2).NextAt? {
          WalkLocal(c, b1, NextFrom(b1, p1).p, b2, NextFrom(b2, p2).p, more1, more2);
        }
      }
    }
  }

  lemma ComparisonLocal(c: (Item, Item) -> int, b1: seq<Byte>, b2: seq<Byte>, more1: seq<Byte>, more2: seq<Byte>)
    requires Comparison(c, b1, b2) != OutOfBuffer
    ensures Comparison(c, b1 + more1, b2 + more2) == Comparison(c, b1, b2)
  {
    hide Walk;
    if Walk(c, b1, 0, b2, 0) != ReadsOutside { WalkLocal(c, b1, 0, b2, 0, more1, more2); }
  }

  /**
   On complete lists, empty or not: E_INVALIDARG is the answer to two empty lists, and E_FAIL the
   answer exactly if an invalid item is met before a difference.
   */
  lemma FailsExactly(c: (Item, Item) -> int, b1: seq<Byte>, b2: seq<Byte>)
    requires ValidAt(b1, 0) && ValidAt(b2, 0)
    ensures ItemsAt(b1, 0) == [] && ItemsAt(b2, 0) == [] ==> Comparison(c, b1, b2) == HResult(0x8007_0057)
    ensures ItemsAt(b1, 0) != [] && ItemsAt(b2, 0) != [] ==>
              (Comparison(c, b1, b2) == HResult(0x8000_4005) <==>
               exists k :: InvalidAt(c, ItemsAt(b1, 0), ItemsAt(b2, 0), k))
  {
    if Cb(b1, 0) != 0 && Cb(b2, 0) != 0 {
      WalkDecodes(c, b1, 0, b2, 0);
      hide Walk, ValidAt, ItemsAt, LexRaw, Decode;
      var xs, ys := ItemsAt(b1, 0), ItemsAt(b2, 0);
      var k := FirstLevel(c, xs, ys);
      LexRawDecides(c, xs, ys, k);
      if LexRaw(c, xs, ys) == None {
        assert InvalidAt(c, xs, ys, k);
      }
      if j :| InvalidAt(c, xs, ys, j) {
        LexRawDecides(c, xs, ys, j);
      }
    }
  }

  /** The first level that is not a tie has an invalid item. */
  predicate InvalidAt(c: (Item, Item) -> int, xs: seq<seq<Byte>>, ys: seq<seq<Byte>>, k: nat) {
    k < |xs| && k < |ys| && TiedRaw(c, xs, ys, k) && (Decode(xs[k]).None? || Decode(ys[k]).None?)
  }

  /**
   A single empty list is not caught: its terminator is taken for an item, so that even with
   nothing behind it the comparison goes on to read there.
   */
  lemma SingleEmptyList(c: (Item, Item) -> int, empty: seq<Byte>, b: seq<Byte>)
    requires |empty| == 2 && Cb(empty, 0) == 0 && ValidAt(b, 0) && Cb(b, 0) != 0
    ensures Comparison(c, empty, b) == OutOfBuffer
    ensures Comparison(c, b, empty) == if Construct(b, 0).Some? then OutOfBuffer else HResult(E_FAIL)
  {
    hide Inspect, Construct, ItemsAt, NextFrom, Get16;
    assert |b| >= 2;
    InspectValid(b, 0);
    EmptyIsOutside(empty);
    hide ValidAt;
  }

  lemma EmptyIsOutside(empty: seq<Byte>)
    requires |empty| == 2 && Cb(empty, 0) == 0
    ensures Inspect(empty, 0) == Outside
  {
  }

  /** The 16-bit code gives back a comparison result exactly when that fits a signed short. */
  lemma CodeKeepsResult(n: int)
    ensures ToShort(ToUShort(n)) == n <==> -0x8000 <= n < 0x8000
  {
  }

  /** A path the shell may hand to CompareIDs: non-empty, complete, and made of .vvv items. */
  predicate IsPath(b: seq<Byte>) {
    ValidAt(b, 0) && Cb(b, 0) != 0 && AllItems(ItemsAt(b, 0))
  }

  function Path(b: seq<Byte>): (items: seq<Item>)
    requires IsPath(b)
    ensures items != []
  {
    DecodeAll(ItemsAt(b, 0))
  }

  /** A list made by CreateItemIdList is such a path, of the one item it was made of. */
  lemma CreatedIsPath(b: seq<Byte>, item: Item)
    requires HoldsItem(b, item)
    ensures IsPath(b) && Path(b) == [item]
  {
    HoldsItemDecodes(b, item);
  }

  /** What a caller of CompareIDs sees: HRESULT_CODE, taken as a signed short. */
  function Verdict(cmp: StringOrder, columns: nat, lParam: DWord, b1: seq<Byte>, b2: seq<Byte>): int
    requires IsPath(b1) && IsPath(b2)
  {
    ToShort(ToUShort(HResultOf(LexRaw(ItemOrder(cmp, columns, lParam), ItemsAt(b1, 0), ItemsAt(b2, 0)))))
  }

  /** The verdict is the lexicographic comparison of the decoded paths. */
  lemma VerdictIsLex(cmp: StringOrder, columns: nat, lParam: DWord, b1: seq<Byte>, b2: seq<Byte>)
    requires IsStringOrder(cmp) && LegalMode(columns, lParam) && IsPath(b1) && IsPath(b2)
    ensures Verdict(cmp, columns, lParam, b1, b2) == Lex(ItemOrder(cmp, columns, lParam), Path(b1), Path(b2))
  {
    hide LexRaw, Lex, Decode, AllItems, DecodeAll;
    LexRawDecodes(ItemOrder(cmp, columns, lParam), ItemsAt(b1, 0), ItemsAt(b2, 0));
    LexRange(cmp, columns, lParam, Path(b1), Path(b2));
    CodeKeepsResult(Lex(ItemOrder(cmp, columns, lParam), Path(b1), Path(b2)));
  }

  lemma {:induction false} LexRange(cmp: StringOrder, columns: nat, lParam: DWord, xs: seq<Item>, ys: seq<Item>)
    requires IsStringOrder(cmp) && LegalMode(columns, lParam)
    ensures -0x8000 <= Lex(ItemOrder(cmp, columns, lParam), xs, ys) < 0x8000
    decreases |xs|
  {
    if xs != [] && ys != [] {
      LegalIsOrder(cmp, columns, lParam, xs[0], ys[0], xs[0]);
      LexRange(cmp, columns, lParam, xs[1..], ys[1..]);
    }
  }

  /** The shell's view of CompareIDs in a legal mode is a total preorder on paths. */
  lemma VerdictIsOrder(cmp: StringOrder, columns: nat, lParam: DWord, b1: seq<Byte>, b2: seq<Byte>, b3: seq<Byte>)
    requires IsStringOrder(cmp) && LegalMode(columns, lParam) && IsPath(b1) && IsPath(b2) && IsPath(b3)
    ensures Verdict(cmp, columns, lParam, b1, b1) == 0
    ensures Sign(Verdict(cmp, columns, lParam, b1, b2)) == -Sign(Verdict(cmp, columns, lParam, b2, b1))
    ensures Verdict(cmp, columns, lParam, b1, b2) <= 0 && Verdict(cmp, columns, lParam, b2, b3) <= 0
            ==> Verdict(cmp, columns, lParam, b1, b3) <= 0
  {
    var c := ItemOrder(cmp, columns, lParam);
    CompareItemsIsOrder(cmp, columns, lParam);
    VerdictIsLex(cmp, columns, lParam, b1, b1);
    VerdictIsLex(cmp, columns, lParam, b1, b2);
    VerdictIsLex(cmp, columns, lParam, b2, b1);
    VerdictIsLex(cmp, columns, lParam, b2, b3);
    VerdictIsLex(cmp, columns, lParam, b1, b3);
    LexSymmetric(c, Path(b1), Path(b1));
    LexSymmetric(c, Path(b1), Path(b2));
    if Lex(c, Path(b1), Path(b2)) <= 0 && Lex(c, Path(b2), Path(b3)) <= 0 {
      LexTransitive(c, Path(b1), Path(b2), Path(b3));
    }
  }

  /** Under SHCIDS_ALLFIELDS two paths are equal only if they agree level by level in every field. */
  lemma AllFieldsPathsEqual(cmp: StringOrder, lParam: DWord, b1: seq<Byte>, b2: seq<Byte>)
    requires IsStringOrder(cmp) && lParam >= SHCIDS_ALLFIELDS && IsPath(b1) && IsPath(b2)
    ensures Verdict(cmp, 2, lParam, b1, b2) == 0 <==>
            && |Path(b1)| == |Path(b2)|
            && forall i :: 0 <= i < |Path(b1)| ==>
                             var x, y := Path(b1)[i], Path(b2)[i];
                             x.folder == y.folder && cmp(x.name, y.name) == 0 && x.id == y.id && x.size == y.size
  {
    VerdictIsLex(cmp, 2, lParam, b1, b2);
    LexZero(ItemOrder(cmp, 2, lParam), Path(b1), Path(b2));
    forall i | 0 <= i < |Path(b1)| && |Path(b1)| == |Path(b2)|
      ensures ItemOrder(cmp, 2, lParam)(Path(b1)[i], Path(b2)[i]) == 0 <==>
              var x, y := Path(b1)[i], Path(b2)[i];
              x.folder == y.folder && cmp(x.name, y.name) == 0 && x.id == y.id && x.size == y.size
    {
      AllFieldsEqual(cmp, Path(b1)[i], Path(b2)[i]);
    }
  }

  // --- what the verdict means in terms of the items ------------------------------------------

  /** What a call sorts by: the columns that are looked at, in order. */
  datatype Sort = ByNothing | ByName | BySize | ByNameAndSize

  /** The low word of the parameter selects a column, its highest bit all registered ones. */
  function SortOf(columns: nat, lParam: DWord): Sort
    requires LegalMode(columns, lParam)
  {
    if lParam >= 0x8000_0000 then
      if columns == 0 then ByNothing else if columns == 1 then ByName else ByNameAndSize
    else if lParam % 0x1_0000 == 0 then ByName
    else BySize
  }

  /** Folders stand before plain items; then the name decides, and then the id. */
  predicate NameBefore(cmp: StringOrder, x: Item, y: Item) {
    || (x.folder && !y.folder)
    || (x.folder == y.folder && (cmp(x.name, y.name) < 0 || (cmp(x.name, y.name) == 0 && x.id < y.id)))
  }

  predicate SameName(cmp: StringOrder, x: Item, y: Item) {
    x.folder == y.folder && cmp(x.name, y.name) == 0 && x.id == y.id
  }

  /** `x` is listed before `y`. */
  predicate Before(cmp: StringOrder, sort: Sort, x: Item, y: Item) {
    match sort
    case ByNothing => false
    case ByName => NameBefore(cmp, x, y)
    case BySize => x.size < y.size
    case ByNameAndSize => NameBefore(cmp, x, y) || (SameName(cmp, x, y) && x.size < y.size)
  }

  /** Nothing that is looked at tells `x` and `y` apart. */
  predicate Alike(cmp: StringOrder, sort: Sort, x: Item, y: Item) {
    match sort
    case ByNothing => true
    case ByName => SameName(cmp, x, y)
    case BySize => x.size == y.size
    case ByNameAndSize => SameName(cmp, x, y) && x.size == y.size
  }

  predicate AlikeUpTo(cmp: StringOrder, sort: Sort, xs: seq<Item>, ys: seq<Item>, k: nat)
    requires k <= |xs| && k <= |ys|
  {
    forall i :: 0 <= i < k ==> Alike(cmp, sort, xs[i], ys[i])
  }

  /** The first level that differs has the smaller item in `xs`, or `xs` ends there. */
  predicate PathBefore(cmp: StringOrder, sort: Sort, xs: seq<Item>, ys: seq<Item>) {
    exists k :: 0 <= k <= |xs| && k < |ys| && AlikeUpTo(cmp, sort, xs, ys, k)
                && (k < |xs| ==> Before(cmp, sort, xs[k], ys[k]))
  }

  predicate PathsAlike(cmp: StringOrder, sort: Sort, xs: seq<Item>, ys: seq<Item>) {
    |xs| == |ys| && AlikeUpTo(cmp, sort, xs, ys, |xs|)
  }

  lemma ItemSign(cmp: StringOrder, columns: nat, lParam: DWord, x: Item, y: Item)
    requires IsStringOrder(cmp) && LegalMode(columns, lParam)
    ensures var (c, sort) := (ItemOrder(cmp, columns, lParam), SortOf(columns, lParam));
            && (c(x, y) < 0 <==> Before(cmp, sort, x, y))
            && (c(x, y) == 0 <==> Alike(cmp, sort, x, y))
  {
    ByNameIsOrder(cmp, x, y, y);
    if lParam >= SHCIDS_ALLFIELDS {
      if columns == 2 {
        AllFieldsEqual(cmp, x, y);
      } else if columns == 1 {
        assert CompareColumns(cmp, x, y, 1, 1) == 0;
      }
    }
  }

  /**
   What the caller of CompareIDs reads for two paths: negative exactly if the first one is listed
   before the second, zero exactly if nothing that is looked at tells them apart, and positive
   exactly if the second is listed before the first.
   */
  lemma VerdictSign(cmp: StringOrder, columns: nat, lParam: DWord, b1: seq<Byte>, b2: seq<Byte>)
    requires IsStringOrder(cmp) && LegalMode(columns, lParam) && IsPath(b1) && IsPath(b2)
    ensures var (sort, verdict) := (SortOf(columns, lParam), Verdict(cmp, columns, lParam, b1, b2));
            && (verdict < 0 <==> PathBefore(cmp, sort, Path(b1), Path(b2)))
            && (verdict == 0 <==> PathsAlike(cmp, sort, Path(b1), Path(b2)))
            && (verdict > 0 <==> PathBefore(cmp, sort, Path(b2), Path(b1)))
  {
    hide Verdict, Path, IsPath, Lex, ItemOrder, SortOf, PathBefore, PathsAlike;
    var c := ItemOrder(cmp, columns, lParam);
    VerdictIsLex(cmp, columns, lParam, b1, b2);
    VerdictIsOrder(cmp, columns, lParam, b1, b2, b1);
    VerdictIsLex(cmp, columns, lParam, b2, b1);
    LexSign(cmp, columns, lParam, Path(b1), Path(b2));
    LexSign(cmp, columns, lParam, Path(b2), Path(b1));
  }

  lemma LexSign(cmp: StringOrder, columns: nat, lParam: DWord, xs: seq<Item>, ys: seq<Item>)
    requires IsStringOrder(cmp) && LegalMode(columns, lParam)
    ensures var (c, sort) := (ItemOrder(cmp, columns, lParam), SortOf(columns, lParam));
            && (Lex(c, xs, ys) < 0 <==> PathBefore(cmp, sort, xs, ys))
            && (Lex(c, xs, ys) == 0 <==> PathsAlike(cmp, sort, xs, ys))
  {
    var c, sort := ItemOrder(cmp, columns, lParam), SortOf(columns, lParam);
    forall x: Item, y: Item
      ensures (c(x, y) < 0 <==> Before(cmp, sort, x, y)) && (c(x, y) == 0 <==> Alike(cmp, sort, x, y))
    {
      ItemSign(cmp, columns, lParam, x, y);
    }
    hide Lex, ItemOrder, SortOf, Before, Alike;
    LexZero(c, xs, ys);
    if PathBefore(cmp, sort, xs, ys) {
      var k :| 0 <= k <= |xs| && k < |ys| && AlikeUpTo(cmp, sort, xs, ys, k)
               && (k < |xs| ==> Before(cmp, sort, xs[k], ys[k]));
      LexDecides(c, xs, ys, k);
    }
    if Lex(c, xs, ys) < 0 {
      var k := TiedLevels(c, xs, ys);
      LexDecides(c, xs, ys, k);
      assert AlikeUpTo(cmp, sort, xs, ys, k);
    }
  }

  // How many levels, from the first on, are ties.
  function TiedLevels<T(!new)>(c: (T, T) -> int, xs: seq<T>, ys: seq<T>): (k: nat)
    ensures k <= |xs| && k <= |ys| && forall i :: 0 <= i < k ==> c(xs[i], ys[i]) == 0
    ensures k < |xs| && k < |ys| ==> c(xs[k], ys[k]) != 0
  {
    if xs == [] || ys == [] || c(xs[0], ys[0]) != 0 then 0 else 1 + TiedLevels(c, xs[1..], ys[1..])
  }
}
