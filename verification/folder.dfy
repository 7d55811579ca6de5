/** Shell folder objects: what they are initialized with and what binding to a sub folder makes of it. */
module ShellFolder {
  import opened Words
  import opened HResults
  import opened Pidl
  import opened VvvItem
  import opened Ordering
  import opened Naming
  import opened Slots
  import opened VvvStore

  /** The fields of a folder: its own list, that of the junction point, and the id path below it. */
  datatype State = State(pidl: Option<seq<Byte>>, junction: Option<seq<Byte>>, sub: WString) {
    predicate Valid() {
      (pidl.Some? ==> ValidAt(pidl.value, 0)) && (junction.Some? ==> ValidAt(junction.value, 0))
    }
  }

  const UNBOUND := State(None, None, [])

  // ILIsEmpty: no list at all, or only a terminator.
  predicate IsEmpty(p: Option<seq<Byte>>)
    requires p.Some? ==> ValidAt(p.value, 0)
  {
    p.None? || Cb(p.value, 0) == 0
  }

  function Initialized(st: State, folder: seq<Byte>): (r: State)
    requires st.Valid() && ValidAt(folder, 0)
    ensures r.Valid()
  {
    State(Some(Clone(folder)), if IsEmpty(st.junction) then Some(Clone(folder)) else st.junction, st.sub)
  }

  /** ILCombine of the folder's own list, if it has one, with a relative one. */
  function BindList(pidl: Option<seq<Byte>>, rel: seq<Byte>): (b: seq<Byte>)
    requires (pidl.Some? ==> ValidAt(pidl.value, 0)) && ValidAt(rel, 0)
    ensures ValidAt(b, 0)
    ensures ItemsAt(b, 0) == (if pidl.Some? then ItemsAt(pidl.value, 0) else []) + ItemsAt(rel, 0)
  {
    if pidl.None? then Clone(rel)
    else
      CombineDecodes(pidl.value, rel);
      Combine(pidl.value, rel)
  }

  datatype Bound = Bound(st: State) | Failed(hr: DWord)

  /** Binding: items are checked first; then the junction point must be there to be cloned. */
  function Bind(st: State, rel: seq<Byte>): (r: Bound)
    requires st.Valid() && ValidAt(rel, 0) && Cb(rel, 0) != 0
    ensures r.Bound? ==> r.st.Valid()
  {
    if !AllItems(ItemsAt(rel, 0)) then Failed(E_FAIL)
    else if st.junction.None? then Failed(E_OUTOFMEMORY)
    else
      var instance := State(None, Some(Clone(st.junction.value)), []);
      Bound(Initialized(instance, BindList(st.pidl, rel)).(sub := Join(Ids(DecodeAll(ItemsAt(rel, 0))))))
  }

  class ShellFolder {
    var pidlFolder: Option<seq<Byte>>
    var junctionPoint: Option<seq<Byte>>
    var subFolder: WString

    ghost function Now(): State
      reads this
    {
      State(pidlFolder, junctionPoint, subFolder)
    }

    constructor ()
      ensures Now() == UNBOUND
    {
      pidlFolder, junctionPoint, subFolder := None, None, [];
    }

    method Initialize(folder: Option<seq<Byte>>) returns (hr: DWord)
      requires Now().Valid() && (folder.Some? ==> ValidAt(folder.value, 0))
      modifies this
      ensures folder.None? ==> hr == E_INVALIDARG && Now() == old(Now())
      ensures folder.Some? ==> hr == S_OK && Now() == Initialized(old(Now()), folder.value)
      ensures folder.Some? ==>
                var kept := if IsEmpty(old(junctionPoint)) then folder.value else old(junctionPoint).value;
                && pidlFolder.Some? && ItemsAt(pidlFolder.value, 0) == ItemsAt(folder.value, 0)
                && junctionPoint.Some? && ItemsAt(junctionPoint.value, 0) == ItemsAt(kept, 0)
                && subFolder == old(subFolder)
    {
      if folder.None? { return E_INVALIDARG; }
      pidlFolder := Some(Clone(folder.value));
      if IsEmpty(junctionPoint) {
        junctionPoint := Some(Clone(folder.value));
      }
      return S_OK;
    }

    /** Prints the ids of the items as a path, starting from nothing. */
    method InitializeSubFolder(items: seq<Item>)
      modifies this`subFolder
      ensures subFolder == Join(Ids(items))
    {
      subFolder := [];
      for i := 0 to |items|
        invariant subFolder == Join(Ids(items[..i]))
      {
        JoinAppend(Ids(items[..i]), items[i].id);
        assert Ids(items[..i + 1]) == Ids(items[..i]) + [items[i].id];
        if subFolder != [] {
          subFolder := subFolder + [BACKSLASH];
        }
        subFolder := subFolder + Decimal(items[i].id);
      }
      assert items[..|items|] == items;
    }

    /** The items of the relative list, in order; `None` is the exception of an invalid one. */
    method CollectItems(rel: seq<Byte>) returns (r: Option<seq<Item>>)
      requires ValidAt(rel, 0) && Cb(rel, 0) != 0
      ensures r.Some? <==> AllItems(ItemsAt(rel, 0))
      ensures r.Some? ==> r.value == DecodeAll(ItemsAt(rel, 0))
    {
      assert 2 <= |rel|;
      hide Decode, Construct, ValidAt, ItemsAt, Cb, GetNextItem;
      ghost var all := ItemsAt(rel, 0);
      var items: seq<Item> := [];
      var sub := Some(0);
      while sub.Some?
        invariant sub.Some? ==> sub.value + 2 <= |rel| && ValidAt(rel, sub.value) && Cb(rel, sub.value) != 0
        invariant |items| <= |all| && all[|items|..] == Rest(rel, sub)
        invariant forall k :: 0 <= k < |items| ==> Decode(all[k]) == Some(items[k])
        decreases if sub.Some? then |rel| - sub.value + 1 else 0
      {
        ConstructDecodes(rel, sub.value);
        WalkStep(rel, sub.value);
        ghost var k := |items|;
        assert all[k] == all[k..][0] && all[k + 1..] == all[k..][1..];
        var item := Construct(rel, sub.value);
        if item.None? { return None; }
        items := items + [item.value];
        sub := GetNextItem(rel, sub.value);
      }
      return Some(items);
    }

    method BindToObject(rel: seq<Byte>, supported: bool) returns (hr: DWord, instance: ShellFolder?)
      requires Now().Valid() && ValidAt(rel, 0) && Cb(rel, 0) != 0
      ensures Now() == old(Now())
      ensures !supported ==> hr == E_NOINTERFACE && instance == null
      ensures supported ==>
                match Bind(Now(), rel)
                case Failed(code) => hr == code && instance == null
                case Bound(st) => hr == S_OK && instance != null && fresh(instance) && instance.Now() == st
    {
      if !supported { return E_NOINTERFACE, null; }
      var bindFolder := BindList(pidlFolder, rel);
      var items := CollectItems(rel);
      if items.None? { return E_FAIL, null; }
      if junctionPoint.None? { return E_OUTOFMEMORY, null; }
      var created := new ShellFolder();
      created.junctionPoint := Some(Clone(junctionPoint.value));
      hr := created.Initialize(Some(bindFolder));
      created.InitializeSubFolder(items.value);
      instance := created;
    }
  }

  /**
   Binding to a non-empty list fails with E_FAIL exactly if one of its items is invalid, and with
   E_OUTOFMEMORY exactly if there is no junction point to clone otherwise. A bound folder has the
   list appended, the junction point or, where that is empty, its own list in its place, and the id
   path of the list.
   */
  lemma BindExactly(st: State, rel: seq<Byte>)
    requires st.Valid() && ValidAt(rel, 0) && Cb(rel, 0) != 0
    ensures var (r, items) := (Bind(st, rel), ItemsAt(rel, 0));
            && (r == Failed(0x8000_4005) <==> exists i :: 0 <= i < |items| && Decode(items[i]).None?)
            && (r == Failed(0x8007_000E) <==> st.junction == None && forall i :: 0 <= i < |items| ==> Decode(items[i]).Some?)
            && (r.Bound? <==> st.junction.Some? && forall i :: 0 <= i < |items| ==> Decode(items[i]).Some?)
            && (r.Bound? ==>
                  var all := (if st.pidl.Some? then ItemsAt(st.pidl.value, 0) else []) + items;
                  var kept := ItemsAt(st.junction.value, 0);
                  && r.st.pidl.Some? && ItemsAt(r.st.pidl.value, 0) == all
                  && r.st.junction.Some? && ItemsAt(r.st.junction.value, 0) == (if kept == [] then all else kept)
                  && exists ids :: r.st.sub == Join(ids) && |ids| == |items|
                                   && forall i :: 0 <= i < |items| ==> Decode(items[i]).value.id == ids[i])
  {
    hide Decode, ValidAt, Get16;
    if Bind(st, rel).Bound? {
      var ids := Ids(DecodeAll(ItemsAt(rel, 0)));
      assert Bind(st, rel).st.sub == Join(ids);
    }
  }

  /**
   Binding to what the enumeration reports for a slot takes the id path of the slot behind it, so
   what is kept below the slot itself is not what the new folder shows.
   */
  lemma EnumeratedBind(st: State, rel: seq<Byte>, v: Slots, flags: bv32, it: DWord)
    requires Anchored(st) && Ends(v, it) && Scan(v, flags, it).0.Next?
    requires HoldsItem(rel, Scan(v, flags, it).0.item)
    ensures IsPath(rel) && Bind(st, rel).Bound?
    ensures var slot := Scan(v, flags, it).1 - 1;
            && slot >= it && Wanted(v(slot), flags)
            && Bind(st, rel).st.sub == Join([slot + 1]) != Join([slot])
  {
    var (r, next) := Scan(v, flags, it);
    ScanWithinEnd(v, flags, it);
    CreatedIsPath(rel, r.item);
    var end := BindStep(st, rel);
    assert PathIds(rel) == [next];
    SectionNamesDistinct([next], 0, [next - 1], 0);
  }

  // --- chains of folders -------------------------------------------------------------------

  predicate AllPaths(rels: seq<seq<Byte>>) { forall i :: 0 <= i < |rels| ==> IsPath(rels[i]) }

  function Chain(st: State, rels: seq<seq<Byte>>): (r: Bound)
    requires st.Valid() && AllPaths(rels)
    decreases |rels|
  {
    if rels == [] then Bound(st)
    else match Bind(st, rels[0])
         case Failed(hr) => Failed(hr)
         case Bound(next) => Chain(next, rels[1..])
  }

  function AllOf(rels: seq<seq<Byte>>): seq<seq<Byte>>
    requires AllPaths(rels)
    decreases |rels|
  {
    if rels == [] then [] else ItemsAt(rels[0], 0) + AllOf(rels[1..])
  }

  function PathIds(rel: seq<Byte>): (ids: seq<DWord>)
    requires IsPath(rel)
    ensures ids != []
  {
    Ids(Path(rel))
  }

  function AllIds(rels: seq<seq<Byte>>): seq<DWord>
    requires AllPaths(rels)
    decreases |rels|
  {
    if rels == [] then [] else PathIds(rels[0]) + AllIds(rels[1..])
  }

  // A folder as every initialized one with a non-empty junction point is.
  predicate Anchored(st: State) {
    st.Valid() && st.pidl.Some? && st.junction.Some? && Cb(st.junction.value, 0) != 0
  }

  /** `end` is `st` with all relative lists appended, but with the id path of the last one alone. */
  predicate Reached(st: State, rels: seq<seq<Byte>>, end: State)
    requires Anchored(st) && Anchored(end) && AllPaths(rels)
  {
    && ItemsAt(end.pidl.value, 0) == ItemsAt(st.pidl.value, 0) + AllOf(rels)
    && ItemsAt(end.junction.value, 0) == ItemsAt(st.junction.value, 0)
    && end.sub == if rels == [] then st.sub else Join(PathIds(rels[|rels| - 1]))
  }

  /** One bind appends the relative list, keeps the junction point and takes the relative id path. */
  lemma BindStep(st: State, rel: seq<Byte>) returns (next: State)
    requires Anchored(st) && IsPath(rel)
    ensures Bind(st, rel) == Bound(next) && Anchored(next) && Reached(st, [rel], next)
  {
    next := Bind(st, rel).st;
    assert ItemsAt(next.junction.value, 0) == ItemsAt(st.junction.value, 0);
    assert AllOf([rel]) == ItemsAt(rel, 0);
  }

  /**
   Any chain of binds from a folder with a non-empty junction point succeeds. The folder reached
   has the junction point it started with and its list is the starting one with all relative lists
   appended in order, but its id path is that of the last step alone.
   */
  lemma {:induction false} ChainReaches(st: State, rels: seq<seq<Byte>>)
    requires Anchored(st) && AllPaths(rels)
    ensures Chain(st, rels).Bound? && Anchored(Chain(st, rels).st) && Reached(st, rels, Chain(st, rels).st)
    decreases |rels|
  {
    hide Bind, Reached;
    if rels == [] {
      ReachedNone(st);
    } else {
      var next := BindStep(st, rels[0]);
      assert rels[..1] == [rels[0]];
      ChainReaches(next, rels[1..]);
      ReachedStep(st, rels, next, Chain(next, rels[1..]).st);
    }
  }

  lemma ReachedNone(st: State)
    requires Anchored(st)
    ensures Reached(st, [], st)
  {
    assert ItemsAt(st.pidl.value, 0) + [] == ItemsAt(st.pidl.value, 0);
  }

  lemma ReachedStep(st: State, rels: seq<seq<Byte>>, next: State, end: State)
    requires Anchored(st) && Anchored(next) && Anchored(end) && AllPaths(rels) && rels != []
    requires Reached(st, rels[..1], next) && Reached(next, rels[1..], end)
    ensures Reached(st, rels, end)
  {
    hide ItemsAt, PathIds, ValidAt, AllItems;
    var first := rels[..1];
    assert first[0] == rels[0] && AllOf(first) == ItemsAt(rels[0], 0) + AllOf(first[1..]) && AllOf(first[1..]) == [];
    assert ItemsAt(st.pidl.value, 0) + ItemsAt(rels[0], 0) + AllOf(rels[1..]) ==
           ItemsAt(st.pidl.value, 0) + (ItemsAt(rels[0], 0) + AllOf(rels[1..]));
  }

  /** The same for a root folder that was initialized once with a non-empty list. */
  lemma RootChainReaches(root: seq<Byte>, rels: seq<seq<Byte>>)
    requires ValidAt(root, 0) && Cb(root, 0) != 0 && AllPaths(rels)
    ensures var start := Initialized(UNBOUND, root);
            && Chain(start, rels).Bound?
            && var end := Chain(start, rels).st;
            && Anchored(end)
            && ItemsAt(end.pidl.value, 0) == ItemsAt(root, 0) + AllOf(rels)
            && ItemsAt(end.junction.value, 0) == ItemsAt(root, 0)
            && (end.sub == Join(AllIds(rels)) <==> |rels| <= 1)
  {
    var start := Initialized(UNBOUND, root);
    assert Anchored(start) by {
      assert ItemsAt(Clone(root), 0) == ItemsAt(root, 0);
    }
    ChainReaches(start, rels);
    SubFolderIsWholePath(rels);
  }

  lemma {:induction false} SubFolderIsWholePath(rels: seq<seq<Byte>>)
    requires AllPaths(rels)
    ensures rels != [] ==> (Join(PathIds(rels[|rels| - 1])) == Join(AllIds(rels)) <==> |rels| == 1)
  {
    hide PathIds;
    if rels != [] {
      LastIdsAreFewer(rels);
      SectionNamesDistinct(PathIds(rels[|rels| - 1]), 0, AllIds(rels), 0);
      if |rels| == 1 { assert AllIds(rels) == PathIds(rels[0]) + []; }
    }
  }

  lemma {:induction false} LastIdsAreFewer(rels: seq<seq<Byte>>)
    requires AllPaths(rels) && rels != []
    ensures |AllIds(rels)| >= |PathIds(rels[|rels| - 1])| + |rels| - 1
    decreases |rels|
  {
    hide PathIds;
    if |rels| > 1 { LastIdsAreFewer(rels[1..]); }
  }

  /** Binding keeps the junction point exactly when that is a non-empty list. */
  lemma JunctionKept(st: State, rel: seq<Byte>)
    requires st.Valid() && st.junction.Some? && IsPath(rel)
    ensures Bind(st, rel).Bound? && Bind(st, rel).st.junction.Some?
    ensures ItemsAt(Bind(st, rel).st.junction.value, 0) == ItemsAt(st.junction.value, 0) <==> Cb(st.junction.value, 0) != 0
  {
    var bind := BindList(st.pidl, rel);
    assert ItemsAt(Clone(bind), 0) == ItemsAt(bind, 0) != [];
    assert ItemsAt(Clone(st.junction.value), 0) == ItemsAt(st.junction.value, 0);
  }
}
