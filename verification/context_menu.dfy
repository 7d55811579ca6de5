/**
 Building a context menu: nested menus that share one id counter, each with an insertion index
 of its own, and a host that records what every id stands for.
 */
module ContextMenu {
  import opened Words
  import opened HResults

  type Command = nat
  type Handler = nat
  type HMenu = nat

  /** One line of a window menu; `popup` is the menu that opens from it. */
  datatype Entry = Separator | Entry(id: DWord, text: WString, popup: Option<HMenu>)

  /** What the host records for one id. */
  datatype MenuItem = MenuItem(help: WString, command: Option<Command>, handler: Option<Handler>)

  // --- the menus of the window system --------------------------------------------------------

  // Insertion by position; a position behind the last entry appends.
  function InsertAt(entries: seq<Entry>, pos: DWord, e: Entry): seq<Entry> {
    if pos <= |entries| then entries[..pos] + [e] + entries[pos..] else entries + [e]
  }

  function Insert(tables: seq<seq<Entry>>, menu: HMenu, pos: DWord, e: Entry): seq<seq<Entry>>
    requires menu < |tables|
  {
    tables[menu := InsertAt(tables[menu], pos, e)]
  }

  class User32 {
    var menus: seq<seq<Entry>>

    method CreatePopupMenu() returns (menu: HMenu)
      modifies this
      ensures menus == old(menus) + [[]] && menu == |old(menus)|
    {
      menu := |menus|;
      menus := menus + [[]];
    }

    method InsertMenuItem(menu: HMenu, pos: DWord, e: Entry)
      requires menu < |menus|
      modifies this
      ensures menus == Insert(old(menus), menu, pos, e)
    {
      menus := Insert(menus, menu, pos, e);
    }
  }

  // --- the build as a state machine ----------------------------------------------------------

  /**
   The calls a derived class makes on its menus, which are numbered in order of creation.
   `apiOk` and `created` say whether the window system does what it is asked.
   */
  datatype Call =
    | AddItem(menu: nat, text: WString, item: MenuItem, apiOk: bool)
    | AddSubMenu(menu: nat, text: WString, help: WString, handler: Option<Handler>, created: bool, apiOk: bool)
    | AddSeparator(menu: nat, apiOk: bool)

  datatype MenuState = MenuState(handle: HMenu, index: DWord)

  datatype Build = Build(next: DWord, items: seq<MenuItem>, tables: seq<seq<Entry>>, menus: seq<MenuState>) {
    predicate Valid() {
      && (forall m :: 0 <= m < |menus| ==> menus[m].handle < |tables|)
      && (forall m, n :: 0 <= m < n < |menus| ==> menus[m].handle != menus[n].handle)
    }
  }

  // One more line in menu `m`, whose insertion index moves on.
  function WithEntry(b: Build, m: nat, e: Entry): (r: Build)
    requires b.Valid() && m < |b.menus|
    ensures r.Valid() && |r.tables| == |b.tables|
  {
    var menu := b.menus[m];
    b.(tables := Insert(b.tables, menu.handle, menu.index, e),
    menus := b.menus[m := menu.(index := ToUInt(menu.index + 1))])
  }

  // One more line that has an id of its own, which the host records.
  function WithItem(b: Build, m: nat, text: WString, popup: Option<HMenu>, item: MenuItem): (r: Build)
    requires b.Valid() && m < |b.menus| && b.next + 1 < 0x1_0000_0000
    ensures r.Valid() && |r.tables| == |b.tables|
  {
    WithEntry(b, m, Entry(b.next, text, popup)).(next := b.next + 1, items := b.items + [item])
  }

  /** One call and whether it succeeds; a failing one raises an exception. */
  function Step(b: Build, last: DWord, call: Call): (r: (Build, bool))
    requires b.Valid() && call.menu < |b.menus|
    ensures r.0.Valid()
  {
    match call
    case AddItem(m, text, item, apiOk) =>
      if b.next >= last || !apiOk then (b, false)
      else (WithItem(b, m, text, None, item), true)
    case AddSubMenu(m, text, help, handler, created, apiOk) =>
      if !created then (b, false)
      else
        var handle := |b.tables|;
        var b1 := b.(tables := b.tables + [[]]);
        if b.next >= last || !apiOk then (b1, false)
        else
          var b2 := WithItem(b1, m, text, Some(handle), MenuItem(help, None, handler));
          (b2.(menus := b2.menus + [MenuState(handle, 0)]), true)
    case AddSeparator(m, apiOk) =>
      if !apiOk then (b, false) else (WithEntry(b, m, Separator), true)
  }

  // Calls only use menus that were created before.
  predicate InScope(calls: seq<Call>, menus: nat) {
    calls != [] ==>
      calls[0].menu < menus && InScope(calls[1..], if calls[0].AddSubMenu? then menus + 1 else menus)
  }

  /** A whole build; the first exception ends it and what was done before remains. */
  function Run(b: Build, last: DWord, calls: seq<Call>): (r: (Build, bool))
    requires b.Valid() && InScope(calls, |b.menus|)
    ensures r.0.Valid()
    decreases |calls|
  {
    if calls == [] then (b, true)
    else
      var (b1, ok) := Step(b, last, calls[0]);
      if ok then Run(b1, last, calls[1..]) else (b1, false)
  }

  // --- what every build keeps ----------------------------------------------------------------

  /** What a recorded call left behind: its line in a menu and its record at the host. */
  datatype Record = Record(entry: Entry, item: MenuItem)

  function RecordOf(b: Build, call: Call): Record
    requires !call.AddSeparator?
  {
    if call.AddItem? then Record(Entry(b.next, call.text, None), call.item)
    else Record(Entry(b.next, call.text, Some(|b.tables|)), MenuItem(call.help, None, call.handler))
  }

  /** The records of all calls that succeeded, in call order. */
  function Recorded(b: Build, last: DWord, calls: seq<Call>): seq<Record>
    requires b.Valid() && InScope(calls, |b.menus|)
    decreases |calls|
  {
    if calls == [] || !Step(b, last, calls[0]).1 then []
    else (if calls[0].AddSeparator? then [] else [RecordOf(b, calls[0])])
         + Recorded(Step(b, last, calls[0]).0, last, calls[1..])
  }

  function SeparatorsAdded(b: Build, last: DWord, calls: seq<Call>): nat
    requires b.Valid() && InScope(calls, |b.menus|)
    decreases |calls|
  {
    if calls == [] || !Step(b, last, calls[0]).1 then 0
    else (if calls[0].AddSeparator? then 1 else 0) + SeparatorsAdded(Step(b, last, calls[0]).0, last, calls[1..])
  }

  // The first call of a build, and the rest of it.
  lemma RunUnfold(b: Build, last: DWord, calls: seq<Call>)
    requires b.Valid() && InScope(calls, |b.menus|) && calls != []
    ensures var (b1, ok) := Step(b, last, calls[0]);
            if ok then
              && InScope(calls[1..], |b1.menus|)
              && Run(b, last, calls) == Run(b1, last, calls[1..])
              && Recorded(b, last, calls) ==
                 (if calls[0].AddSeparator? then [] else [RecordOf(b, calls[0])]) + Recorded(b1, last, calls[1..])
              && SeparatorsAdded(b, last, calls) ==
                 (if calls[0].AddSeparator? then 1 else 0) + SeparatorsAdded(b1, last, calls[1..])
            else
              Run(b, last, calls) == (b1, false) && Recorded(b, last, calls) == [] && SeparatorsAdded(b, last, calls) == 0
  {
    hide Insert;
  }

  lemma StepRecords(b: Build, last: DWord, call: Call)
    requires b.Valid() && call.menu < |b.menus|
    ensures var (b1, ok) := Step(b, last, call);
            if ok && !call.AddSeparator?
            then b.next < last && b1.next == b.next + 1 && b1.items == b.items + [RecordOf(b, call).item]
            else b1.next == b.next && b1.items == b.items
  {
    hide Insert;
  }

  /**
   Also when cut short: the counter has moved by the number of recorded calls, the host has
   exactly their records in call order, and the ids are first, first + 1, ... below the limit.
   */
  lemma {:induction false} RunRecords(b: Build, last: DWord, calls: seq<Call>)
    requires b.Valid() && InScope(calls, |b.menus|)
    ensures var (r, records) := (Run(b, last, calls).0, Recorded(b, last, calls));
            && r.next == b.next + |records|
            && |r.items| == |b.items| + |records| && r.items[..|b.items|] == b.items
            && (records != [] ==> r.next <= last)
            && forall i :: 0 <= i < |records| ==>
                             records[i].entry.Entry? && records[i].entry.id == b.next + i && r.items[|b.items| + i] == records[i].item
    decreases |calls|
  {
    hide Step, Run, Recorded, SeparatorsAdded;
    if calls == [] {
      assert Recorded(b, last, calls) == [] && Run(b, last, calls).0 == b by { EmptyRun(b, last); }
    } else {
      RunUnfold(b, last, calls);
      StepRecords(b, last, calls[0]);
      var (b1, ok) := Step(b, last, calls[0]);
      if ok {
        RunRecords(b1, last, calls[1..]);
        var r := Run(b, last, calls).0;
        if !calls[0].AddSeparator? {
          assert r.items[|b.items|] == r.items[..|b1.items|][|b.items|];
          assert b.items == b1.items[..|b.items|];
        }
      }
    }
  }

  lemma EmptyRun(b: Build, last: DWord)
    requires b.Valid()
    ensures Run(b, last, []) == (b, true) && Recorded(b, last, []) == [] && SeparatorsAdded(b, last, []) == 0
  {
  }

  // The calls that ask for a line with an id.
  function ItemCalls(calls: seq<Call>): (items: seq<Call>)
    ensures forall i :: 0 <= i < |items| ==> !items[i].AddSeparator?
  {
    if calls == [] then [] else (if calls[0].AddSeparator? then [] else [calls[0]]) + ItemCalls(calls[1..])
  }

  /** What a call leaves behind is what it was given, under this id. */
  predicate IsRecordOf(record: Record, call: Call, id: nat)
    requires !call.AddSeparator?
  {
    && record.entry.Entry? && record.entry.id == id && record.entry.text == call.text
    && (record.entry.popup.Some? <==> call.AddSubMenu?)
    && (call.AddItem? ==> record.item == call.item)
    && (call.AddSubMenu? ==>
          record.item.help == call.help && record.item.handler == call.handler && record.item.command == None)
  }

  /** The i-th record is what the i-th call for a line with an id gave, under the i-th id. */
  lemma {:induction false} RecordedCalls(b: Build, last: DWord, calls: seq<Call>)
    requires b.Valid() && InScope(calls, |b.menus|)
    ensures var (records, asked) := (Recorded(b, last, calls), ItemCalls(calls));
            && |records| <= |asked|
            && forall i :: 0 <= i < |records| ==> IsRecordOf(records[i], asked[i], b.next + i)
    decreases |calls|
  {
    hide Step, Run, SeparatorsAdded;
    if calls == [] {
      EmptyRun(b, last);
    } else {
      RunUnfold(b, last, calls);
      StepRecords(b, last, calls[0]);
      var (b1, ok) := Step(b, last, calls[0]);
      if ok {
        RecordedCalls(b1, last, calls[1..]);
        if !calls[0].AddSeparator? { assert IsRecordOf(RecordOf(b, calls[0]), calls[0], b.next); }
      }
    }
  }

  // The window system does what these calls ask it for.
  predicate Served(calls: seq<Call>) {
    forall i :: 0 <= i < |calls| ==> calls[i].apiOk && (calls[i].AddSubMenu? ==> calls[i].created)
  }

  /** A build is completed exactly if the window system plays along and there are ids enough. */
  lemma {:induction false} RunSucceedsExactly(b: Build, last: DWord, calls: seq<Call>)
    requires b.Valid() && InScope(calls, |b.menus|)
    ensures Run(b, last, calls).1 <==>
            Served(calls) && (ItemCalls(calls) != [] ==> b.next + |ItemCalls(calls)| <= last)
    decreases |calls|
  {
    hide Run, Recorded, SeparatorsAdded, Insert;
    if calls == [] {
      EmptyRun(b, last);
    } else {
      RunUnfold(b, last, calls);
      StepRecords(b, last, calls[0]);
      var (b1, ok) := Step(b, last, calls[0]);
      if ok { RunSucceedsExactly(b1, last, calls[1..]); }
      assert Served(calls) <==>
             calls[0].apiOk && (calls[0].AddSubMenu? ==> calls[0].created) && Served(calls[1..]) by {
        assert forall i :: 1 <= i < |calls| ==> calls[i] == calls[1..][i - 1];
      }
    }
  }

  /** All lines of all menus. */
  function Lines(tables: seq<seq<Entry>>): multiset<Entry> {
    if tables == [] then multiset{} else Lines(tables[..|tables| - 1]) + multiset(tables[|tables| - 1])
  }

  lemma {:induction false} LinesInsert(tables: seq<seq<Entry>>, menu: HMenu, pos: DWord, e: Entry)
    requires menu < |tables|
    ensures Lines(Insert(tables, menu, pos, e)) == Lines(tables) + multiset{e}
    decreases |tables|
  {
    var init, last := tables[..|tables| - 1], tables[|tables| - 1];
    var after := Insert(tables, menu, pos, e);
    if menu == |tables| - 1 {
      assert after[..|tables| - 1] == init;
      assert last == last[..|last|];
      if pos <= |last| { assert last == last[..pos] + last[pos..]; }
    } else {
      LinesInsert(init, menu, pos, e);
      assert after[..|tables| - 1] == Insert(init, menu, pos, e);
    }
  }

  function EntriesOf(records: seq<Record>): multiset<Entry> {
    if records == [] then multiset{} else multiset{records[0].entry} + EntriesOf(records[1..])
  }

  /** The menus gain exactly one line for every recorded call, and the separators; nothing is lost. */
  lemma {:induction false} RunAddsLines(b: Build, last: DWord, calls: seq<Call>)
    requires b.Valid() && InScope(calls, |b.menus|)
    ensures Lines(Run(b, last, calls).0.tables) ==
            Lines(b.tables) + EntriesOf(Recorded(b, last, calls)) + multiset{}[Separator := SeparatorsAdded(b, last, calls)]
    decreases |calls|
  {
    hide Step, Run, Recorded, SeparatorsAdded, Lines;
    if calls == [] {
      EmptyRun(b, last);
    } else {
      RunUnfold(b, last, calls);
      StepAddsLines(b, last, calls[0]);
      var (b1, ok) := Step(b, last, calls[0]);
      if ok {
        RunAddsLines(b1, last, calls[1..]);
        if !calls[0].AddSeparator? {
          assert ([RecordOf(b, calls[0])] + Recorded(b1, last, calls[1..]))[1..] == Recorded(b1, last, calls[1..]);
        } else {
          assert [] + Recorded(b1, last, calls[1..]) == Recorded(b1, last, calls[1..]);
        }
      }
    }
  }

  lemma StepAddsLines(b: Build, last: DWord, call: Call)
    requires b.Valid() && call.menu < |b.menus|
    ensures Lines(Step(b, last, call).0.tables) ==
            if !Step(b, last, call).1 then Lines(b.tables)
            else if call.AddSeparator? then Lines(b.tables) + multiset{Separator}
            else Lines(b.tables) + multiset{RecordOf(b, call).entry}
  {
    hide Insert;
    var menu := b.menus[call.menu];
    if call.AddSubMenu? {
      var t := b.tables + [[]];
      assert t[..|t| - 1] == b.tables;
      assert Lines(t) == Lines(b.tables);
      LinesInsert(t, menu.handle, menu.index, RecordOf(b, call).entry);
    } else if call.AddItem? {
      LinesInsert(b.tables, menu.handle, menu.index, RecordOf(b, call).entry);
    } else {
      LinesInsert(b.tables, menu.handle, menu.index, Separator);
    }
  }

  // --- the order of the lines ----------------------------------------------------------------

  // The line a successful call inserts.
  function LineOf(b: Build, call: Call): Entry {
    if call.AddSeparator? then Separator else RecordOf(b, call).entry
  }

  /** The lines the build inserts through menu number `m`, in call order. */
  function Own(b: Build, last: DWord, calls: seq<Call>, m: nat): seq<Entry>
    requires b.Valid() && InScope(calls, |b.menus|)
    decreases |calls|
  {
    if calls == [] || !Step(b, last, calls[0]).1 then []
    else (if calls[0].menu == m then [LineOf(b, calls[0])] else [])
         + Own(Step(b, last, calls[0]).0, last, calls[1..], m)
  }

  function Min(a: nat, b: nat): nat { if a <= b then a else b }

  // Lines put in one piece at a position; behind the last line they are appended.
  function Splice(t: seq<Entry>, pos: nat, own: seq<Entry>): seq<Entry> {
    t[..Min(pos, |t|)] + own + t[Min(pos, |t|)..]
  }

  // How many lines fit before the insertion index wraps.
  function Room(index: DWord): (n: nat)
    ensures n >= 1
  {
    0x1_0000_0000 - index
  }

  /**
   What a menu looks like after these lines were inserted one by one at an advancing 32-bit index:
   whenever the index wraps, insertion starts over at the top.
   */
  function Placed(t: seq<Entry>, index: DWord, own: seq<Entry>): seq<Entry>
    decreases |own|
  {
    if |own| <= Room(index) then Splice(t, index, own)
    else Placed(Splice(t, index, own[..Room(index)]), 0, own[Room(index)..])
  }

  // One line and then the others.
  lemma PlacedNext(t: seq<Entry>, index: DWord, e: Entry, own: seq<Entry>)
    ensures Placed(InsertAt(t, index, e), ToUInt(index + 1), own) == Placed(t, index, [e] + own)
  {
    hide Splice, InsertAt;
    if Room(index) == 1 {
      PlacedBehindWrap(t, index, e, own);
    } else if 1 + |own| <= Room(index) {
      SplicedNext(t, index, e, own);
    } else {
      var w := Room(index);
      assert ([e] + own)[..w] == [e] + own[..w - 1] && ([e] + own)[w..] == own[w - 1..];
      SplicedNext(t, index, e, own[..w - 1]);
    }
  }

  lemma PlacedBehindWrap(t: seq<Entry>, index: DWord, e: Entry, own: seq<Entry>)
    requires Room(index) == 1
    ensures Placed(InsertAt(t, index, e), 0, own) == Placed(t, index, [e] + own)
  {
    assert InsertAt(t, index, e) == Splice(t, index, [e]);
    hide Splice, InsertAt;
    if own == [] {
      NothingPlaced(InsertAt(t, index, e), 0);
      assert [e] + own == [e];
    } else {
      assert ([e] + own)[..1] == [e] && ([e] + own)[1..] == own;
    }
  }

  lemma SplicedNext(t: seq<Entry>, index: DWord, e: Entry, own: seq<Entry>)
    ensures Splice(InsertAt(t, index, e), index + 1, own) == Splice(t, index, [e] + own)
  {
    var p := Min(index, |t|);
    var x, y := t[..p], t[p..];
    assert InsertAt(t, index, e) == x + [e] + y;
    CutBehind(x, e, y);
    Regroup(x, [e], own, y);
  }

  lemma CutBehind(x: seq<Entry>, e: Entry, y: seq<Entry>)
    ensures (x + [e] + y)[..|x| + 1] == x + [e] && (x + [e] + y)[|x| + 1..] == y
  {
  }

  lemma Regroup(x: seq<Entry>, u: seq<Entry>, v: seq<Entry>, y: seq<Entry>)
    ensures x + u + v + y == x + (u + v) + y
  {
  }

  /**
   Whatever happens in other menus in between: the lines added through one menu end up in that
   menu, and nothing else does, as if they had been inserted there one after the other.
   */
  lemma {:induction false} RunPlacesLines(b: Build, last: DWord, calls: seq<Call>, m: nat)
    requires b.Valid() && InScope(calls, |b.menus|) && m < |b.menus|
    ensures var h := b.menus[m].handle;
            && h < |Run(b, last, calls).0.tables|
            && Run(b, last, calls).0.tables[h] == Placed(b.tables[h], b.menus[m].index, Own(b, last, calls, m))
    decreases |calls|
  {
    hide Step, InsertAt, LineOf, Run, Placed, ToUInt;
    var t := b.tables[b.menus[m].handle];
    NothingPlaced(t, b.menus[m].index);
    if calls == [] {
      EmptyRun(b, last);
    } else {
      StepOnMenu(b, last, calls[0], m);
      RunUnfold(b, last, calls);
      var (b1, ok) := Step(b, last, calls[0]);
      if ok {
        RunPlacesLines(b1, last, calls[1..], m);
        if calls[0].menu == m {
          PlacedNext(t, b.menus[m].index, LineOf(b, calls[0]), Own(b1, last, calls[1..], m));
        } else {
          assert [] + Own(b1, last, calls[1..], m) == Own(b1, last, calls[1..], m);
        }
      }
    }
  }

  lemma NothingPlaced(t: seq<Entry>, index: DWord)
    ensures Placed(t, index, []) == t
  {
  }

  lemma StepOnMenu(b: Build, last: DWord, call: Call, m: nat)
    requires b.Valid() && call.menu < |b.menus| && m < |b.menus|
    ensures var ((r, ok), h) := (Step(b, last, call), b.menus[m].handle);
            && |r.menus| >= |b.menus| && r.menus[m].handle == h < |r.tables|
            && (if ok && call.menu == m
                then r.tables[h] == InsertAt(b.tables[h], b.menus[m].index, LineOf(b, call))
                     && r.menus[m].index == ToUInt(b.menus[m].index + 1)
                else r.tables[h] == b.tables[h] && r.menus[m].index == b.menus[m].index)
  {
    hide InsertAt, ToUInt;
    assert m != call.menu ==> b.menus[m].handle != b.menus[call.menu].handle;
  }

  // Lines that were there before come last once insertion starts over at the top.
  lemma {:induction false} PlacedOnTop(t: seq<Entry>, own: seq<Entry>)
    ensures |Placed(t, 0, own)| == |own| + |t| && Placed(t, 0, own)[|own|..] == t
    decreases |own|
  {
    var w := Room(0);
    if |own| <= w {
      assert Splice(t, 0, own) == own + t;
    } else {
      var first, rest := own[..w], own[w..];
      assert Splice(t, 0, first) == first + t;
      PlacedOnTop(first + t, rest);
      var r := Placed(t, 0, own);
      assert r[|own|..] == r[|rest|..][w..];
    }
  }

  /** When the index wraps once, the lines after the wrap come out before all others. */
  lemma PlacedWrapped(t: seq<Entry>, index: DWord, own: seq<Entry>)
    requires Room(index) < |own| <= Room(index) + 0x1_0000_0000
    ensures Placed(t, index, own) == own[Room(index)..] + Splice(t, index, own[..Room(index)])
  {
    var t1, rest := Splice(t, index, own[..Room(index)]), own[Room(index)..];
    assert Placed(t1, 0, rest) == Splice(t1, 0, rest) == rest + t1;
  }

  /**
   Lines of which the first differs from the others stand in one piece, in order, at the insertion
   index exactly when the index does not wrap before the last of them.
   */
  lemma InOnePieceExactly(t: seq<Entry>, index: DWord, own: seq<Entry>)
    requires forall k :: 0 < k < |own| ==> own[k] != own[0]
    ensures Placed(t, index, own) == Splice(t, index, own) <==> index + |own| <= 0x1_0000_0000
  {
    var w := Room(index);
    if |own| > w {
      var rest, p := own[w..], Min(index, |t|);
      var t1 := Splice(t, index, own[..w]);
      PlacedOnTop(t1, rest);
      var r := Placed(t, index, own);
      assert r[|rest| + p] == r[|rest|..][p] == t1[p] == own[0];
      assert Splice(t, index, own)[p + |rest|] == own[|rest|];
    }
  }

  // Ids only grow, so a line with an id differs from all that follow it.
  lemma {:induction false} OwnIdsGrow(b: Build, last: DWord, calls: seq<Call>, m: nat)
    requires b.Valid() && InScope(calls, |b.menus|)
    ensures var own := Own(b, last, calls, m);
            && (forall k :: 0 <= k < |own| && own[k].Entry? ==> own[k].id >= b.next)
            && (own != [] && own[0].Entry? ==> forall k :: 0 < k < |own| ==> own[k] != own[0])
    decreases |calls|
  {
    hide Step, Run, Recorded, SeparatorsAdded;
    if calls != [] {
      StepRecords(b, last, calls[0]);
      RunUnfold(b, last, calls);
      var (b1, ok) := Step(b, last, calls[0]);
      if ok { OwnIdsGrow(b1, last, calls[1..], m); }
    }
  }

  /**
   The lines added through one menu, the first of them not a separator, stand in it in one piece at
   its insertion index in call order exactly when the index does not wrap before the last of them.
   */
  lemma RunKeepsOrder(b: Build, last: DWord, calls: seq<Call>, m: nat)
    requires b.Valid() && InScope(calls, |b.menus|) && m < |b.menus|
    requires Own(b, last, calls, m) != [] ==> Own(b, last, calls, m)[0].Entry?
    ensures var (h, index, own) := (b.menus[m].handle, b.menus[m].index, Own(b, last, calls, m));
            && h < |Run(b, last, calls).0.tables|
            && (Run(b, last, calls).0.tables[h] == Splice(b.tables[h], index, own) <==> index + |own| <= 0x1_0000_0000)
  {
    hide Run, Own, Placed, Splice;
    RunPlacesLines(b, last, calls, m);
    OwnIdsGrow(b, last, calls, m);
    InOnePieceExactly(b.tables[b.menus[m].handle], b.menus[m].index, Own(b, last, calls, m));
  }

  /** A new sub menu is what its line opens: an empty menu of its own that is filled from the top. */
  lemma SubMenuOpens(b: Build, last: DWord, call: Call)
    requires b.Valid() && call.menu < |b.menus| && call.AddSubMenu? && Step(b, last, call).1
    ensures var r := Step(b, last, call).0;
            && |r.menus| == |b.menus| + 1
            && var sub := r.menus[|b.menus|];
            && LineOf(b, call).Entry? && LineOf(b, call).popup == Some(sub.handle)
            && sub.handle < |r.tables| && r.tables[sub.handle] == [] && sub.index == 0
            && forall m :: 0 <= m < |b.menus| ==> r.menus[m].handle == b.menus[m].handle != sub.handle
  {
    hide InsertAt;
  }

  // --- dispatch ------------------------------------------------------------------------------

  function Start(first: DWord, tables: seq<seq<Entry>>, menu: HMenu, index: DWord): Build {
    Build(first, [], tables, [MenuState(menu, index)])
  }

  /** A build does to the given menu what its own lines do, from the given index on, and to no other menu anything. */
  lemma RootMenuHolds(first: DWord, last: DWord, tables: seq<seq<Entry>>, menu: HMenu, index: DWord, calls: seq<Call>)
    requires menu < |tables| && InScope(calls, 1)
    ensures var start := Start(first, tables, menu, index);
            var r := Run(start, last, calls).0;
            && |r.tables| >= |tables|
            && r.tables[menu] == Placed(tables[menu], index, Own(start, last, calls, 0))
            && forall h :: 0 <= h < |tables| && h != menu ==> r.tables[h] == tables[h]
  {
    var start := Start(first, tables, menu, index);
    RunPlacesLines(start, last, calls, 0);
    forall h | 0 <= h < |tables| && h != menu
      ensures h < |Run(start, last, calls).0.tables| && Run(start, last, calls).0.tables[h] == tables[h]
    {
      OtherMenuUntouched(start, last, calls, h);
    }
    RunAddsTables(start, last, calls);
  }

  // A menu that is not among those of the build stays as it is.
  lemma {:induction false} OtherMenuUntouched(b: Build, last: DWord, calls: seq<Call>, h: HMenu)
    requires b.Valid() && InScope(calls, |b.menus|)
    requires h < |b.tables| && forall m :: 0 <= m < |b.menus| ==> b.menus[m].handle != h
    ensures h < |Run(b, last, calls).0.tables| && Run(b, last, calls).0.tables[h] == b.tables[h]
    decreases |calls|
  {
    hide Run, Recorded, SeparatorsAdded, InsertAt;
    if calls == [] {
      EmptyRun(b, last);
    } else {
      RunUnfold(b, last, calls);
      var (b1, ok) := Step(b, last, calls[0]);
      assert b1.tables[h] == b.tables[h];
      if ok { OtherMenuUntouched(b1, last, calls[1..], h); }
    }
  }

  lemma {:induction false} RunAddsTables(b: Build, last: DWord, calls: seq<Call>)
    requires b.Valid() && InScope(calls, |b.menus|)
    ensures |Run(b, last, calls).0.tables| >= |b.tables|
    decreases |calls|
  {
    hide Run, Recorded, SeparatorsAdded, InsertAt;
    if calls == [] {
      EmptyRun(b, last);
    } else {
      RunUnfold(b, last, calls);
      var (b1, ok) := Step(b, last, calls[0]);
      if ok { RunAddsTables(b1, last, calls[1..]); }
    }
  }

  // Two items added to an empty menu whose insertion index is about to wrap come out in reverse.
  lemma WrappedIndexReverses(first: DWord, last: DWord, text1: WString, text2: WString, item1: MenuItem, item2: MenuItem)
    requires first + 2 <= last
    ensures var calls := [AddItem(0, text1, item1, true), AddItem(0, text2, item2, true)];
            && InScope(calls, 1)
            && Run(Start(first, [[]], 0, 0xFFFF_FFFF), last, calls).0.tables ==
               [[Entry(first + 1, text2, None), Entry(first, text1, None)]]
  {
    var calls := [AddItem(0, text1, item1, true), AddItem(0, text2, item2, true)];
    var b := Start(first, [[]], 0, 0xFFFF_FFFF);
    assert calls[1..] == [calls[1]] && calls[1..][1..] == [];
    assert InScope(calls[1..], 1);
    var b1 := Step(b, last, calls[0]).0;
    var b2 := Step(b1, last, calls[1]).0;
    assert b1.tables[0] == [Entry(first, text1, None)] && b1.menus[0].index == 0;
    assert b2.tables[0] == [Entry(first + 1, text2, None), Entry(first, text1, None)];
    hide Step;
    RunUnfold(b, last, calls);
    RunUnfold(b1, last, calls[1..]);
    EmptyRun(b2, last);
  }

  /** ContextMenuImpl::GetMenuItem; `None` is the exception of an index out of range. */
  function GetMenuItem(items: seq<MenuItem>, index: DWord): Option<MenuItem> {
    if index >= |items| then None else Some(items[index])
  }

  // The wrapping subtraction that turns the id in a message into an index.
  function IndexOf(itemID: DWord, first: DWord): DWord { ToUInt(itemID - first) }

  predicate HasId(entry: Entry, id: nat) { entry.Entry? && entry.id == id }

  /**
   After any build an id finds a record exactly if the build gave it out, also when it lies below
   the first id, and then it finds the record of the call that inserted the line with that id.
   */
  lemma DispatchFindsRecord(first: DWord, last: DWord, tables: seq<seq<Entry>>, menu: HMenu, index: DWord,
                            calls: seq<Call>, itemID: DWord)
    requires menu < |tables| && InScope(calls, 1)
    ensures var (b, records) := (Run(Start(first, tables, menu, index), last, calls).0,
                                 Recorded(Start(first, tables, menu, index), last, calls));
            var found := GetMenuItem(b.items, IndexOf(itemID, first));
            && (found.Some? <==> first <= itemID < first + |records|)
            && (found.Some? <==> exists i :: 0 <= i < |records| && HasId(records[i].entry, itemID))
            && (forall i :: 0 <= i < |records| && HasId(records[i].entry, itemID) ==> found == Some(records[i].item))
            && (records != [] ==> first + |records| <= last)
  {
    hide Step, Run, Recorded;
    var start := Start(first, tables, menu, index);
    RunRecords(start, last, calls);
    var b, records := Run(start, last, calls).0, Recorded(start, last, calls);
    IndexExact(itemID, first, |records|);
    if first <= itemID < first + |records| {
      assert HasId(records[itemID - first].entry, itemID);
    }
  }

  lemma IndexExact(itemID: DWord, first: DWord, n: nat)
    requires first + n < 0x1_0000_0000 + 1
    ensures IndexOf(itemID, first) < n <==> first <= itemID < first + n
    ensures first <= itemID ==> IndexOf(itemID, first) == itemID - first
  {
  }

  /** What InvokeCommand makes of a verb given as an offset. */
  function CommandReply(items: seq<MenuItem>, verb: DWord): Reply<Command> {
    if verb >= 0x1_0000 || verb >= |items| then InvalidArg
    else if items[verb].command.None? then NullTarget
    else Reached(items[verb].command.value)
  }

  /**
   After any build a verb reaches the command that was given with the line whose id is `first` plus
   the verb, falls through the null pointer exactly for the line of a popup or of an item without
   command, and is rejected exactly if it has a high word or no line has that id.
   */
  lemma InvokeFindsCommand(first: DWord, last: DWord, tables: seq<seq<Entry>>, menu: HMenu, index: DWord,
                           calls: seq<Call>, verb: DWord)
    requires menu < |tables| && InScope(calls, 1)
    ensures var (b, records) := (Run(Start(first, tables, menu, index), last, calls).0,
                                 Recorded(Start(first, tables, menu, index), last, calls));
            var reply := CommandReply(b.items, verb);
            && (reply == InvalidArg <==>
                verb >= 0x1_0000 || forall i :: 0 <= i < |records| ==> !HasId(records[i].entry, first + verb))
            && (forall i :: 0 <= i < |records| && verb < 0x1_0000 && HasId(records[i].entry, first + verb) ==>
                              reply == if records[i].item.command.None? then NullTarget else Reached(records[i].item.command.value))
  {
    hide Step, Run, Recorded;
    RunRecords(Start(first, tables, menu, index), last, calls);
    var records := Recorded(Start(first, tables, menu, index), last, calls);
    if verb < |records| {
      assert HasId(records[verb].entry, first + verb);
    }
  }

  /** What a message about the line with this id comes to. */
  function MessageReply(items: seq<MenuItem>, first: DWord, itemID: DWord): Reply<Handler> {
    match GetMenuItem(items, IndexOf(itemID, first))
    case None => InvalidArg
    case Some(item) => if item.handler.None? then NullTarget else Reached(item.handler.value)
  }

  /** Drawing is only done for menu controls. */
  function DrawReply(items: seq<MenuItem>, first: DWord, isMenu: bool, itemID: DWord): Reply<Handler> {
    if isMenu then MessageReply(items, first, itemID) else InvalidArg
  }

  /**
   After any build a message about an id reaches the handler that was given with the line that has
   this id, falls through the null pointer exactly if none was given, and is rejected exactly if
   no line has that id; drawing is moreover rejected for other controls than menus.
   */
  lemma MessageFindsHandler(first: DWord, last: DWord, tables: seq<seq<Entry>>, menu: HMenu, index: DWord,
                            calls: seq<Call>, itemID: DWord, isMenu: bool)
    requires menu < |tables| && InScope(calls, 1)
    ensures var (b, records) := (Run(Start(first, tables, menu, index), last, calls).0,
                                 Recorded(Start(first, tables, menu, index), last, calls));
            var (measured, drawn) := (MessageReply(b.items, first, itemID), DrawReply(b.items, first, isMenu, itemID));
            && (measured == InvalidArg <==> forall i :: 0 <= i < |records| ==> !HasId(records[i].entry, itemID))
            && (forall i :: 0 <= i < |records| && HasId(records[i].entry, itemID) ==>
                              && (measured == NullTarget <==> records[i].item.handler.None?)
                              && (forall h :: measured == Reached(h) <==> records[i].item.handler == Some(h)))
            && drawn == (if isMenu then measured else InvalidArg)
  {
    hide Step, Run, Recorded;
    DispatchFindsRecord(first, last, tables, menu, index, calls, itemID);
  }

  // --- the classes ---------------------------------------------------------------------------

  class IdCounter {
    var value: DWord

    constructor (value: DWord)
      ensures this.value == value
    {
      this.value := value;
    }
  }

  class Menu {
    const user32: User32
    const menu: HMenu
    var indexMenu: DWord
    const idCmd: IdCounter
    const idCmdLast: DWord
    const host: ContextMenuImpl

    constructor (user32: User32, menu: HMenu, indexMenu: DWord, idCmd: IdCounter, idCmdLast: DWord, host: ContextMenuImpl)
      ensures this.user32 == user32 && this.menu == menu && this.indexMenu == indexMenu
      ensures this.idCmd == idCmd && this.idCmdLast == idCmdLast && this.host == host
    {
      this.user32, this.menu, this.indexMenu := user32, menu, indexMenu;
      this.idCmd, this.idCmdLast, this.host := idCmd, idCmdLast, host;
    }

    /** CheckID, insertion and bookkeeping; `ok` is false when an exception leaves all as it was. */
    method InsertMenuItem(text: WString, popup: Option<HMenu>, item: MenuItem, apiOk: bool) returns (ok: bool)
      requires menu < |user32.menus|
      modifies this`indexMenu, user32, idCmd, host`menuItems
      ensures ok <==> old(idCmd.value) < idCmdLast && apiOk
      ensures !ok ==> indexMenu == old(indexMenu) && user32.menus == old(user32.menus)
                      && idCmd.value == old(idCmd.value) && host.menuItems == old(host.menuItems)
      ensures ok ==> indexMenu == ToUInt(old(indexMenu) + 1)
                     && user32.menus == Insert(old(user32.menus), menu, old(indexMenu), Entry(old(idCmd.value), text, popup))
                     && idCmd.value == old(idCmd.value) + 1
                     && host.menuItems == old(host.menuItems) + [item]
    {
      if idCmd.value >= idCmdLast { return false; }
      if !apiOk { return false; }
      user32.InsertMenuItem(menu, indexMenu, Entry(idCmd.value, text, popup));
      host.OnAddMenuItem(item);
      indexMenu := ToUInt(indexMenu + 1);
      idCmd.value := idCmd.value + 1;
      return true;
    }

    /** Creates a popup menu and inserts a line for it; the new menu shares the counter and the host. */
    method AddSubMenu(text: WString, help: WString, handler: Option<Handler>, created: bool, apiOk: bool)
      returns (ok: bool, sub: Menu?)
      requires menu < |user32.menus|
      modifies this`indexMenu, user32, idCmd, host`menuItems
      ensures ok <==> created && old(idCmd.value) < idCmdLast && apiOk
      ensures !ok ==> indexMenu == old(indexMenu) && idCmd.value == old(idCmd.value) && host.menuItems == old(host.menuItems)
                      && user32.menus == if created then old(user32.menus) + [[]] else old(user32.menus)
      ensures ok ==> sub != null && fresh(sub) && sub.menu == |old(user32.menus)| && sub.indexMenu == 0
                     && sub.user32 == user32 && sub.idCmd == idCmd && sub.idCmdLast == idCmdLast && sub.host == host
      ensures ok ==> indexMenu == ToUInt(old(indexMenu) + 1)
                     && user32.menus == Insert(old(user32.menus) + [[]], menu, old(indexMenu),
                                               Entry(old(idCmd.value), text, Some(|old(user32.menus)|)))
                     && idCmd.value == old(idCmd.value) + 1
                     && host.menuItems == old(host.menuItems) + [MenuItem(help, None, handler)]
    {
      if !created { return false, null; }
      var subMenu := user32.CreatePopupMenu();
      ok := InsertMenuItem(text, Some(subMenu), MenuItem(help, None, handler), apiOk);
      if !ok { return false, null; }
      sub := new Menu(user32, subMenu, 0, idCmd, idCmdLast, host);
    }

    method AddSeparator(apiOk: bool) returns (ok: bool)
      requires menu < |user32.menus|
      modifies this`indexMenu, user32
      ensures ok == apiOk
      ensures !ok ==> indexMenu == old(indexMenu) && user32.menus == old(user32.menus)
      ensures ok ==> indexMenu == ToUInt(old(indexMenu) + 1)
                     && user32.menus == Insert(old(user32.menus), menu, old(indexMenu), Separator)
    {
      if !apiOk { return false; }
      user32.InsertMenuItem(menu, indexMenu, Separator);
      indexMenu := ToUInt(indexMenu + 1);
      return true;
    }
  }

  /** What answering a message or command amounts to; `NullTarget` is the call through a null pointer. */
  datatype Reply<T> = InvalidArg | NullTarget | Reached(target: T)

  class ContextMenuImpl {
    var menuItems: seq<MenuItem>
    var idCmdFirst: DWord

    constructor ()
      ensures menuItems == [] && idCmdFirst == 0
    {
      menuItems, idCmdFirst := [], 0;
    }

    method OnAddMenuItem(item: MenuItem)
      modifies this`menuItems
      ensures menuItems == old(menuItems) + [item]
    {
      menuItems := menuItems + [item];
    }

    // The objects of the build stand for its state `b`.
    ghost predicate Stands(menus: seq<Menu>, user32: User32, idCmd: IdCounter, last: DWord, b: Build)
      reads this, menus, user32, idCmd
    {
      && b.Valid()
      && b.next == idCmd.value && b.items == menuItems && b.tables == user32.menus && |b.menus| == |menus|
      && (forall m :: 0 <= m < |menus| ==> StandsFor(menus[m], user32, idCmd, last, b.menus[m]))
    }

    ghost predicate StandsFor(menu: Menu, user32: User32, idCmd: IdCounter, last: DWord, s: MenuState)
      reads menu
    {
      && menu.user32 == user32 && menu.idCmd == idCmd && menu.idCmdLast == last && menu.host == this
      && menu.menu == s.handle && menu.indexMenu == s.index
    }

    // Menus stand apart because their handles do.
    lemma OthersDiffer(menus: seq<Menu>, user32: User32, idCmd: IdCounter, last: DWord, b: Build, k: nat)
      requires Stands(menus, user32, idCmd, last, b) && k < |menus|
      ensures forall m :: 0 <= m < |menus| && m != k ==> menus[m] != menus[k]
    {
      forall m | 0 <= m < |menus| && m != k ensures menus[m] != menus[k] {
        assert StandsFor(menus[m], user32, idCmd, last, b.menus[m]) && StandsFor(menus[k], user32, idCmd, last, b.menus[k]);
      }
    }

    // One call of the derived class, carried out on the objects.
    method Perform(call: Call, menus: seq<Menu>, user32: User32, idCmd: IdCounter, last: DWord, ghost b: Build)
      returns (ok: bool, menus': seq<Menu>)
      requires Stands(menus, user32, idCmd, last, b) && call.menu < |menus|
      modifies this`menuItems, menus, user32, idCmd
      ensures ok == Step(b, last, call).1
      ensures Stands(menus', user32, idCmd, last, Step(b, last, call).0)
      ensures menus <= menus' && forall m :: |menus| <= m < |menus'| ==> fresh(menus'[m])
    {
      if call.AddSubMenu? {
        ok, menus' := PerformSubMenu(call, menus, user32, idCmd, last, b);
      } else {
        ok := PerformLine(call, menus, user32, idCmd, last, b);
        menus' := menus;
      }
    }

    method PerformLine(call: Call, menus: seq<Menu>, user32: User32, idCmd: IdCounter, last: DWord, ghost b: Build)
      returns (ok: bool)
      requires Stands(menus, user32, idCmd, last, b) && call.menu < |menus| && !call.AddSubMenu?
      modifies this`menuItems, menus, user32, idCmd
      ensures ok == Step(b, last, call).1
      ensures Stands(menus, user32, idCmd, last, Step(b, last, call).0)
    {
      hide Insert, ToUInt;
      var target := menus[call.menu];
      assert StandsFor(target, user32, idCmd, last, b.menus[call.menu]) && target.menu < |user32.menus|;
      OthersDiffer(menus, user32, idCmd, last, b, call.menu);
      hide Build.Valid;
      if call.AddItem? {
        ok := target.InsertMenuItem(call.text, None, call.item, call.apiOk);
      } else {
        ok := target.AddSeparator(call.apiOk);
      }
    }

    method PerformSubMenu(call: Call, menus: seq<Menu>, user32: User32, idCmd: IdCounter, last: DWord, ghost b: Build)
      returns (ok: bool, menus': seq<Menu>)
      requires Stands(menus, user32, idCmd, last, b) && call.menu < |menus| && call.AddSubMenu?
      modifies this`menuItems, menus, user32, idCmd
      ensures ok == Step(b, last, call).1
      ensures Stands(menus', user32, idCmd, last, Step(b, last, call).0)
      ensures menus <= menus' && forall m :: |menus| <= m < |menus'| ==> fresh(menus'[m])
    {
      hide Insert, ToUInt;
      var target := menus[call.menu];
      assert StandsFor(target, user32, idCmd, last, b.menus[call.menu]) && target.menu < |user32.menus|;
      OthersDiffer(menus, user32, idCmd, last, b, call.menu);
      hide Build.Valid;
      var sub;
      ok, sub := target.AddSubMenu(call.text, call.help, call.handler, call.created, call.apiOk);
      menus' := if ok then menus + [sub] else menus;
    }

    /** QueryContextMenuCore of a derived class that makes these calls on the menu it is given. */
    method QueryContextMenuCore(root: Menu, user32: User32, id: IdCounter, last: DWord, calls: seq<Call>, ghost b: Build)
      returns (ok: bool)
      requires Stands([root], user32, id, last, b) && InScope(calls, 1)
      modifies this`menuItems, root, user32, id
      ensures var (end, success) := Run(b, last, calls);
              ok == success && id.value == end.next && menuItems == end.items && user32.menus == end.tables
    {
      hide Step, Run, Stands;
      var menus := [root];
      ghost var b' := b;
      StandsCount(menus, user32, id, last, b);
      for k := 0 to |calls|
        invariant Stands(menus, user32, id, last, b') && InScope(calls[k..], |b'.menus|) && |b'.menus| == |menus|
        invariant b'.Valid() && Run(b', last, calls[k..]) == Run(b, last, calls)
        invariant id.value == b'.next && menuItems == b'.items && user32.menus == b'.tables
        invariant forall m :: 0 <= m < |menus| ==> menus[m] == root || fresh(menus[m])
      {
        assert calls[k..][0] == calls[k] && calls[k..][1..] == calls[k + 1..];
        RunUnfold(b', last, calls[k..]);
        ok, menus := Perform(calls[k], menus, user32, id, last, b');
        b' := Step(b', last, calls[k]).0;
        StandsCount(menus, user32, id, last, b');
        if !ok { return false; }
      }
      assert calls[|calls|..] == [];
      EmptyRun(b', last);
      return true;
    }

    lemma StandsStart(root: Menu, user32: User32, idCmd: IdCounter, last: DWord, menu: HMenu, index: DWord)
      requires menu < |user32.menus| && menuItems == []
      requires StandsFor(root, user32, idCmd, last, MenuState(menu, index))
      ensures Stands([root], user32, idCmd, last, Start(idCmd.value, user32.menus, menu, index))
    {
    }

    lemma StandsCount(menus: seq<Menu>, user32: User32, idCmd: IdCounter, last: DWord, b: Build)
      requires Stands(menus, user32, idCmd, last, b)
      ensures b.Valid() && |b.menus| == |menus|
      ensures b.next == idCmd.value && b.items == menuItems && b.tables == user32.menus
    {
    }

    /**
     QueryContextMenu; `defaultOnly` is the CMF_DEFAULTONLY bit of its flags. The host starts over,
     so that afterwards its records are those of this build alone, whether it was completed or cut
     short by an exception.
     */
    method QueryContextMenu(user32: User32, menu: HMenu, indexMenu: DWord, first: DWord, last: DWord,
                            defaultOnly: bool, calls: seq<Call>)
      returns (hr: DWord)
      requires menu < |user32.menus| && InScope(calls, 1)
      modifies this, user32
      ensures defaultOnly ==>
                hr == S_OK && menuItems == old(menuItems) && idCmdFirst == old(idCmdFirst) && user32.menus == old(user32.menus)
      ensures !defaultOnly ==>
                var (b, ok) := Run(Start(first, old(user32.menus), menu, indexMenu), last, calls);
                && idCmdFirst == first && menuItems == b.items && user32.menus == b.tables
                && hr == if ok then ToUShort(ToUInt(b.next - first)) else E_FAIL
    {
      if defaultOnly { return S_OK; }
      hide Step, Insert, Run, Stands, InScope, Build.Valid, Start, ToUInt, ToUShort;
      menuItems := [];
      idCmdFirst := first;
      var id := new IdCounter(first);
      var root := new Menu(user32, menu, indexMenu, id, last, this);
      StandsStart(root, user32, id, last, menu, indexMenu);
      var ok := QueryContextMenuCore(root, user32, id, last, calls, Start(first, user32.menus, menu, indexMenu));
      if !ok { return E_FAIL; }
      return ToUShort(ToUInt(id.value - first));
    }

    /** InvokeCommand with a verb given as an offset; a popup's record has no command to call. */
    method InvokeCommand(verb: DWord) returns (r: Reply<Command>)
      ensures r == CommandReply(menuItems, verb)
    {
      if verb / 0x1_0000 != 0 { return InvalidArg; }
      var item := GetMenuItem(menuItems, verb % 0x1_0000);
      if item.None? { return InvalidArg; }
      return if item.value.command.None? then NullTarget else Reached(item.value.command.value);
    }

    /** OnMeasureItem: the handler of the line with this id. */
    method OnMeasureItem(itemID: DWord) returns (r: Reply<Handler>)
      ensures r == MessageReply(menuItems, idCmdFirst, itemID)
    {
      var item := GetMenuItem(menuItems, ToUInt(itemID - idCmdFirst));
      if item.None? { return InvalidArg; }
      return if item.value.handler.None? then NullTarget else Reached(item.value.handler.value);
    }

    /** OnDrawItem: the same, for menu controls only. */
    method OnDrawItem(isMenu: bool, itemID: DWord) returns (r: Reply<Handler>)
      ensures r == DrawReply(menuItems, idCmdFirst, isMenu, itemID)
    {
      if !isMenu { return InvalidArg; }
      r := OnMeasureItem(itemID);
    }
  }

  /** The count in the returned code is the number of ids used exactly when that is below 2^16. */
  lemma AddedCountExact(first: DWord, last: DWord, tables: seq<seq<Entry>>, menu: HMenu, index: DWord, calls: seq<Call>)
    requires menu < |tables| && InScope(calls, 1)
    ensures var (b, records) := (Run(Start(first, tables, menu, index), last, calls).0,
                                 Recorded(Start(first, tables, menu, index), last, calls));
            ToUShort(ToUInt(b.next - first)) == |records| <==> |records| < 0x1_0000
  {
    hide Step, Run, Recorded;
    RunRecords(Start(first, tables, menu, index), last, calls);
  }
}
