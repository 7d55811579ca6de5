/** Item IDs composed of single members, and the iterator that reads the members back. */
module ShellItemId {
  import opened Words
  import opened Pidl

  datatype Member = Flag(b: bool) | Number(n: DWord) | Text(s: WString)

  datatype Kind = FlagKind | NumberKind | TextKind

  function KindOf(m: Member): Kind {
    match m
    case Flag(_) => FlagKind
    case Number(_) => NumberKind
    case Text(_) => TextKind
  }

  function WideBytes(s: WString): (b: seq<Byte>)
    ensures |b| == 2 * |s|
  {
    if s == [] then [] else Le16(s[0]) + WideBytes(s[1..])
  }

  /** The bytes a member contributes; a text brings its NUL. */
  function Bytes(m: Member): (b: seq<Byte>)
    ensures b != []
  {
    match m
    case Flag(b) => [if b then 1 else 0]
    case Number(n) => Le32(n)
    case Text(s) => WideBytes(s) + Le16(0)
  }

  /** A flag is one byte, a number four and a text its code units and a NUL. */
  lemma MemberLayout(m: Member)
    ensures m.Flag? ==> Bytes(m) == (if m.b then [1] else [0])
    ensures m.Number? ==> |Bytes(m)| == 4 && Get32(Bytes(m), 0) == m.n
    ensures m.Text? ==> |Bytes(m)| == 2 * |m.s| + 2 && StoredAt(Bytes(m), 0, m.s)
  {
    var b := Bytes(m);
    assert b[0..|b|] == b;
    if m.Number? { Read32(b, 0, m.n); }
    if m.Text? { WideStored(b, 0, m.s); }
  }

  function AllBytes(members: seq<Member>): seq<Byte> {
    if members == [] then [] else Bytes(members[0]) + AllBytes(members[1..])
  }

  lemma {:induction false} AllBytesAppend(members: seq<Member>, m: Member)
    ensures AllBytes(members + [m]) == AllBytes(members) + Bytes(m)
  {
    hide Bytes;
    if members == [] {
      assert [m][1..] == [] && AllBytes([]) == [];
    } else {
      AllBytesAppend(members[1..], m);
      assert (members + [m])[1..] == members[1..] + [m];
    }
  }

  lemma {:induction false} AllBytesPrefix(members: seq<Member>, i: nat)
    requires i <= |members|
    ensures |AllBytes(members[..i])| <= |AllBytes(members)|
    decreases |members|
  {
    hide Bytes;
    if i > 0 {
      AllBytesPrefix(members[1..], i - 1);
      assert members[..i][1..] == members[1..][..i - 1];
    }
  }

  lemma AllBytesOfNone(members: seq<Member>)
    ensures AllBytes(members[..0]) == []
  {
  }

  method GetMembersSize(members: seq<Member>) returns (size: nat)
    ensures size == |AllBytes(members)|
  {
    size := 0;
    for i := 0 to |members|
      invariant size == |AllBytes(members[..i])|
    {
      AllBytesAppend(members[..i], members[i]);
      assert members[..i + 1] == members[..i] + [members[i]];
      size := size + |Bytes(members[i])|;
    }
    assert members[..|members|] == members;
  }

  // memcpy of one member behind those already copied.
  method CopyMember(a: array<Byte>, p: nat, m: Member, ghost head: seq<Byte>, ghost done: seq<Byte>)
    requires p == 2 + |done| && p + |Bytes(m)| <= a.Length
    requires a[..2] == head && a[2..p] == done
    modifies a
    ensures a[..2] == head && a[2..p + |Bytes(m)|] == done + Bytes(m)
  {
    var bytes := Bytes(m);
    hide Bytes;
    ghost var front := a[..p];
    for k := 0 to |bytes|
      invariant a[..p + k] == front + bytes[..k]
    {
      a[p + k] := bytes[k];
    }
    assert front == head + done;
    assert a[..2] == a[..p + |bytes|][..2] && a[2..p + |bytes|] == a[..p + |bytes|][2..];
  }

  // The copy loop of the constructor.
  method CopyMembers(a: array<Byte>, members: seq<Member>, ghost head: seq<Byte>)
    requires 2 + |AllBytes(members)| <= a.Length && a[..2] == head
    modifies a
    ensures a[0] == head[0] && a[1] == head[1] && a[2..2 + |AllBytes(members)|] == AllBytes(members)
  {
    var p := 2;
    ghost var done: seq<Byte> := [];
    hide AllBytes, Bytes;
    AllBytesOfNone(members);
    for i := 0 to |members|
      invariant p == 2 + |done| <= a.Length && done == AllBytes(members[..i])
      invariant a[..2] == head && a[2..p] == done
    {
      AllBytesAppend(members[..i], members[i]);
      assert members[..i + 1] == members[..i] + [members[i]];
      AllBytesPrefix(members, i + 1);
      CopyMember(a, p, members[i], head, done);
      p := p + |Bytes(members[i])|;
      done := done + Bytes(members[i]);
    }
    assert members[..|members|] == members;
    assert a[0] == a[..2][0] && a[1] == a[..2][1];
  }

  /**
   The CShellItemId constructor: the members behind a 16-bit size and, if asked for, a
   terminator. With it the result is a list of this one item exactly when the size fits.
   */
  method Create(mem: TaskMemory, members: seq<Member>, addEmptyId: bool) returns (a: array<Byte>)
    modifies mem
    ensures fresh(a) && mem.live == old(mem.live) + {a}
    ensures var n := |AllBytes(members)|;
            && a.Length == 2 + n + (if addEmptyId then 2 else 0)
            && Get16(a[..], 0) == ToUShort(2 + n)
            && a[2..2 + n] == AllBytes(members)
            && (addEmptyId ==> (IsSingle(a[..], n) <==> 2 + n < 0x1_0000))
  {
    var n := GetMembersSize(members);
    a := mem.Alloc(2 + n + if addEmptyId then 2 else 0);
    var cb := ToUShort(2 + n);
    a[0], a[1] := cb % 0x100, cb / 0x100;
    CopyMembers(a, members, a[..2]);
    if addEmptyId {
      a[2 + n], a[3 + n] := 0, 0;
    }
  }

  // --- reading -----------------------------------------------------------------------------

  /** Reads one member at `p` and says where the cursor is then; a text does not move it. */
  function Read(b: seq<Byte>, p: nat, kind: Kind): (r: Option<(Member, nat)>)
    ensures r.Some? ==> r.value.1 <= |b|
  {
    match kind
    case FlagKind => if p + 1 <= |b| then Some((Flag(b[p] != 0), p + 1)) else None
    case NumberKind => if p + 4 <= |b| then Some((Number(Get32(b, p)), p + 4)) else None
    case TextKind => if p <= |b| then Some((Text(CStrAt(b, p, (|b| - p) / 2)), p)) else None
  }

  function ReadAll(b: seq<Byte>, p: nat, kinds: seq<Kind>): Option<(seq<Member>, nat)>
    decreases |kinds|
  {
    if kinds == [] then Some(([], p))
    else
      var r := Read(b, p, kinds[0]);
      if r.None? then None
      else
        var rest := ReadAll(b, r.value.1, kinds[1..]);
        if rest.None? then None else Some(([r.value.0] + rest.value.0, rest.value.1))
  }

  function KindsOf(members: seq<Member>): (kinds: seq<Kind>)
    ensures |kinds| == |members|
  {
    if members == [] then [] else [KindOf(members[0])] + KindsOf(members[1..])
  }

  /** Flags and numbers, optionally followed by one NUL-free text at the very end. */
  predicate TextLast(members: seq<Member>) {
    forall i :: 0 <= i < |members| && members[i].Text? ==> i == |members| - 1 && 0 !in members[i].s
  }

  predicate NoText(members: seq<Member>) { forall i :: 0 <= i < |members| ==> !members[i].Text? }

  lemma {:induction false} WideStored(b: seq<Byte>, p: nat, s: WString)
    requires At(b, p, WideBytes(s) + Le16(0))
    ensures StoredAt(b, p, s)
    decreases |s|
  {
    if s == [] {
      assert WideBytes(s) + Le16(0) == Le16(0);
      Read16(b, p, 0);
    } else {
      assert WideBytes(s) + Le16(0) == Le16(s[0]) + (WideBytes(s[1..]) + Le16(0));
      AtSplit(b, p, Le16(s[0]), WideBytes(s[1..]) + Le16(0));
      Read16(b, p, s[0]);
      WideStored(b, p + 2, s[1..]);
      forall k | 0 <= k < |s| ensures Get16(b, p + 2 * k) == s[k] {
        if k > 0 { assert Get16(b, p + 2 + 2 * (k - 1)) == s[1..][k - 1]; }
      }
      assert Get16(b, p + 2 + 2 * |s[1..]|) == 0;
    }
  }

  lemma ReadMember(b: seq<Byte>, p: nat, m: Member)
    requires At(b, p, Bytes(m)) && (m.Text? ==> 0 !in m.s)
    ensures Read(b, p, KindOf(m)) == Some((m, if m.Text? then p else p + |Bytes(m)|))
  {
    match m
    case Flag(f) => assert b[p] == b[p..p + 1][0];
    case Number(n) => Read32(b, p, n);
    case Text(s) =>
      WideStored(b, p, s);
      ReadString(b, p, (|b| - p) / 2, s);
  }

  /**
   The members come back in the order they were written. The cursor then stands at the end of
   the item exactly when there was no text, because reading a text does not advance it.
   */
  lemma {:induction false} MembersReadBack(b: seq<Byte>, p: nat, members: seq<Member>)
    requires TextLast(members) && At(b, p, AllBytes(members))
    ensures var r := ReadAll(b, p, KindsOf(members));
            && r.Some? && r.value.0 == members
            && (r.value.1 == p + |AllBytes(members)| <==> NoText(members))
    decreases |members|
  {
    hide Bytes, Read, At;
    if members != [] {
      var m, rest := members[0], members[1..];
      AtSplit(b, p, Bytes(m), AllBytes(rest));
      ReadMember(b, p, m);
      if m.Text? {
        assert rest == [] && members == [m];
      } else {
        forall i | 0 <= i < |rest| && rest[i].Text? ensures i == |rest| - 1 && 0 !in rest[i].s {
          assert members[i + 1] == rest[i];
        }
        MembersReadBack(b, p + |Bytes(m)|, rest);
        assert members == [m] + rest;
      }
    }
  }

  class CShellItemIterator {
    const b: seq<Byte>
    var p: nat

    constructor (b: seq<Byte>, itemAt: nat)
      ensures this.b == b && p == itemAt + 2
    {
      this.b := b;
      p := itemAt + 2;
    }

    method GetBool() returns (r: bool)
      requires Read(b, p, FlagKind).Some?
      modifies this
      ensures Read(b, old(p), FlagKind) == Some((Flag(r), p)) && (r <==> b[old(p)] != 0)
    {
      r := b[p] != 0;
      p := p + 1;
    }

    method GetUnsignedInt() returns (n: DWord)
      requires Read(b, p, NumberKind).Some?
      modifies this
      ensures Read(b, old(p), NumberKind) == Some((Number(n), p))
    {
      n := Get32(b, p);
      p := p + 4;
    }

    method GetString() returns (s: WString)
      requires Read(b, p, TextKind).Some?
      ensures Read(b, p, TextKind) == Some((Text(s), p))
    {
      s := CStrAt(b, p, (|b| - p) / 2);
    }
  }

  // What was read before is put in front of what is still to be read.
  function Prefixed(done: seq<Member>, r: Option<(seq<Member>, nat)>): Option<(seq<Member>, nat)> {
    if r.None? then None else Some((done + r.value.0, r.value.1))
  }

  lemma ReadAllStep(b: seq<Byte>, p: nat, kinds: seq<Kind>, done: seq<Member>)
    requires kinds != []
    ensures var r := Read(b, p, kinds[0]);
            Prefixed(done, ReadAll(b, p, kinds)) ==
            if r.None? then None else Prefixed(done + [r.value.0], ReadAll(b, r.value.1, kinds[1..]))
  {
    hide Read;
    var r := Read(b, p, kinds[0]);
    if r.Some? && ReadAll(b, r.value.1, kinds[1..]).Some? {
      var rest := ReadAll(b, r.value.1, kinds[1..]).value.0;
      assert done + ([r.value.0] + rest) == done + [r.value.0] + rest;
    }
  }

  lemma ReadNothing(b: seq<Byte>, p: nat, done: seq<Member>)
    ensures Prefixed(done, ReadAll(b, p, [])) == Some((done, p))
  {
    assert done + [] == done;
  }

  /** Calls the getters of an iterator one after the other; `None` when a read would leave the buffer. */
  method ReadMembers(b: seq<Byte>, itemAt: nat, kinds: seq<Kind>) returns (r: Option<(seq<Member>, nat)>)
    ensures r == ReadAll(b, itemAt + 2, kinds)
  {
    hide ReadAll, Prefixed;
    var it := new CShellItemIterator(b, itemAt);
    var done: seq<Member> := [];
    PrefixedByNone(ReadAll(b, it.p, kinds));
    assert kinds[0..] == kinds;
    for i := 0 to |kinds|
      invariant it.b == b
      invariant Prefixed(done, ReadAll(b, it.p, kinds[i..])) == ReadAll(b, itemAt + 2, kinds)
    {
      assert kinds[i..][1..] == kinds[i + 1..];
      ReadAllStep(b, it.p, kinds[i..], done);
      if Read(b, it.p, kinds[i]).None? { return None; }
      match kinds[i] {
        case FlagKind =>
          var f := it.GetBool();
          done := done + [Flag(f)];
        case NumberKind =>
          var n := it.GetUnsignedInt();
          done := done + [Number(n)];
        case TextKind =>
          var s := it.GetString();
          done := done + [Text(s)];
      }
    }
    assert kinds[|kinds|..] == [];
    ReadNothing(b, it.p, done);
    return Some((done, it.p));
  }

  lemma PrefixedByNone(r: Option<(seq<Member>, nat)>)
    ensures Prefixed([], r) == r
  {
    if r.Some? { assert [] + r.value.0 == r.value.0; }
  }

  /** The whole trip: whatever its size, a created item gives its members back through the getters. */
  method CreateAndRead(mem: TaskMemory, members: seq<Member>, addEmptyId: bool) returns (r: Option<(seq<Member>, nat)>)
    requires TextLast(members)
    modifies mem
    ensures r.Some? && r.value.0 == members
    ensures r.value.1 == 2 + |AllBytes(members)| <==> NoText(members)
  {
    var a := Create(mem, members, addEmptyId);
    var b := a[..];
    assert At(b, 2, AllBytes(members));
    hide ReadAll, AllBytes, At, KindsOf;
    MembersReadBack(b, 2, members);
    r := ReadMembers(b, 0, KindsOf(members));
  }

  /** A created item read through the iterator: the members again, in order. */
  lemma CreatedReadsBack(a: seq<Byte>, members: seq<Member>)
    requires TextLast(members) && |a| >= 2 + |AllBytes(members)| && a[2..2 + |AllBytes(members)|] == AllBytes(members)
    requires IsSingle(a, |AllBytes(members)|)
    ensures ReadAll(a, 2, KindsOf(members)).Some? && ReadAll(a, 2, KindsOf(members)).value.0 == members
    ensures ValidAt(a, 0) && ItemsAt(a, 0) == [AllBytes(members)]
    ensures ReadAll(a, 2, KindsOf(members)).value.1 == Cb(a, 0) <==>
            NoText(members)
  {
    MembersReadBack(a, 2, members);
    SingleDecodes(a, |AllBytes(members)|);
  }
}
