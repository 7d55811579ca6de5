/** The double-NUL list of file names in a CF_HDROP block, and the loop that reads such lists. */
module FileList {
  import opened Words
  import opened VvvItem

  // sizeof(DROPFILES): pFiles, a point, fNC and fWide.
  const DROPFILES_SIZE: nat := 20
  const WIDE_AT: nat := 16

  predicate Clean(names: seq<WString>) { forall i :: 0 <= i < |names| ==> 0 !in names[i] }

  /** Every name with its NUL, one after the other. */
  function Written(names: seq<WString>): WString {
    if names == [] then [] else names[0] + [0] + Written(names[1..])
  }

  lemma {:induction false} WrittenAppend(names: seq<WString>, name: WString)
    ensures Written(names + [name]) == Written(names) + name + [0]
  {
    if names == [] {
      assert [name][1..] == [] && Written([]) == [];
    } else {
      WrittenAppend(names[1..], name);
      assert (names + [name])[1..] == names[1..] + [name];
      var x := names[0] + [0];
      assert x + (Written(names[1..]) + name + [0]) == x + Written(names[1..]) + name + [0];
    }
  }

  lemma {:induction false} WrittenPrefix(names: seq<WString>, i: nat)
    requires i <= |names|
    ensures |Written(names[..i])| <= |Written(names)|
    decreases |names|
  {
    if i > 0 {
      WrittenPrefix(names[1..], i - 1);
      assert names[..i][1..] == names[1..][..i - 1];
    }
  }

  /** The code units `s` are stored from byte `p` on. */
  ghost predicate Stored(b: seq<Byte>, p: nat, s: WString) {
    p + 2 * |s| <= |b| && forall k :: 0 <= k < |s| ==> Get16(b, p + 2 * k) == s[k]
  }

  class FileList {
    var filenames: seq<WString>

    ghost predicate Valid()
      reads this
    {
      Clean(filenames)
    }

    constructor ()
      ensures Valid() && filenames == []
    {
      filenames := [];
    }

    method Add(filename: WString)
      requires Valid()
      modifies this
      ensures Valid() && filenames == old(filenames) + [CStr(filename)]
    {
      filenames := filenames + [CStr(filename)];
    }

    /** The size of the block, with the character count kept in 32 bits. */
    method GetDataSize() returns (size: nat)
      requires |Written(filenames)| + 1 < 0x1_0000_0000
      ensures size == DROPFILES_SIZE + 2 * (|Written(filenames)| + 1)
    {
      var charCount: DWord := 0;
      for i := 0 to |filenames|
        invariant charCount == |Written(filenames[..i])|
      {
        WrittenAppend(filenames[..i], filenames[i]);
        assert filenames[..i + 1] == filenames[..i] + [filenames[i]];
        WrittenPrefix(filenames, i + 1);
        charCount := ToUInt(charCount + |filenames[i]| + 1);
      }
      assert filenames[..|filenames|] == filenames;
      return DROPFILES_SIZE + 2 * (charCount + 1);
    }

    /** Fills the block exactly: the header, then every name with its NUL, then one more NUL. */
    method CreateData() returns (a: array<Byte>)
      requires Valid() && |Written(filenames)| + 1 < 0x1_0000_0000
      ensures fresh(a) && a.Length == DROPFILES_SIZE + 2 * (|Written(filenames)| + 1)
      ensures Get32(a[..], 0) == DROPFILES_SIZE && Get32(a[..], WIDE_AT) == 1
      ensures Stored(a[..], DROPFILES_SIZE, Written(filenames) + [0])
    {
      var size := GetDataSize();
      a := new Byte[size];
      Store32(a, 0, DROPFILES_SIZE);
      Store32(a, WIDE_AT, 1);
      ghost var header := a[..DROPFILES_SIZE];
      ghost var done: WString := [];
      var p := DROPFILES_SIZE;
      assert Get32(header, 0) == DROPFILES_SIZE && Get32(header, WIDE_AT) == 1;
      for i := 0 to |filenames|
        invariant done == Written(filenames[..i]) && p == DROPFILES_SIZE + 2 * |done|
        invariant a[..DROPFILES_SIZE] == header && Stored(a[..], DROPFILES_SIZE, done)
      {
        WrittenAppend(filenames[..i], filenames[i]);
        assert filenames[..i + 1] == filenames[..i] + [filenames[i]];
        WrittenPrefix(filenames, i + 1);
        CopyName(a, p, filenames[i], header, done);
        p := p + 2 * (|filenames[i]| + 1);
        done := done + filenames[i] + [0];
      }
      assert filenames[..|filenames|] == filenames;
      Append(a, p, 0, header, done);
      HeaderKept(a[..], header);
    }
  }

  /** The code units of the block from byte `p` on, one by one. */
  method Units(a: array<Byte>, p: nat) returns (s: WString)
    requires p <= a.Length
    ensures |s| == (a.Length - p) / 2 && Stored(a[..], p, s)
  {
    s := [];
    while p + 2 * |s| + 2 <= a.Length
      invariant p + 2 * |s| <= a.Length && Stored(a[..], p, s)
    {
      s := s + [Get16(a[..], p + 2 * |s|)];
    }
  }

  lemma StoredUnique(b: seq<Byte>, p: nat, s: WString, t: WString)
    requires Stored(b, p, s) && Stored(b, p, t) && |s| == |t|
    ensures s == t
  {
    hide Get16;
    assert forall k :: 0 <= k < |s| ==> Get16(b, p + 2 * k) == s[k] == t[k];
  }

  lemma HeaderKept(b: seq<Byte>, header: seq<Byte>)
    requires |b| >= DROPFILES_SIZE && b[..DROPFILES_SIZE] == header
    ensures Get32(b, 0) == Get32(header, 0) && Get32(b, WIDE_AT) == Get32(header, WIDE_AT)
  {
    assert forall i :: 0 <= i < DROPFILES_SIZE ==> b[i] == header[i];
  }

  // Stores the next code unit behind those already done.
  method Append(a: array<Byte>, p: nat, w: Word, ghost header: seq<Byte>, ghost done: WString)
    requires p == DROPFILES_SIZE + 2 * |done| && p + 2 <= a.Length
    requires a[..DROPFILES_SIZE] == header && Stored(a[..], DROPFILES_SIZE, done)
    modifies a
    ensures a[..DROPFILES_SIZE] == header && Stored(a[..], DROPFILES_SIZE, done + [w])
  {
    Store16(a, p, w);
  }

  // lstrcpy of a NUL-free name.
  method CopyName(a: array<Byte>, p: nat, name: WString, ghost header: seq<Byte>, ghost done: WString)
    requires p == DROPFILES_SIZE + 2 * |done| && p + 2 * (|name| + 1) <= a.Length
    requires a[..DROPFILES_SIZE] == header && Stored(a[..], DROPFILES_SIZE, done)
    modifies a
    ensures a[..DROPFILES_SIZE] == header && Stored(a[..], DROPFILES_SIZE, done + name + [0])
  {
    assert done + name[..0] == done;
    for k := 0 to |name|
      invariant a[..DROPFILES_SIZE] == header && Stored(a[..], DROPFILES_SIZE, done + name[..k])
    {
      Append(a, p + 2 * k, name[k], header, done + name[..k]);
      assert done + name[..k] + [name[k]] == done + name[..k + 1];
    }
    assert name[..|name|] == name;
    Append(a, p + 2 * |name|, 0, header, done + name);
  }

  // --- reading -----------------------------------------------------------------------------

  /** The strings of a double-NUL list. */
  function Parse(buffer: WString): seq<WString>
    requires buffer == [] || buffer[|buffer| - 1] == 0
  {
    if buffer == [] || buffer[0] == 0 then []
    else [CStr(buffer)] + Parse(buffer[|CStr(buffer)| + 1..])
  }

  /** The loop of QueryMultiStringValue over a terminated buffer; all reads stay inside. */
  method QueryMultiStringValue(buffer: WString) returns (strings: seq<WString>)
    requires buffer == [] || buffer[|buffer| - 1] == 0
    ensures strings == Parse(buffer)
  {
    hide Parse, CStr;
    strings := [];
    var i := 0;
    while i < |buffer| && buffer[i] != 0
      invariant 0 <= i <= |buffer|
      invariant strings + Parse(buffer[i..]) == Parse(buffer)
    {
      ParseStep(buffer, i);
      var s := CStr(buffer[i..]);
      strings := strings + [s];
      i := i + |s| + 1;
    }
    ParseEnd(buffer[i..]);
  }

  lemma ParseStep(buffer: WString, i: nat)
    requires i < |buffer| && buffer[i] != 0 && buffer[|buffer| - 1] == 0
    ensures var n := i + |CStr(buffer[i..])| + 1;
            n <= |buffer| && Parse(buffer[i..]) == [CStr(buffer[i..])] + Parse(buffer[n..])
  {
    assert buffer[i..][|CStr(buffer[i..])| + 1..] == buffer[i + |CStr(buffer[i..])| + 1..];
  }

  lemma ParseEnd(buffer: WString)
    requires buffer == [] || (buffer[0] == 0 && buffer[|buffer| - 1] == 0)
    ensures Parse(buffer) == []
  {
  }

  // The number of names before the first empty one.
  function LeadingNonEmpty(names: seq<WString>): (n: nat)
    ensures n <= |names|
    ensures n == |names| <==> forall i :: 0 <= i < |names| ==> names[i] != []
  {
    if names == [] || names[0] == [] then 0 else 1 + LeadingNonEmpty(names[1..])
  }

  /** Reading a written list yields the names before the first empty one; */
  lemma {:induction false} ParseOfWritten(names: seq<WString>)
    requires Clean(names)
    ensures Parse(Written(names) + [0]) == names[..LeadingNonEmpty(names)]
  {
    if names != [] {
      var tail := Written(names[1..]) + [0];
      assert Written(names) + [0] == names[0] + [0] + tail;
      if names[0] != [] {
        ParseOfWritten(names[1..]);
        hide Parse, Written;
        ParseFirst(names[0], tail);
      } else {
        hide Written;
      }
    }
  }

  lemma ParseFirst(s: WString, tail: WString)
    requires s != [] && 0 !in s && tail != [] && tail[|tail| - 1] == 0
    ensures Parse(s + [0] + tail) == [s] + Parse(tail)
  {
    CStrStops(s, tail);
    assert (s + [0] + tail)[|s| + 1..] == tail;
  }

  lemma {:induction false} CStrStops(s: WString, tail: WString)
    requires 0 !in s
    ensures CStr(s + [0] + tail) == s
  {
    if s != [] {
      CStrStops(s[1..], tail);
      assert (s + [0] + tail)[1..] == s[1..] + [0] + tail;
    }
  }

  /** so the whole list comes back exactly when no name is empty. */
  lemma ListRoundTrip(names: seq<WString>)
    requires Clean(names)
    ensures Parse(Written(names) + [0]) == names <==> forall i :: 0 <= i < |names| ==> names[i] != []
  {
    ParseOfWritten(names);
  }

  /**
   The whole trip: what the reading loop makes of the code units behind the header of the block is
   the names before the first empty one, so all of them exactly when none is empty.
   */
  method TransferNames(list: FileList) returns (names: seq<WString>)
    requires list.Valid() && |Written(list.filenames)| + 1 < 0x1_0000_0000
    ensures names == list.filenames[..LeadingNonEmpty(list.filenames)]
    ensures names == list.filenames <==> forall i :: 0 <= i < |list.filenames| ==> list.filenames[i] != []
  {
    var a := list.CreateData();
    var units := Units(a, DROPFILES_SIZE);
    StoredUnique(a[..], DROPFILES_SIZE, units, Written(list.filenames) + [0]);
    names := QueryMultiStringValue(units);
    ParseOfWritten(list.filenames);
  }
}
