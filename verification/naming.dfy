/** Numbers and id paths printed as text: the section names that act as keys of the .vvv store. */
module Naming {
  import opened Words

  const BACKSLASH: Word := 92
  const MINUS: Word := 45
  const ZERO: Word := 48

  /** The code units of an ASCII literal. */
  function Wide(s: string): (w: WString)
    ensures |w| == |s|
  {
    seq(|s|, i requires 0 <= i < |s| => (s[i] as int) % 0x1_0000)
  }

  predicate IsDigit(c: Word) { ZERO <= c < ZERO + 10 }

  predicate AllDigits(s: WString) { forall i :: 0 <= i < |s| ==> IsDigit(s[i]) }

  /** std::to_wstring of an unsigned number. */
  function Decimal(n: nat): (s: WString)
    ensures s != [] && AllDigits(s)
    ensures s[0] == ZERO <==> n == 0
    ensures |s| > 1 ==> s[0] != ZERO
  {
    if n < 10 then [ZERO + n] else Decimal(n / 10) + [ZERO + n % 10]
  }

  function Value(s: WString): nat
    requires AllDigits(s)
  {
    if s == [] then 0 else 10 * Value(s[..|s| - 1]) + (s[|s| - 1] - ZERO)
  }

  lemma {:induction false} ValueOfDecimal(n: nat)
    ensures Value(Decimal(n)) == n
  {
    if n < 10 {
      assert Value([]) == 0;
    } else {
      ValueOfDecimal(n / 10);
      assert Decimal(n)[..|Decimal(n)| - 1] == Decimal(n / 10);
    }
  }

  lemma DecimalInjective(m: nat, n: nat)
    requires Decimal(m) == Decimal(n)
    ensures m == n
  {
    ValueOfDecimal(m);
    ValueOfDecimal(n);
  }

  function LeadingDigits(s: WString): (d: WString)
    ensures AllDigits(d)
  {
    if s == [] || !IsDigit(s[0]) then [] else [s[0]] + LeadingDigits(s[1..])
  }

  /** How an INI integer is read: its leading decimal digits, in 32 bits. */
  function ParseUInt(s: WString): DWord {
    ToUInt(Value(LeadingDigits(s)))
  }

  lemma {:induction false} LeadingDigitsOfDigits(s: WString)
    requires AllDigits(s)
    ensures LeadingDigits(s) == s
  {
    if s != [] { LeadingDigitsOfDigits(s[1..]); }
  }

  /** A number written to the store reads back unchanged. */
  lemma ParseOfDecimal(n: DWord)
    ensures ParseUInt(Decimal(n)) == n
  {
    LeadingDigitsOfDigits(Decimal(n));
    ValueOfDecimal(n);
  }

  /** What follows the digits does not matter, and without any the number is zero. */
  lemma ParseStops(n: DWord, rest: WString)
    requires rest == [] || !IsDigit(rest[0])
    ensures ParseUInt(Decimal(n) + rest) == n && ParseUInt(rest) == 0
  {
    DigitsStop(Decimal(n), rest);
    ValueOfDecimal(n);
    assert Value([]) == 0;
  }

  lemma {:induction false} DigitsStop(d: WString, rest: WString)
    requires AllDigits(d) && (rest == [] || !IsDigit(rest[0]))
    ensures LeadingDigits(d + rest) == d
  {
    if d == [] {
      assert d + rest == rest;
    } else {
      DigitsStop(d[1..], rest);
      assert (d + rest)[1..] == d[1..] + rest;
    }
  }

  /** `%d` given an unsigned argument prints its signed reading. */
  function FormatInt(id: DWord): (s: WString)
    ensures s != [] && BACKSLASH !in s
    ensures s[0] == MINUS <==> id >= 0x8000_0000
  {
    if id < 0x8000_0000 then Decimal(id) else [MINUS] + Decimal(0x1_0000_0000 - id)
  }

  /** What is printed reads as the signed 32-bit number with the same bits. */
  lemma FormatIntReads(id: DWord)
    ensures id < 0x8000_0000 ==> FormatInt(id) == Decimal(id) && ParseUInt(FormatInt(id)) == id
    ensures id >= 0x8000_0000 ==> FormatInt(id)[0] == MINUS && ParseUInt(FormatInt(id)[1..]) == -(id - 0x1_0000_0000)
  {
    if id < 0x8000_0000 {
      ParseOfDecimal(id);
    } else {
      ParseOfDecimal(0x1_0000_0000 - id);
      assert FormatInt(id)[1..] == Decimal(0x1_0000_0000 - id);
    }
  }

  lemma FormatIntInjective(m: DWord, n: DWord)
    requires FormatInt(m) == FormatInt(n)
    ensures m == n
  {
    if m < 0x8000_0000 && n < 0x8000_0000 {
      DecimalInjective(m, n);
    } else {
      assert FormatInt(m)[1..] == FormatInt(n)[1..];
      DecimalInjective(0x1_0000_0000 - m, 0x1_0000_0000 - n);
    }
  }

  /** An id path: the ids joined by backslashes. */
  function Join(ids: seq<DWord>): (s: WString)
    ensures s == [] <==> ids == []
  {
    if ids == [] then []
    else if |ids| == 1 then Decimal(ids[0])
    else Decimal(ids[0]) + [BACKSLASH] + Join(ids[1..])
  }

  lemma {:induction false} JoinAppend(ids: seq<DWord>, id: DWord)
    ensures Join(ids + [id]) == if ids == [] then Decimal(id) else Join(ids) + [BACKSLASH] + Decimal(id)
  {
    if ids != [] {
      JoinAppend(ids[1..], id);
      assert (ids + [id])[1..] == ids[1..] + [id];
    }
  }

  /** A leaf name inside the folder with this id path; the empty path is the root. */
  function Section(folder: WString, leaf: WString): WString {
    if folder == [] then leaf else folder + [BACKSLASH] + leaf
  }

  function FileLeaf(id: DWord): WString { Wide("file") + FormatInt(id) }

  function DirectoryLeaf(): WString { Wide("directory") }

  /** VVVFile::GetAppNameItem */
  function ItemSection(folder: WString, id: DWord): WString { Section(folder, FileLeaf(id)) }

  /** VVVFile::GetAppNameDirectory */
  function DirectorySection(folder: WString): WString { Section(folder, DirectoryLeaf()) }

  // Leaf names are told from path components by their first character.
  predicate IsLeaf(leaf: WString) {
    leaf != [] && !IsDigit(leaf[0]) && BACKSLASH !in leaf
  }

  lemma LeavesAreLeaves(id: DWord)
    ensures IsLeaf(FileLeaf(id)) && IsLeaf(DirectoryLeaf())
    ensures FileLeaf(id) != DirectoryLeaf()
  {
    assert FileLeaf(id)[0] == 'f' as int && DirectoryLeaf()[0] == 'd' as int;
  }

  lemma FileLeafInjective(m: DWord, n: DWord)
    requires FileLeaf(m) == FileLeaf(n)
    ensures m == n
  {
    assert FileLeaf(m)[4..] == FormatInt(m) && FileLeaf(n)[4..] == FormatInt(n);
    FormatIntInjective(m, n);
  }

  lemma SplitUnique(a: WString, x: WString, b: WString, y: WString)
    requires a + [BACKSLASH] + x == b + [BACKSLASH] + y
    requires BACKSLASH !in a && BACKSLASH !in b
    ensures a == b && x == y
  {
    var s := a + [BACKSLASH] + x;
    assert s[|a|] == BACKSLASH && s[|b|] == BACKSLASH;
    assert s[..|a|] == a && s[..|b|] == b;
    assert |a| == |b|;
    assert x == s[|a| + 1..] && y == s[|b| + 1..];
  }

  lemma SectionStep(ids: seq<DWord>, leaf: WString)
    requires ids != []
    ensures Section(Join(ids), leaf) == Decimal(ids[0]) + [BACKSLASH] + Section(Join(ids[1..]), leaf)
  {
    hide Decimal;
    if |ids| > 1 { Regroup(Decimal(ids[0]), Join(ids[1..]), leaf); }
  }

  lemma Regroup(a: WString, b: WString, c: WString)
    ensures a + [BACKSLASH] + b + [BACKSLASH] + c == a + [BACKSLASH] + (b + [BACKSLASH] + c)
  {
  }

  lemma FirstCharacter(ids: seq<DWord>, leaf: WString)
    requires IsLeaf(leaf)
    ensures Section(Join(ids), leaf) != []
    ensures IsDigit(Section(Join(ids), leaf)[0]) <==> ids != []
  {
    if ids != [] { SectionStep(ids, leaf); }
  }

  /** Different leaves or different id paths never print the same section name. */
  lemma {:induction false} SectionInjective(p: seq<DWord>, leafP: WString, q: seq<DWord>, leafQ: WString)
    requires IsLeaf(leafP) && IsLeaf(leafQ)
    requires Section(Join(p), leafP) == Section(Join(q), leafQ)
    ensures p == q && leafP == leafQ
    decreases |p| + |q|
  {
    FirstCharacter(p, leafP);
    FirstCharacter(q, leafQ);
    if p != [] {
      SectionStep(p, leafP);
      SectionStep(q, leafQ);
      SplitUnique(Decimal(p[0]), Section(Join(p[1..]), leafP), Decimal(q[0]), Section(Join(q[1..]), leafQ));
      DecimalInjective(p[0], q[0]);
      SectionInjective(p[1..], leafP, q[1..], leafQ);
      assert p == [p[0]] + p[1..] && q == [q[0]] + q[1..];
    }
  }

  /** The names of item sections determine path and slot, and are never those of directory sections. */
  lemma SectionNamesDistinct(p: seq<DWord>, m: DWord, q: seq<DWord>, n: DWord)
    ensures ItemSection(Join(p), m) == ItemSection(Join(q), n) <==> p == q && m == n
    ensures DirectorySection(Join(p)) == DirectorySection(Join(q)) <==> p == q
    ensures ItemSection(Join(p), m) != DirectorySection(Join(q))
  {
    LeavesAreLeaves(m);
    LeavesAreLeaves(n);
    if ItemSection(Join(p), m) == ItemSection(Join(q), n) {
      SectionInjective(p, FileLeaf(m), q, FileLeaf(n));
      FileLeafInjective(m, n);
    }
    if DirectorySection(Join(p)) == DirectorySection(Join(q)) {
      SectionInjective(p, DirectoryLeaf(), q, DirectoryLeaf());
    }
    if ItemSection(Join(p), m) == DirectorySection(Join(q)) {
      SectionInjective(p, FileLeaf(m), q, DirectoryLeaf());
    }
  }

  // Within one folder, whatever its name, the slots have sections of their own.
  lemma SlotSectionsDistinct(folder: WString, m: DWord, n: DWord)
    ensures ItemSection(folder, m) == ItemSection(folder, n) <==> m == n
    ensures ItemSection(folder, m) != DirectorySection(folder)
  {
    LeavesAreLeaves(m);
    var k := if folder == [] then 0 else |folder| + 1;
    assert ItemSection(folder, m)[k..] == FileLeaf(m) && ItemSection(folder, n)[k..] == FileLeaf(n);
    assert DirectorySection(folder)[k..] == DirectoryLeaf();
    if ItemSection(folder, m) == ItemSection(folder, n) { FileLeafInjective(m, n); }
  }
}
