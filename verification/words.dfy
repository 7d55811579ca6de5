/** Machine words, the casts between them, their little-endian layout in memory, and C strings. */
module Words {
  datatype Option<+T> = None | Some(value: T)

  type Byte = x: int | 0 <= x < 0x100
  type Word = x: int | 0 <= x < 0x1_0000
  type DWord = x: int | 0 <= x < 0x1_0000_0000

  /** A C string body of UTF-16 code units, without its terminating NUL. */
  type WString = seq<Word>

  // The value static_cast<USHORT> keeps of a wider integer.
  function ToUShort(n: int): Word { n % 0x1_0000 }

  // The value a 32-bit unsigned result keeps of an exact integer.
  function ToUInt(n: int): DWord { n % 0x1_0000_0000 }

  lemma ToUIntAdd(m: int, n: int)
    ensures ToUInt(ToUInt(m) + n) == ToUInt(m + n)
  {
  }

  lemma ToUIntFits(n: nat)
    ensures ToUInt(n) <= n && (ToUInt(n) == n <==> n < 0x1_0000_0000)
  {
  }

  // A 16-bit pattern read back as a signed short.
  function ToShort(w: Word): int { if w < 0x8000 then w else w - 0x1_0000 }

  function Sign(n: int): int { if n < 0 then -1 else if n > 0 then 1 else 0 }

  function Le16(w: Word): (b: seq<Byte>)
    ensures |b| == 2
  {
    [w % 0x100, w / 0x100]
  }

  function Le32(d: DWord): (b: seq<Byte>)
    ensures |b| == 4
  {
    Le16(d % 0x1_0000) + Le16(d / 0x1_0000)
  }

  function Get16(b: seq<Byte>, i: nat): Word
    requires i + 2 <= |b|
  {
    (b[i] as int) + 0x100 * (b[i + 1] as int)
  }

  function Get32(b: seq<Byte>, i: nat): DWord
    requires i + 4 <= |b|
  {
    (Get16(b, i) as int) + 0x1_0000 * (Get16(b, i + 2) as int)
  }

  /** `sub` lies in `b` at offset `i`. */
  predicate At(b: seq<Byte>, i: nat, sub: seq<Byte>) {
    i + |sub| <= |b| && b[i..i + |sub|] == sub
  }

  lemma AtSplit(b: seq<Byte>, i: nat, x: seq<Byte>, y: seq<Byte>)
    ensures At(b, i, x + y) <==> At(b, i, x) && At(b, i + |x|, y)
  {
    if i + |x| + |y| <= |b| {
      var w := b[i..i + |x| + |y|];
      assert w[..|x|] == b[i..i + |x|] && w[|x|..] == b[i + |x|..i + |x| + |y|];
      assert w == w[..|x|] + w[|x|..];
      assert (x + y)[..|x|] == x && (x + y)[|x|..] == y;
    }
  }

  // What lies inside an unchanged stretch stays where it was.
  lemma AtKept(b: seq<Byte>, c: seq<Byte>, lo: nat, hi: nat, i: nat, sub: seq<Byte>)
    requires lo <= hi <= |b| && hi <= |c| && b[lo..hi] == c[lo..hi]
    requires lo <= i && i + |sub| <= hi && At(b, i, sub)
    ensures At(c, i, sub)
  {
    forall k | 0 <= k < |sub| ensures c[i + k] == sub[k] {
      assert b[lo..hi][i - lo + k] == c[lo..hi][i - lo + k];
      assert b[i..i + |sub|][k] == sub[k];
    }
  }

  lemma Read16(b: seq<Byte>, i: nat, w: Word)
    requires At(b, i, Le16(w))
    ensures Get16(b, i) == w
  {
    assert b[i] == b[i..i + 2][0] && b[i + 1] == b[i..i + 2][1];
  }

  lemma Read32(b: seq<Byte>, i: nat, d: DWord)
    requires At(b, i, Le32(d))
    ensures Get32(b, i) == d
  {
    assert b[i..i + 2] == b[i..i + 4][..2] == Le16(d % 0x1_0000);
    assert b[i + 2..i + 4] == b[i..i + 4][2..] == Le16(d / 0x1_0000);
    Read16(b, i, d % 0x1_0000);
    Read16(b, i + 2, d / 0x1_0000);
  }

  // Two bytes are the little-endian form of the word they read as.
  lemma Write16(b: seq<Byte>, i: nat)
    requires i + 2 <= |b|
    ensures At(b, i, Le16(Get16(b, i)))
  {
    assert b[i..i + 2] == [b[i], b[i + 1]];
  }

  // Reading a window gives what reading the whole buffer gives.
  lemma ReadWindow(b: seq<Byte>, lo: nat, hi: nat, i: nat)
    requires lo <= hi <= |b|
    ensures i + 2 <= hi - lo ==> Get16(b[lo..hi], i) == Get16(b, lo + i)
    ensures i + 4 <= hi - lo ==> Get32(b[lo..hi], i) == Get32(b, lo + i)
  {
  }

  /** The C string that starts at byte `i`, looking at no more than `max` code units. */
  function CStrAt(b: seq<Byte>, i: nat, max: nat): (s: WString)
    requires i + 2 * max <= |b|
    ensures |s| <= max && 0 !in s
    decreases max
  {
    if max == 0 || Get16(b, i) == 0 then [] else [Get16(b, i)] + CStrAt(b, i + 2, max - 1)
  }

  /** What `c_str()` hands on: everything before the first NUL. */
  function CStr(s: WString): (t: WString)
    ensures |t| <= |s| && t == s[..|t|] && 0 !in t
    ensures |t| < |s| ==> s[|t|] == 0
  {
    if s == [] || s[0] == 0 then [] else [s[0]] + CStr(s[1..])
  }

  lemma {:induction false} CStrOfClean(s: WString)
    requires 0 !in s
    ensures CStr(s) == s
  {
    if s != [] { CStrOfClean(s[1..]); }
  }

  // `s` and its NUL are stored from byte `i` on.
  predicate StoredAt(b: seq<Byte>, i: nat, s: WString) {
    && i + 2 * (|s| + 1) <= |b|
    && (forall k :: 0 <= k < |s| ==> Get16(b, i + 2 * k) == s[k])
    && Get16(b, i + 2 * |s|) == 0
  }

  lemma {:induction false} ReadString(b: seq<Byte>, i: nat, max: nat, s: WString)
    requires 0 !in s && |s| < max && i + 2 * max <= |b|
    requires StoredAt(b, i, s)
    ensures CStrAt(b, i, max) == s
    decreases |s|
  {
    assert Get16(b, i + 2 * 0) == Get16(b, i);
    if s != [] {
      assert Get16(b, i) == s[0];
      assert StoredAt(b, i + 2, s[1..]) by {
        forall k | 0 <= k < |s[1..]| ensures Get16(b, i + 2 + 2 * k) == s[1..][k] {
          assert Get16(b, i + 2 * (k + 1)) == s[k + 1];
        }
      }
      ReadString(b, i + 2, max - 1, s[1..]);
    }
  }

  lemma {:induction false} ReadStringWindow(b: seq<Byte>, lo: nat, hi: nat, i: nat, max: nat)
    requires lo <= hi <= |b| && i + 2 * max <= hi - lo
    ensures CStrAt(b[lo..hi], i, max) == CStrAt(b, lo + i, max)
    decreases max
  {
    if max > 0 {
      ReadWindow(b, lo, hi, i);
      ReadStringWindow(b, lo, hi, i + 2, max - 1);
    }
  }
}
