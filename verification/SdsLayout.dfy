/** The header in front of an sds string: its bytes, in the five layouts of sds.h (little-endian). */
module SdsLayout {
  import opened Bytes

  const TYPE_5 := 0
  const TYPE_8 := 1
  const TYPE_16 := 2
  const TYPE_32 := 3
  const TYPE_64 := 4
  const TYPE_MASK := 8
  const MAX_PREALLOC := 1024 * 1024

  /** Bytes of the fields `len` and `alloc`; type 5 keeps its length in the flags. */
  function Width(kind: nat): nat {
    if kind == TYPE_5 then 0 else if kind == TYPE_8 then 1 else if kind == TYPE_16 then 2
    else if kind == TYPE_32 then 4 else 8
  }

  /** `sdsHdrSize`: the packed structs hold both fields and a byte of flags. */
  function HdrSize(kind: nat): nat { 2 * Width(kind) + 1 }

  function Pow256(w: nat): (r: nat)
    ensures r > 0
  {
    if w == 0 then 1 else 256 * Pow256(w - 1)
  }

  function MaxLen(kind: nat): nat {
    if kind == TYPE_5 then 31 else Pow256(Width(kind)) - 1
  }

  /** `sdsReqType` */
  function ReqType(size: nat): nat {
    if size < 0x20 then TYPE_5
    else if size < 0x100 then TYPE_8
    else if size < 0x1_0000 then TYPE_16
    else if size < 0x1_0000_0000 then TYPE_32
    else TYPE_64
  }

  lemma Powers()
    ensures Pow256(1) == 0x100 && Pow256(2) == 0x1_0000 && Pow256(4) == 0x1_0000_0000
    ensures Pow256(8) == 0x1_0000_0000_0000_0000
  {
    assert Pow256(0) == 1;
    assert Pow256(3) == 256 * Pow256(2);
    assert Pow256(5) == 256 * Pow256(4) && Pow256(6) == 256 * Pow256(5) && Pow256(7) == 256 * Pow256(6);
  }

  /** The type asked for is the smallest one the size fits. */
  lemma ReqTypeFits(size: nat, kind: nat)
    requires size < 0x1_0000_0000_0000_0000 && kind <= TYPE_64
    ensures ReqType(size) <= TYPE_64 && size <= MaxLen(ReqType(size))
    ensures size <= MaxLen(kind) <==> ReqType(size) <= kind
    ensures MaxLen(0) == 31 && MaxLen(1) == 0xFF && MaxLen(2) == 0xFFFF
    ensures MaxLen(3) == 0xFFFF_FFFF && MaxLen(4) == 0xFFFF_FFFF_FFFF_FFFF
  {
    Powers();
  }

  // ---------- integers in memory ----------

  function Encode(n: nat, w: nat): (r: seq<byte>)
    ensures |r| == w
  {
    if w == 0 then [] else [n % 256] + Encode(n / 256, w - 1)
  }

  function Word(m: seq<byte>): nat {
    if m == [] then 0 else m[0] + 256 * Word(m[1..])
  }

  /** Storing into a field of `w` bytes cuts the number down to what fits. */
  lemma {:induction false} WordOfEncode(n: nat, w: nat)
    ensures n < Pow256(w) ==> Word(Encode(n, w)) == n
    ensures Word(Encode(n, w)) < Pow256(w)
  {
    if w > 0 {
      WordOfEncode(n / 256, w - 1);
      assert Encode(n, w)[1..] == Encode(n / 256, w - 1);
    }
  }

  lemma {:induction false} WordBound(m: seq<byte>)
    ensures Word(m) < Pow256(|m|)
  {
    if m != [] {
      WordBound(m[1..]);
    }
  }

  // ---------- the header ----------

  /** The memory with `src` stored at `at`. */
  function Put(m: seq<byte>, at: nat, src: seq<byte>): (r: seq<byte>)
    requires at + |src| <= |m|
    ensures |r| == |m|
  {
    m[..at] + src + m[at + |src|..]
  }

  function Flags(m: seq<byte>, s: nat): byte
    requires 1 <= s <= |m|
  {
    m[s - 1]
  }

  function Kind(m: seq<byte>, s: nat): nat
    requires 1 <= s <= |m|
  {
    Flags(m, s) % TYPE_MASK
  }

  /** A block that starts with a header, the string starting at `s`. */
  predicate Header(m: seq<byte>, s: nat) {
    1 <= s <= |m| && Kind(m, s) <= TYPE_64 && s == HdrSize(Kind(m, s))
  }

  /** Where the fields are. */
  const LEN_AT: nat := 0

  function AllocAt(kind: nat): nat { Width(kind) }

  /** `sdslen` */
  function Len(m: seq<byte>, s: nat): (n: nat)
    requires Header(m, s)
    ensures n <= MaxLen(Kind(m, s))
  {
    var w := Width(Kind(m, s));
    WordBound(m[LEN_AT..][..w]);
    if Kind(m, s) == TYPE_5 then Flags(m, s) / TYPE_MASK
    else Word(m[LEN_AT..][..w])
  }

  /** `sdsalloc` */
  function Alloc(m: seq<byte>, s: nat): (n: nat)
    requires Header(m, s)
    ensures n <= MaxLen(Kind(m, s))
  {
    var w := Width(Kind(m, s));
    WordBound(m[AllocAt(Kind(m, s))..][..w]);
    if Kind(m, s) == TYPE_5 then Flags(m, s) / TYPE_MASK
    else Word(m[AllocAt(Kind(m, s))..][..w])
  }

  /** `sdsavail`; type 5 cannot remember free space. */
  function Avail(m: seq<byte>, s: nat): int
    requires Header(m, s)
  {
    if Kind(m, s) == TYPE_5 then 0 else Alloc(m, s) - Len(m, s)
  }

  /** `sdssetlen` */
  function WithLen(m: seq<byte>, s: nat, n: nat): (r: seq<byte>)
    requires Header(m, s)
    ensures |r| == |m|
  {
    if Kind(m, s) == TYPE_5 then Put(m, s - 1, [n * 8 % 256])
    else Put(m, LEN_AT, Encode(n, Width(Kind(m, s))))
  }

  /** `sdssetalloc` */
  function WithAlloc(m: seq<byte>, s: nat, n: nat): (r: seq<byte>)
    requires Header(m, s)
    ensures |r| == |m|
  {
    if Kind(m, s) == TYPE_5 then m
    else Put(m, AllocAt(Kind(m, s)), Encode(n, Width(Kind(m, s))))
  }

  /** The packed structs of the five types, byte by byte in front of the string. */
  lemma PackedStructs(m: seq<byte>, s: nat)
    requires Header(m, s)
    ensures s in {1, 3, 5, 9, 17}
    ensures s == 1 ==> m[0] % 8 == 0 && Len(m, s) == Alloc(m, s) == m[0] / 8
    ensures s == 3 ==> m[2] % 8 == 1 && Len(m, s) == m[0] && Alloc(m, s) == m[1]
    ensures s == 5 ==> m[4] % 8 == 2 && Len(m, s) == Word16(m, 0) && Alloc(m, s) == Word16(m, 2)
    ensures s == 9 ==> m[8] % 8 == 3 && Len(m, s) == Word32(m, 0) && Alloc(m, s) == Word32(m, 4)
    ensures s == 17 ==>
      && m[16] % 8 == 4
      && Len(m, s) == Word32(m, 0) + 0x1_0000_0000 * Word32(m, 4)
      && Alloc(m, s) == Word32(m, 8) + 0x1_0000_0000 * Word32(m, 12)
  {
    hide Word;
    var w := Width(Kind(m, s));
    WordBytes(m, 0, w);
    WordBytes(m, w, w);
  }

  /** Two bytes of memory as a number, and four. */
  function Word16(m: seq<byte>, i: nat): nat
    requires i + 2 <= |m|
  {
    m[i] as int + 0x100 * m[i + 1] as int
  }

  function Word32(m: seq<byte>, i: nat): nat
    requires i + 4 <= |m|
  {
    m[i] as int + 0x100 * m[i + 1] as int + 0x1_0000 * m[i + 2] as int + 0x100_0000 * m[i + 3] as int
  }

  lemma WordStep(m: seq<byte>, i: nat, w: nat)
    requires i + w <= |m| && w > 0
    ensures Word(m[i..][..w]) == m[i] + 256 * Word(m[i + 1..][..w - 1])
  {
    assert m[i..][..w][1..] == m[i + 1..][..w - 1];
  }

  lemma NoWord()
    ensures Word([]) == 0
  {
  }

  lemma WordBytes(m: seq<byte>, i: nat, w: nat)
    requires i + w <= |m|
    ensures w == 1 ==> Word(m[i..][..w]) == m[i]
    ensures w == 2 ==> Word(m[i..][..w]) == Word16(m, i)
    ensures w == 4 ==> Word(m[i..][..w]) == Word32(m, i)
    ensures w == 8 ==> Word(m[i..][..w]) == Word32(m, i) + 0x1_0000_0000 * Word32(m, i + 4)
  {
    hide Word;
    NoWord();
    if 0 < w <= 2 {
      WordStep(m, i, w);
      if w == 2 { WordStep(m, i + 1, 1); }
    } else if w == 4 {
      FourBytes(m, i, 4);
    } else if w == 8 {
      FourBytes(m, i, 8);
      FourBytes(m, i + 4, 4);
    }
  }

  lemma FourBytes(m: seq<byte>, i: nat, w: nat)
    requires i + w <= |m| && w >= 4
    ensures Word(m[i..][..w]) == Word32(m, i) + 0x1_0000_0000 * Word(m[i + 4..][..w - 4])
    ensures w == 4 ==> Word(m[i + 4..][..w - 4]) == 0
  {
    hide Word;
    NoWord();
    WordStep(m, i, w);
    WordStep(m, i + 1, w - 1);
    WordStep(m, i + 2, w - 2);
    WordStep(m, i + 3, w - 3);
  }

  lemma PutAt(m: seq<byte>, at: nat, src: seq<byte>, from: nat, n: nat)
    requires at + |src| <= |m| && from + n <= |m|
    ensures from + n <= at || at + |src| <= from ==> Put(m, at, src)[from..][..n] == m[from..][..n]
    ensures from == at && n == |src| ==> Put(m, at, src)[from..][..n] == src
    ensures from >= at + |src| ==> Put(m, at, src)[from..] == m[from..]
    ensures from < at || at + |src| <= from ==> from < |m| ==> Put(m, at, src)[from] == m[from]
  {
  }

  /** Where the length fits its field, it is read back, and nothing else changes. */
  lemma SetLen(m: seq<byte>, s: nat, n: nat)
    requires Header(m, s) && n <= MaxLen(Kind(m, s))
    ensures var r := WithLen(m, s, n);
      && Header(r, s) && Kind(r, s) == Kind(m, s) && Len(r, s) == n && r[s..] == m[s..]
      && Alloc(r, s) == (if Kind(m, s) == TYPE_5 then n else Alloc(m, s))
  {
    var k, w, r := Kind(m, s), Width(Kind(m, s)), WithLen(m, s, n);
    if k != TYPE_5 {
      PutAt(m, LEN_AT, Encode(n, w), LEN_AT, w);
      PutAt(m, LEN_AT, Encode(n, w), AllocAt(k), w);
      PutAt(m, LEN_AT, Encode(n, w), s - 1, 0);
      PutAt(m, LEN_AT, Encode(n, w), s, 0);
      WordOfEncode(n, w);
    }
  }

  lemma SetAlloc(m: seq<byte>, s: nat, n: nat)
    requires Header(m, s) && n <= MaxLen(Kind(m, s))
    ensures var r := WithAlloc(m, s, n);
      && Header(r, s) && Kind(r, s) == Kind(m, s) && Len(r, s) == Len(m, s) && r[s..] == m[s..]
      && Alloc(r, s) == (if Kind(m, s) == TYPE_5 then Alloc(m, s) else n)
  {
    var k, w, r := Kind(m, s), Width(Kind(m, s)), WithAlloc(m, s, n);
    if k != TYPE_5 {
      PutAt(m, AllocAt(k), Encode(n, w), AllocAt(k), w);
      PutAt(m, AllocAt(k), Encode(n, w), LEN_AT, w);
      PutAt(m, AllocAt(k), Encode(n, w), s - 1, 0);
      PutAt(m, AllocAt(k), Encode(n, w), s, 0);
      WordOfEncode(n, w);
    }
  }

  /** The header does not depend on the bytes of the string. */
  lemma SameHeader(m: seq<byte>, r: seq<byte>, s: nat)
    requires Header(m, s) && s <= |r| && r[..s] == m[..s]
    ensures Header(r, s) && Kind(r, s) == Kind(m, s) && Len(r, s) == Len(m, s) && Alloc(r, s) == Alloc(m, s)
  {
    hide Word;
    var k, w := Kind(m, s), Width(Kind(m, s));
    SameByte(m, r, s, s - 1);
    if k != TYPE_5 {
      SameBytes(m, r, s, LEN_AT, w);
      SameBytes(m, r, s, AllocAt(k), w);
    }
  }

  lemma SameByte(m: seq<byte>, r: seq<byte>, s: nat, k: nat)
    requires k < s <= |m| && s <= |r| && r[..s] == m[..s]
    ensures r[k] == m[k]
  {
    assert r[k] == r[..s][k];
  }

  lemma SameBytes(m: seq<byte>, r: seq<byte>, s: nat, at: nat, w: nat)
    requires at + w <= s <= |m| && s <= |r| && r[..s] == m[..s]
    ensures r[at..][..w] == m[at..][..w]
  {
    assert m[at..][..w] == m[..s][at..at + w];
    assert r[at..][..w] == r[..s][at..at + w];
  }
}
