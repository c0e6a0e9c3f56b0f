/** sds strings: a length-prefixed byte string in one block whose header may change with its size. */
module SdsStrings {
  import opened Bytes
  import opened Allocation
  import opened SdsLayout

  /** What the `init` pointer of `sdsnewlen` stands for. */
  datatype Init = From(bytes: seq<byte>) | Zeros(n: nat) | Unset(n: nat) {
    function Length(): nat {
      match this case From(b) => |b| case Zeros(n) => n case Unset(n) => n
    }
  }

  /** Sizes whose block size, with room to grow, is still a `size_t`. */
  predicate Representable(n: nat) {
    n + MAX_PREALLOC + 18 < 0x1_0000_0000_0000_0000
  }

  /** The capacity behind `sdsMakeRoomFor`. */
  function Grown(capacity: nat, len: nat, add: nat): nat {
    if len + add <= capacity then capacity
    else if len + add < MAX_PREALLOC then 2 * (len + add)
    else len + add + MAX_PREALLOC
  }

  /** `memcpy` into a block. */
  method Store(m: array<byte>, at: nat, src: seq<byte>)
    requires at + |src| <= m.Length
    modifies m
    ensures m[..] == Put(old(m[..]), at, src)
  {
    ghost var was := m[..];
    var i := 0;
    while i < |src|
      invariant 0 <= i <= |src|
      invariant m[..] == Put(was, at, src[..i])
    {
      PutOne(was, at, src, i);
      m[at + i] := src[i];
      i := i + 1;
    }
    assert src[..|src|] == src;
  }

  lemma PutOne(m: seq<byte>, at: nat, src: seq<byte>, i: nat)
    requires at + |src| <= |m| && i < |src|
    ensures Put(m, at, src[..i])[at + i := src[i]] == Put(m, at, src[..i + 1])
  {
  }

  class Sds {
    var mem: array<byte>
    /** Where the bytes of the string start in the block; the header is in front of them. */
    var s: nat
    var block: nat
    const heap: Heap

    ghost predicate Valid()
      reads this, mem, heap
    {
      heap.Valid() && block in heap.live && Fine(mem[..], s)
    }

    ghost function Contents(): seq<byte>
      reads this, mem
      requires Header(mem[..], s) && s + Len(mem[..], s) <= mem.Length
    {
      Body(mem[..], s)
    }

    ghost function Capacity(): nat
      reads this, mem
      requires Header(mem[..], s)
    {
      Alloc(mem[..], s)
    }

    /** The string has one block, as before, or another that was free. */
    twostate predicate OneBlock()
      reads this, heap
    {
      heap.live == old(heap.live) - {old(block)} + {block} && (block == old(block) || block !in old(heap.live))
    }

    constructor (mem: array<byte>, s: nat, block: nat, heap: Heap)
      ensures this.mem == mem && this.s == s && this.block == block && this.heap == heap
    {
      this.mem, this.s, this.block, this.heap := mem, s, block, heap;
    }

    /** `sdssetlen` */
    method StoreLen(n: nat)
      requires Header(mem[..], s)
      modifies mem
      ensures mem[..] == WithLen(old(mem[..]), s, n)
    {
      var kind: nat := mem[s - 1] % TYPE_MASK;
      if kind == TYPE_5 {
        Store(mem, s - 1, [n * 8 % 256]);
      } else {
        Store(mem, LEN_AT, Encode(n, Width(kind)));
      }
    }

    /** `sdssetalloc` */
    method StoreAlloc(n: nat)
      requires Header(mem[..], s)
      modifies mem
      ensures mem[..] == WithAlloc(old(mem[..]), s, n)
    {
      var kind: nat := mem[s - 1] % TYPE_MASK;
      if kind != TYPE_5 {
        Store(mem, AllocAt(kind), Encode(n, Width(kind)));
      }
    }

    /** `sdslen`, `sdsalloc` and `sdsavail` */
    method Sizes() returns (len: nat, alloc: nat, avail: nat)
      requires Valid()
      ensures len == |Contents()| == Len(mem[..], s) && alloc == Capacity() && len <= alloc
      ensures avail == alloc - len
    {
      len, alloc := Len(mem[..], s), Alloc(mem[..], s);
      avail := Avail(mem[..], s);
    }

    /** `sdsMakeRoomFor`: at least `add` bytes more; a refused call changes nothing. */
    method MakeRoomFor(add: nat) returns (ok: bool)
      requires Valid() && Representable(|Contents()| + add)
      modifies this, heap
      ensures Valid() && Contents() == old(Contents())
      ensures mem == old(mem) || fresh(mem)
      ensures ok ==> Capacity() == Grown(old(Capacity()), |Contents()|, add) && heap.refusals == old(heap.refusals)
      ensures heap.requests == old(heap.requests) + (if |Contents()| + add <= old(Capacity()) then 0 else 1)
      ensures OneBlock()
      ensures !ok ==> unchanged(this) && heap.live == old(heap.live) && heap.refusals == old(heap.refusals) + 1
    {
      hide Len, Alloc, WithLen, WithAlloc, Put;
      var len, alloc, avail := Sizes();
      if avail >= add {
        return true;
      }
      var oldkind: nat := mem[s - 1] % TYPE_MASK;
      var newlen := len + add;
      if newlen < MAX_PREALLOC { newlen := newlen * 2; } else { newlen := newlen + MAX_PREALLOC; }
      var kind := ReqType(newlen);
      if kind == TYPE_5 { kind := TYPE_8; }
      RoomKind(newlen, kind);
      if oldkind == kind {
        ok := Resize(len, newlen);
      } else {
        ok := Rehead(kind, len, newlen);
      }
    }

    /** Flags and length of a new header. */
    method Stamp(kind: nat, len: nat)
      requires kind <= TYPE_64 && s == HdrSize(kind) <= mem.Length && len <= MaxLen(kind)
      modifies mem
      ensures Header(mem[..], s) && Kind(mem[..], s) == kind
      ensures Len(mem[..], s) == len && mem[..][s..] == old(mem[..])[s..]
      ensures kind == TYPE_5 ==> Alloc(mem[..], s) == len
    {
      hide Len, Alloc, WithLen, Put;
      ghost var m := mem[..];
      Flagged(m, s, kind);
      Store(mem, s - 1, [kind]);
      SetLen(mem[..], s, len);
      StoreLen(len);
    }

    /** The header and the bytes of a new string. */
    method Start(kind: nat, n: nat, init: Init)
      requires kind <= TYPE_64 && s == HdrSize(kind) && mem.Length == s + n + 1 && n == init.Length() <= MaxLen(kind)
      requires init.Zeros? ==> mem[..] == Zeroes(s + n + 1)
      modifies mem
      ensures Fine(mem[..], s) && Kind(mem[..], s) == kind && |Contents()| == Capacity() == n
      ensures init.From? ==> Contents() == init.bytes
      ensures init.Zeros? ==> Contents() == Zeroes(n)
    {
      hide Len, Alloc, WithAlloc, WithLen, Put, Kind, Width, MaxLen;
      ghost var m := mem[..];
      ZeroTail(s, n);
      Stamp(kind, n);
      SetAlloc(mem[..], s, n);
      StoreAlloc(n);
      TypeFive(mem[..], s);
      ghost var m1 := mem[..];
      if init.From? {
        PutTail(m1, s, init.bytes);
        assert Put(m1, s, init.bytes)[..s] == m1[..s] by { PutBehind(m1, s, init.bytes); }
        Store(mem, s, init.bytes);
        SameHeader(m1, mem[..], s);
      }
      Terminated(mem[..], s, n);
      mem[s + n] := NUL;
    }

    /** `realloc`, the header staying as it is. */
    method Resize(len: nat, alloc: nat) returns (ok: bool)
      requires Valid() && len == |Contents()| <= alloc <= MaxLen(Kind(mem[..], s))
      requires Kind(mem[..], s) == TYPE_5 ==> alloc == len
      modifies this, heap
      ensures Valid() && Contents() == old(Contents())
      ensures mem == old(mem) || fresh(mem)
      ensures ok ==>
        Capacity() == alloc && Kind(mem[..], s) == old(Kind(mem[..], s)) && heap.refusals == old(heap.refusals)
      ensures heap.requests == old(heap.requests) + 1 && OneBlock()
      ensures !ok ==> unchanged(this) && heap.live == old(heap.live) && heap.refusals == old(heap.refusals) + 1
    {
      hide Len, Alloc, WithAlloc, Put;
      ghost var m := mem[..];
      var size := s + alloc + 1;
      var newmem := new byte[size];
      var moved := heap.Reallocate(block);
      if moved == None {
        return false;
      }
      var k := if size < mem.Length then size else mem.Length;
      PutFront(newmem[..], m, k);
      Store(newmem, 0, mem[..k]);
      Reallocated(m, s, newmem[..], k);
      mem, block := newmem, moved.value;
      SetAlloc(mem[..], s, alloc);
      TypeFive(mem[..], s);
      ghost var r := mem[..];
      StoreAlloc(alloc);
      SameBody(r, mem[..], s);
      ok := true;
    }

    /** `malloc`, copy and free, with another header. */
    method Rehead(kind: nat, len: nat, alloc: nat) returns (ok: bool)
      requires Valid() && len == |Contents()| <= alloc <= MaxLen(kind) && kind <= TYPE_64
      requires kind == TYPE_5 ==> alloc == len
      modifies this, heap
      ensures Valid() && Contents() == old(Contents())
      ensures mem == old(mem) || fresh(mem)
      ensures ok ==> Capacity() == alloc && Kind(mem[..], s) == kind && heap.refusals == old(heap.refusals)
      ensures heap.requests == old(heap.requests) + 1 && OneBlock()
      ensures !ok ==> unchanged(this) && heap.live == old(heap.live) && heap.refusals == old(heap.refusals) + 1
    {
      hide Len, Alloc, WithAlloc, Put, MaxLen, Kind, Width, Heap.Valid;
      FreshNumber(heap);
      ghost var m, from := mem[..], s;
      var hdrlen := HdrSize(kind);
      var newmem := new byte[hdrlen + alloc + 1];
      var granted := heap.Allocate();
      if granted == None {
        return false;
      }
      PutTail(newmem[..], hdrlen, m[s..s + len + 1]);
      Store(newmem, hdrlen, mem[s..s + len + 1]);
      heap.Free(block);
      mem, block, s := newmem, granted.value, hdrlen;
      Stamp(kind, len);
      Moved(m, from, mem[..], s);
      SetAlloc(mem[..], s, alloc);
      ghost var r := mem[..];
      StoreAlloc(alloc);
      SameBody(r, mem[..], s);
      ok := true;
    }
  
    /** `sdsRemoveFreeSpace`: the smallest block that holds the string; a refused call changes nothing. */
    method RemoveFreeSpace() returns (ok: bool)
      requires Valid()
      modifies this, heap
      ensures Valid() && Contents() == old(Contents())
      ensures mem == old(mem) || fresh(mem)
      ensures ok ==> Capacity() == |Contents()| && heap.refusals == old(heap.refusals)
      ensures OneBlock()
      ensures !ok ==> unchanged(this) && heap.live == old(heap.live) && heap.refusals == old(heap.refusals) + 1
    {
      hide Len, Alloc;
      var len, alloc, avail := Sizes();
      if avail == 0 {
        return true;
      }
      var oldkind: nat := mem[s - 1] % TYPE_MASK;
      var kind := ReqType(len);
      ReqTypeFits(len, oldkind);
      if oldkind == kind || kind > TYPE_8 {
        ok := Resize(len, len);
      } else {
        ok := Rehead(kind, len, len);
      }
    }

    /** Bytes written over the end of the string, a new length and a terminator. */
    method Overwrite(at: nat, t: seq<byte>)
      requires Valid() && at <= |Contents()| && at + |t| <= Capacity()
      modifies mem
      ensures Valid() && Contents() == old(Contents())[..at] + t
      ensures Kind(mem[..], s) == old(Kind(mem[..], s))
      ensures Capacity() == if Kind(mem[..], s) == TYPE_5 then at + |t| else old(Capacity())
    {
      hide Len, Alloc, WithLen, Put;
      ghost var m := mem[..];
      BodyStored(m, s, at, t);
      Store(mem, s + at, t);
      SameHeader(m, mem[..], s);
      SetLen(mem[..], s, at + |t|);
      StoreLen(at + |t|);
      TypeFive(m, s);
      Terminated(mem[..], s, at + |t|);
      mem[s + at + |t|] := NUL;
    }

    /** `sdsclear` */
    method Clear()
      requires Valid()
      modifies mem
      ensures Valid() && Contents() == []
      ensures Kind(mem[..], s) != TYPE_5 ==> Capacity() == old(Capacity())
    {
      hide Len, Alloc;
      Overwrite(0, []);
    }

    /** `sdscatlen` */
    method CatLen(t: seq<byte>) returns (ok: bool)
      requires Valid() && Representable(|Contents()| + |t|)
      modifies this, mem, heap
      ensures Valid() && Contents() == if ok then old(Contents()) + t else old(Contents())
      ensures mem == old(mem) || fresh(mem)
      ensures ok ==> Capacity() == Grown(old(Capacity()), old(|Contents()|), |t|)
      ensures heap.requests == old(heap.requests) + (if old(|Contents()|) + |t| <= old(Capacity()) then 0 else 1)
      ensures OneBlock()
      ensures heap.refusals == old(heap.refusals) + (if ok then 0 else 1)
    {
      hide Len, Alloc;
      var curlen, alloc, avail := Sizes();
      ok := MakeRoomFor(|t|);
      if !ok {
        return;
      }
      TypeFive(mem[..], s);
      Overwrite(curlen, t);
    }

    /** `sdscpylen` */
    method CpyLen(t: seq<byte>) returns (ok: bool)
      requires Valid() && Representable(|t|)
      modifies this, mem, heap
      ensures Valid() && Contents() == if ok then t else old(Contents())
      ensures mem == old(mem) || fresh(mem)
      ensures heap.requests == old(heap.requests) + (if |t| <= old(Capacity()) then 0 else 1)
      ensures OneBlock()
      ensures heap.refusals == old(heap.refusals) + (if ok then 0 else 1)
    {
      hide Len, Alloc;
      var curlen, alloc, avail := Sizes();
      if alloc < |t| {
        ok := MakeRoomFor(|t| - curlen);
        if !ok {
          return;
        }
      }
      Overwrite(0, t);
      ok := true;
    }

    /** `sdsgrowzero` */
    method GrowZero(len: nat) returns (ok: bool)
      requires Valid() && Representable(len)
      modifies this, mem, heap
      ensures Valid() && (mem == old(mem) || fresh(mem))
      ensures ok && len > old(|Contents()|) ==> Contents() == old(Contents()) + Zeroes(len - old(|Contents()|))
      ensures !ok || len <= old(|Contents()|) ==> Contents() == old(Contents())
      ensures OneBlock()
      ensures heap.refusals == old(heap.refusals) + (if ok then 0 else 1)
    {
      hide Len, Alloc;
      var curlen, alloc, avail := Sizes();
      if len <= curlen {
        return true;
      }
      ok := MakeRoomFor(len - curlen);
      if !ok {
        return;
      }
      Overwrite(curlen, Zeroes(len - curlen));
    }

    /** `sdsinclen`: the bytes that count have been written already. */
    method IncLen(inc: nat)
      requires Valid() && |Contents()| + inc <= Capacity() && mem[s + |Contents()| + inc] == NUL
      modifies mem
      ensures Valid() && Contents() == old(mem[s..][..Len(mem[..], s) + inc])
      ensures mem[s..] == old(mem[s..])
    {
      hide Len, Alloc, WithLen;
      ghost var m := mem[..];
      var n := Len(mem[..], s) + inc;
      SetLen(mem[..], s, n);
      TypeFive(mem[..], s);
      StoreLen(n);
      assert mem[s + n] == mem[..][s..][n] == m[s..][n];
    }
  }

  lemma AllPut(m: seq<byte>, src: seq<byte>)
    requires |src| == |m|
    ensures Put(m, 0, src) == src
  {
  }

  /** `sdsnewlen`: one new block, or none. An empty string is expected to grow. */
  method NewLen(init: Init, heap: Heap) returns (r: Sds?)
    requires heap.Valid() && Representable(init.Length())
    modifies heap
    ensures heap.Valid() && heap.requests == old(heap.requests) + 1
    ensures heap.refusals == old(heap.refusals) + (if r == null then 1 else 0)
    ensures r == null ==> heap.live == old(heap.live)
    ensures r != null ==>
      && fresh(r) && fresh(r.mem) && r.heap == heap && r.Valid() && r.block == old(heap.requests)
      && heap.live == old(heap.live) + {r.block}
    ensures r != null ==>
      && |r.Contents()| == r.Capacity() == init.Length()
      && Kind(r.mem[..], r.s) == if init.Length() == 0 then TYPE_8 else ReqType(init.Length())
    ensures r != null && init.From? ==> r.Contents() == init.bytes
    ensures r != null && init.Zeros? ==> r.Contents() == Zeroes(init.n)
  {
    hide Len, Alloc;
    var n := init.Length();
    var kind := ReqType(n);
    if kind == TYPE_5 && n == 0 { kind := TYPE_8; }
    ReqTypeFits(n, kind);
    var hdrlen := HdrSize(kind);
    var granted := heap.Allocate();
    if granted == None {
      return null;
    }
    var mem := new byte[hdrlen + n + 1];
    if init.Zeros? {
      AllPut(mem[..], Zeroes(hdrlen + n + 1));
      Store(mem, 0, Zeroes(hdrlen + n + 1));
    }
    r := new Sds(mem, hdrlen, granted.value, heap);
    r.Start(kind, n, init);
  }

  function Zeroes(n: nat): (r: seq<byte>)
    ensures |r| == n
  {
    seq(n, _ => NUL)
  }

  lemma BodyStored(m: seq<byte>, s: nat, at: nat, t: seq<byte>)
    requires Fine(m, s) && at <= Len(m, s) && at + |t| <= Alloc(m, s)
    ensures var r := Put(m, s + at, t); r[..s] == m[..s] && r[s..][..at + |t|] == Body(m, s)[..at] + t
  {
    hide Len, Alloc;
  }

  lemma Terminated(m: seq<byte>, s: nat, n: nat)
    requires Header(m, s) && Len(m, s) == n && s + n < |m|
    ensures var r := m[s + n := NUL];
      && Header(r, s) && Kind(r, s) == Kind(m, s) && Len(r, s) == n && Alloc(r, s) == Alloc(m, s)
      && r[s..][..n] == m[s..][..n]
  {
    hide Len, Alloc;
    SameHeader(m, m[s + n := NUL], s);
  }

  lemma Flagged(m: seq<byte>, s: nat, kind: nat)
    requires kind <= TYPE_64 && s == HdrSize(kind) <= |m|
    ensures var r := Put(m, s - 1, [kind]); Header(r, s) && Kind(r, s) == kind && r[s..] == m[s..]
  {
  }

  lemma ZeroTail(s: nat, n: nat)
    ensures Zeroes(s + n + 1)[s..][..n] == Zeroes(n)
  {
  }

  lemma PutFront(r: seq<byte>, m: seq<byte>, k: nat)
    requires k <= |m| && k <= |r|
    ensures Put(r, 0, m[..k])[..k] == m[..k]
  {
  }

  /** The number of the next request is not the number of a live block. */
  lemma FreshNumber(heap: Heap)
    requires heap.Valid()
    ensures heap.requests !in heap.live
  {
  }

  /** A string of type 5 remembers no free space. */
  lemma TypeFive(m: seq<byte>, s: nat)
    requires Header(m, s)
    ensures Kind(m, s) == TYPE_5 ==> Alloc(m, s) == Len(m, s)
  {
  }

  lemma PutBehind(r: seq<byte>, at: nat, src: seq<byte>)
    requires at + |src| <= |r|
    ensures Put(r, at, src)[..at] == r[..at]
  {
  }

  lemma PutTail(r: seq<byte>, at: nat, src: seq<byte>)
    requires at + |src| <= |r|
    ensures Put(r, at, src)[at..][..|src|] == src
  {
  }

  lemma Moved(m: seq<byte>, from: nat, r: seq<byte>, s: nat)
    requires Fine(m, from) && Header(r, s) && Len(r, s) == Len(m, from) && s + Len(r, s) < |r|
    requires r[s..][..Len(r, s) + 1] == m[from..from + Len(r, s) + 1]
    ensures Body(r, s) == Body(m, from) && r[s + Len(r, s)] == NUL
  {
    hide Len, Alloc;
    SameTail(m, from, r, s, Len(r, s));
  }

  lemma SameTail(m: seq<byte>, from: nat, r: seq<byte>, s: nat, n: nat)
    requires from + n < |m| && s + n < |r| && r[s..][..n + 1] == m[from..from + n + 1]
    ensures r[s + n] == m[from + n] && r[s..][..n] == m[from..][..n]
  {
    assert r[s + n] == r[s..][..n + 1][n] == m[from + n];
    assert r[s..][..n] == r[s..][..n + 1][..n];
    assert m[from..][..n] == m[from..from + n + 1][..n];
  }

  /** Room to grow is never kept in a header of type 5. */
  lemma RoomKind(n: nat, kind: nat)
    requires n < 0x1_0000_0000_0000_0000
    requires kind == if ReqType(n) == TYPE_5 then TYPE_8 else ReqType(n)
    ensures TYPE_8 <= kind <= TYPE_64 && n <= MaxLen(kind)
  {
    ReqTypeFits(n, kind);
  }

  /** Length within the capacity, capacity and terminator within the block, a NUL behind the bytes. */
  ghost predicate Fine(m: seq<byte>, s: nat) {
    && Header(m, s) && Len(m, s) <= Alloc(m, s) && s + Alloc(m, s) + 1 <= |m| && m[s + Len(m, s)] == NUL
  }

  ghost function Body(m: seq<byte>, s: nat): seq<byte>
    requires Header(m, s) && s + Len(m, s) <= |m|
  {
    m[s..][..Len(m, s)]
  }

  lemma Reallocated(m: seq<byte>, s: nat, r: seq<byte>, k: nat)
    requires Fine(m, s) && s + Len(m, s) + 1 <= k <= |m| && k <= |r| && r[..k] == m[..k]
    ensures Header(r, s) && Kind(r, s) == Kind(m, s) && Len(r, s) == Len(m, s)
    ensures Body(r, s) == Body(m, s) && r[s + Len(r, s)] == NUL
  {
    hide Len, Alloc;
    assert forall i | 0 <= i < k :: r[i] == r[..k][i] == m[..k][i] == m[i];
    SameHeader(m, r, s);
  }

  lemma SameBody(m: seq<byte>, r: seq<byte>, s: nat)
    requires Header(m, s) && Header(r, s) && Len(r, s) == Len(m, s) && r[s..] == m[s..] && s + Len(m, s) < |m|
    ensures |r| == |m| && Body(r, s) == Body(m, s) && r[s + Len(r, s)] == m[s + Len(m, s)]
  {
    hide Len;
    assert r[s + Len(r, s)] == r[s..][Len(r, s)];
  }
}
