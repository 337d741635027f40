/** The copy routines of lib.c, on one byte-addressed memory. */
module Copying {
  import opened Bytes

  /** What a copy promises: the `n` bytes that were at `src` are now at `dst`, the rest is as before. */
  ghost predicate Copied(was: seq<byte>, now: seq<byte>, dst: nat, src: nat, n: nat) {
    dst + n <= |was| && src + n <= |was| && now == Splice(was, dst, was[src..src + n])
  }

  /** The first `k` bytes have arrived and nothing else has changed. */
  ghost predicate Arrived(was: seq<byte>, now: seq<byte>, dst: nat, src: nat, k: nat)
    requires dst + k <= |was| && src + k <= |was|
  {
    |now| == |was| && forall j {:trigger now[j]} :: 0 <= j < |was| ==>
        now[j] == if dst <= j < dst + k then was[j - dst + src] else was[j]
  }

  /** A source window that a forward copy to `dst` never overwrites before reading it. */
  predicate ForwardSafe(dst: nat, src: nat, n: nat) {
    dst <= src || src + n <= dst
  }

  lemma ArrivedIsCopied(was: seq<byte>, now: seq<byte>, dst: nat, src: nat, n: nat)
    requires dst + n <= |was| && src + n <= |was|
    ensures Arrived(was, now, dst, src, n) <==> Copied(was, now, dst, src, n)
  {
  }

  /** Copying `k` bytes and then the following `n` is copying `k + n`. */
  lemma CopiesCompose(m0: seq<byte>, m1: seq<byte>, m2: seq<byte>, dst: nat, src: nat, k: nat, n: nat)
    requires dst + k + n <= |m0| && src + k + n <= |m0| && ForwardSafe(dst, src, k + n)
    requires Copied(m0, m1, dst, src, k) && Copied(m1, m2, dst + k, src + k, n)
    ensures Copied(m0, m2, dst, src, k + n)
  {
    ArrivedIsCopied(m0, m1, dst, src, k);
    ArrivedIsCopied(m1, m2, dst + k, src + k, n);
    ArrivedIsCopied(m0, m2, dst, src, k + n);
  }

  // ------------------------------------------- what the loops do, whatever the overlap

  /** Memory after a forward byte-at-a-time copy of `n` bytes. */
  function ForwardCopy(m: seq<byte>, dst: nat, src: nat, n: nat): (r: seq<byte>)
    requires dst + n <= |m| && src + n <= |m|
    ensures |r| == |m|
    decreases n
  {
    if n == 0 then m else
    var r := ForwardCopy(m, dst, src, n - 1);
    r[dst + n - 1 := r[src + n - 1]]
  }

  /** Memory after `count` double words, each read whole before it is written. */
  function DwordCopy(m: seq<byte>, dst: nat, src: nat, count: nat): (r: seq<byte>)
    requires dst + 4 * count <= |m| && src + 4 * count <= |m|
    ensures |r| == |m|
    decreases count
  {
    if count == 0 then m else
    var r, k := DwordCopy(m, dst, src, count - 1), 4 * (count - 1);
    Splice(r, dst + k, r[src + k..src + k + 4])
  }

  /** The four bytes at `from` have been stored at `to`. */
  ghost predicate DwordMoved(was: seq<byte>, now: seq<byte>, to: nat, from: nat) {
    to + 4 <= |was| && from + 4 <= |was| && now == Splice(was, to, was[from..from + 4])
  }

  lemma DwordNext(m: seq<byte>, dst: nat, src: nat, k: nat, now: seq<byte>)
    requires dst + 4 * k + 4 <= |m| && src + 4 * k + 4 <= |m|
    requires DwordMoved(DwordCopy(m, dst, src, k), now, dst + 4 * k, src + 4 * k)
    ensures now == DwordCopy(m, dst, src, k + 1)
  {
  }

  /** How many bytes memcpy moves before the destination is 4-byte aligned. */
  function Head(dst: nat, n: nat): (h: nat)
    ensures h <= n && h < 4 && (h == n || (dst + h) % 4 == 0)
  {
    Min(n, (4 - dst % 4) % 4)
  }

  lemma HeadGoesOn(dst: nat, n: nat, k: nat)
    requires k <= Head(dst, n)
    ensures k < Head(dst, n) <==> k < n && (dst + k) % 4 != 0
  {
  }

  /** Memory after memcpy. */
  function MemcpyEffect(m: seq<byte>, dst: nat, src: nat, n: nat): (r: seq<byte>)
    requires dst + n <= |m| && src + n <= |m|
    ensures |r| == |m|
  {
    var h := Head(dst, n);
    var body := 4 * ((n - h) / 4);
    var m1 := ForwardCopy(m, dst, src, h);
    var m2 := DwordCopy(m1, dst + h, src + h, (n - h) / 4);
    ForwardCopy(m2, dst + (h + body), src + (h + body), (n - h) % 4)
  }

  lemma {:induction false} ForwardArrives(m: seq<byte>, dst: nat, src: nat, n: nat)
    requires dst + n <= |m| && src + n <= |m|
    requires ForwardSafe(dst, src, n)
    ensures Arrived(m, ForwardCopy(m, dst, src, n), dst, src, n)
    decreases n
  {
    if n > 0 {
      ForwardArrives(m, dst, src, n - 1);
    }
  }

  lemma {:induction false} DwordsArrive(m: seq<byte>, dst: nat, src: nat, count: nat)
    requires dst + 4 * count <= |m| && src + 4 * count <= |m|
    requires ForwardSafe(dst, src, 4 * count)
    ensures Arrived(m, DwordCopy(m, dst, src, count), dst, src, 4 * count)
    decreases count
  {
    if count > 0 {
      DwordsArrive(m, dst, src, count - 1);
    }
  }

  // ------------------------------------------- the loops

  /** The `movb` loops, and `rep movsb` with the direction flag clear. */
  method CopyBytes(mem: array<byte>, dst: nat, src: nat, n: nat)
    requires dst + n <= mem.Length && src + n <= mem.Length
    modifies mem
    ensures mem[..] == ForwardCopy(old(mem[..]), dst, src, n)
  {
    ghost var was := mem[..];
    var edi, esi, left := dst, src, n;
    while left != 0
      invariant 0 <= left <= n && edi == dst + (n - left) && esi == src + (n - left)
      invariant mem[..] == ForwardCopy(was, dst, src, n - left)
      decreases left
    {
      mem[edi] := mem[esi];
      edi, esi, left := edi + 1, esi + 1, left - 1;
    }
  }

  /** `rep movsl`: four bytes are read before four bytes are written. */
  method CopyDwords(mem: array<byte>, dst: nat, src: nat, count: nat)
    requires dst + 4 * count <= mem.Length && src + 4 * count <= mem.Length
    modifies mem
    ensures mem[..] == DwordCopy(old(mem[..]), dst, src, count)
  {
    ghost var was := mem[..];
    NoBytes(was, dst, src);
    hide DwordCopy;
    var edi, esi, left := dst, src, count;
    ghost var k := 0;
    while left != 0
      invariant 0 <= k && 0 <= left && k + left == count && edi == dst + 4 * k && esi == src + 4 * k
      invariant edi + 4 * left <= |was| && esi + 4 * left <= |was| && |was| == mem.Length
      invariant mem[..] == DwordCopy(was, dst, src, k)
      decreases left
    {
      MoveDword(mem, edi, esi, was, dst, src, k);
      edi, esi, left, k := edi + 4, esi + 4, left - 1, k + 1;
    }
  }

  /** One round: double word `k` of the copy. */
  method MoveDword(mem: array<byte>, to: nat, from: nat, ghost was: seq<byte>, ghost dst: nat, ghost src: nat,
                   ghost k: nat)
    requires to == dst + 4 * k && from == src + 4 * k && to + 4 <= mem.Length == |was| && from + 4 <= mem.Length
    requires mem[..] == DwordCopy(was, dst, src, k)
    modifies mem
    ensures mem[..] == DwordCopy(was, dst, src, k + 1)
  {
    hide DwordCopy;
    var b0, b1, b2, b3 := mem[from], mem[from + 1], mem[from + 2], mem[from + 3];
    mem[to], mem[to + 1], mem[to + 2], mem[to + 3] := b0, b1, b2, b3;
    DwordNext(was, dst, src, k, mem[..]);
  }

  /** The first loop of memcpy: single bytes until the destination is 4-byte aligned. */
  method CopyToBoundary(mem: array<byte>, dst: nat, src: nat, n: nat) returns (head: nat)
    requires dst + n <= mem.Length && src + n <= mem.Length
    modifies mem
    ensures head == Head(dst, n) && mem[..] == ForwardCopy(old(mem[..]), dst, src, head)
  {
    ghost var was := mem[..];
    head := 0;
    HeadGoesOn(dst, n, head);
    while head < n && (dst + head) % 4 != 0
      invariant head <= Head(dst, n) && (head < Head(dst, n) <==> head < n && (dst + head) % 4 != 0)
      invariant mem[..] == ForwardCopy(was, dst, src, head)
    {
      mem[dst + head] := mem[src + head];
      head := head + 1;
      HeadGoesOn(dst, n, head);
    }
  }

  /** memcpy: bytes up to a 4-byte boundary of the destination, then double words, then the tail.
      MemcpyExact says when this copies. */
  method Memcpy(mem: array<byte>, dst: nat, src: nat, n: nat)
    requires dst + n <= mem.Length && src + n <= mem.Length
    modifies mem
    ensures mem[..] == MemcpyEffect(old(mem[..]), dst, src, n)
    ensures MemcpySafe(dst, src, n) ==> Copied(old(mem[..]), mem[..], dst, src, n)
  {
    hide Copied, ForwardCopy, DwordCopy, Head, MemcpySafe;
    ghost var was := mem[..];
    var head := CopyToBoundary(mem, dst, src, n);
    var dwords, tail := (n - head) / 4, (n - head) % 4;
    CopyDwords(mem, dst + head, src + head, dwords);
    CopyBytes(mem, dst + (head + 4 * dwords), src + (head + 4 * dwords), tail);
    if MemcpySafe(dst, src, n) {
      MemcpyCopies(was, dst, src, n);
    }
  }

  /** `rep movsb` with the direction flag set, from the last byte down. */
  method CopyBytesDown(mem: array<byte>, dst: nat, src: nat, n: nat)
    requires src < dst && dst + n <= mem.Length
    modifies mem
    ensures Copied(old(mem[..]), mem[..], dst, src, n)
  {
    ghost var was := mem[..];
    var left := n;
    while left > 0
      invariant 0 <= left <= n
      invariant Arrived(was, mem[..], dst + left, src + left, n - left)
      decreases left
    {
      mem[dst + (left - 1)] := mem[src + (left - 1)];
      left := left - 1;
    }
    ArrivedIsCopied(was, mem[..], dst, src, n);
  }

  /** memmove: forward when the source is not below the destination, backward otherwise. */
  method Memmove(mem: array<byte>, dst: nat, src: nat, n: nat)
    requires dst + n <= mem.Length && src + n <= mem.Length
    modifies mem
    ensures Copied(old(mem[..]), mem[..], dst, src, n)
  {
    if src >= dst {
      ghost var was := ForwardCopied(mem[..], dst, src, n);
      CopyBytes(mem, dst, src, n);
    } else {
      CopyBytesDown(mem, dst, src, n);
    }
  }

  // ------------------------------------------- when a forward copy is a copy

  predicate AllZero(m: seq<byte>) {
    forall k :: 0 <= k < |m| ==> m[k] == 0
  }

  /** A memory with a single 1. */
  function OneAt(size: nat, at: nat): (m: seq<byte>)
    requires at < size
    ensures |m| == size && forall k {:trigger m[k]} :: 0 <= k < size ==> m[k] == if k == at then 1 else 0
  {
    seq(size, k => if k == at then 1 else 0)
  }

  /** A forward copy that overwrites the only 1 before reading it leaves zeros, and zeros stay zeros. */
  lemma {:induction false} ForwardZeros(m: seq<byte>, dst: nat, src: nat, n: nat)
    requires dst + n <= |m| && src + n <= |m|
    requires AllZero(m) || (n > 0 && src != dst && m == OneAt(|m|, dst))
    ensures AllZero(ForwardCopy(m, dst, src, n))
    decreases n
  {
    if n > 1 || (n == 1 && AllZero(m)) {
      ForwardZeros(m, dst, src, n - 1);
    } else if n == 1 {
      assert ForwardCopy(m, dst, src, 0) == m;
    }
  }

  lemma {:induction false} DwordZeros(m: seq<byte>, dst: nat, src: nat, count: nat, at: nat)
    requires dst + 4 * count <= |m| && src + 4 * count <= |m|
    requires AllZero(m) || (count > 0 && dst <= at < dst + 4 && !(src <= at < src + 4) && m == OneAt(|m|, at))
    ensures AllZero(DwordCopy(m, dst, src, count))
    decreases count
  {
    if count > 1 || (count == 1 && AllZero(m)) {
      DwordZeros(m, dst, src, count - 1, at);
    } else if count == 1 {
      assert DwordCopy(m, dst, src, 0) == m;
    }
  }

  /** A forward byte copy, the path memmove takes when the source is not below the destination, moves
      every memory correctly exactly when the destination does not start strictly inside the source:
      memmove has to turn round otherwise. */
  lemma ForwardCopySafe(size: nat, dst: nat, src: nat, n: nat)
    requires dst + n <= size && src + n <= size
    ensures ForwardSafe(dst, src, n) <==>
            forall m: seq<byte> :: |m| == size ==> Copied(m, ForwardCopy(m, dst, src, n), dst, src, n)
  {
    if ForwardSafe(dst, src, n) {
      forall m: seq<byte> | |m| == size ensures Copied(m, ForwardCopy(m, dst, src, n), dst, src, n) {
        var _ := ForwardCopied(m, dst, src, n);
      }
    } else {
      var m := OneAt(size, dst);
      ForwardZeros(m, dst, src, n);
      ZerosAreNoCopy(m, ForwardCopy(m, dst, src, n), dst, src, n, dst);
    }
  }

  lemma ZerosAreNoCopy(m: seq<byte>, r: seq<byte>, dst: nat, src: nat, n: nat, at: nat)
    requires dst + n <= |m| && src + n <= |m| && src <= at < src + n && m == OneAt(|m|, at) && AllZero(r) && |r| == |m|
    ensures !Copied(m, r, dst, src, n)
  {
    ArrivedIsCopied(m, r, dst, src, n);
    assert r[at - src + dst] == 0;
  }

  // ------------------------------------------- when memcpy is a copy

  /** The destination does not start strictly inside the source, or the copy is one aligned double
      word, which is read whole before it is written. */
  predicate MemcpySafe(dst: nat, src: nat, n: nat) {
    ForwardSafe(dst, src, n) || (n == 4 && dst % 4 == 0)
  }

  lemma MemcpyCopies(m: seq<byte>, dst: nat, src: nat, n: nat)
    requires dst + n <= |m| && src + n <= |m| && MemcpySafe(dst, src, n)
    ensures Copied(m, MemcpyEffect(m, dst, src, n), dst, src, n)
  {
    if ForwardSafe(dst, src, n) {
      MemcpyForward(m, dst, src, n);
    } else {
      assert Head(dst, n) == 0 && DwordCopy(m, dst, src, 0) == m;
      assert MemcpyEffect(m, dst, src, n) == DwordCopy(m, dst, src, 1) == Splice(m, dst, m[src..src + 4]);
    }
  }

  /** The three parts of a forward copy whose source is safe. */
  lemma MemcpyForward(m: seq<byte>, dst: nat, src: nat, n: nat)
    requires dst + n <= |m| && src + n <= |m| && ForwardSafe(dst, src, n)
    ensures Copied(m, MemcpyEffect(m, dst, src, n), dst, src, n)
  {
    hide Copied, Arrived, ForwardCopy, DwordCopy, Head;
    var h := Head(dst, n);
    var dwords, tail := (n - h) / 4, (n - h) % 4;
    var m1 := ForwardCopied(m, dst, src, h);
    DwordsArrive(m1, dst + h, src + h, dwords);
    var m2 := DwordCopy(m1, dst + h, src + h, dwords);
    ArrivedIsCopied(m1, m2, dst + h, src + h, 4 * dwords);
    var m3 := ForwardCopied(m2, dst + (h + 4 * dwords), src + (h + 4 * dwords), tail);
    CopiesCompose(m, m1, m2, dst, src, h, 4 * dwords);
    CopiesCompose(m, m2, m3, dst, src, h + 4 * dwords, tail);
  }

  lemma ForwardCopied(m: seq<byte>, dst: nat, src: nat, n: nat) returns (r: seq<byte>)
    requires dst + n <= |m| && src + n <= |m| && ForwardSafe(dst, src, n)
    ensures r == ForwardCopy(m, dst, src, n) && |r| == |m| && Copied(m, r, dst, src, n)
  {
    r := ForwardCopy(m, dst, src, n);
    ForwardArrives(m, dst, src, n);
    ArrivedIsCopied(m, r, dst, src, n);
  }

  /** Otherwise some memory comes out wrong. */
  lemma MemcpyClobbers(size: nat, dst: nat, src: nat, n: nat) returns (m: seq<byte>)
    requires dst + n <= size && src + n <= size && !MemcpySafe(dst, src, n)
    ensures |m| == size && !Copied(m, MemcpyEffect(m, dst, src, n), dst, src, n)
  {
    var at := if Head(dst, n) == 0 && n >= 4 && dst - src < 4 then src + 4 else dst;
    m := OneAt(size, at);
    MemcpyZeros(m, dst, src, n, at);
    hide MemcpyEffect, Copied, AllZero, Head;
    ZerosAreNoCopy(m, MemcpyEffect(m, dst, src, n), dst, src, n, at);
  }

  /** The first store overwrites the only 1 with a 0. */
  lemma MemcpyZeros(m: seq<byte>, dst: nat, src: nat, n: nat, at: nat)
    requires dst + n <= |m| && src + n <= |m| && src < dst < src + n && at < |m| && m == OneAt(|m|, at)
    requires if Head(dst, n) == 0 && n >= 4 then dst <= at < dst + 4 && src + 4 <= at else at == dst
    ensures AllZero(MemcpyEffect(m, dst, src, n))
  {
    hide OneAt, AllZero, ForwardCopy, DwordCopy;
    var h := Head(dst, n);
    var dwords, tail := (n - h) / 4, (n - h) % 4;
    var m1 := ForwardCopy(m, dst, src, h);
    if h > 0 {
      ForwardZeros(m, dst, src, h);
    } else {
      assert m1 == m by { NoBytes(m, dst, src); }
    }
    var m2 := DwordCopy(m1, dst + h, src + h, dwords);
    if h > 0 || dwords > 0 {
      DwordZeros(m1, dst + h, src + h, dwords, at);
    } else {
      assert m2 == m by { NoBytes(m, dst, src); }
    }
    ForwardZeros(m2, dst + (h + 4 * dwords), src + (h + 4 * dwords), tail);
  }

  lemma NoBytes(m: seq<byte>, dst: nat, src: nat)
    requires dst <= |m| && src <= |m|
    ensures ForwardCopy(m, dst, src, 0) == m && DwordCopy(m, dst, src, 0) == m
  {
  }

  /** The exact condition under which memcpy copies every memory correctly, and so may stand in for
      memmove. */
  lemma MemcpyExact(size: nat, dst: nat, src: nat, n: nat)
    requires dst + n <= size && src + n <= size
    ensures MemcpySafe(dst, src, n) <==>
            forall m: seq<byte> :: |m| == size ==> Copied(m, MemcpyEffect(m, dst, src, n), dst, src, n)
  {
    if MemcpySafe(dst, src, n) {
      forall m: seq<byte> | |m| == size ensures Copied(m, MemcpyEffect(m, dst, src, n), dst, src, n) {
        MemcpyCopies(m, dst, src, n);
      }
    } else {
      var m := MemcpyClobbers(size, dst, src, n);
    }
  }
}
