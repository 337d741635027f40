/** Bytes, machine words, byte strings and the kernel's two pool sizes: the vocabulary shared by the
    other modules. */
module Bytes {
  type byte = x: int | 0 <= x < 0x100
  type word = x: int | 0 <= x < 0x1_0000_0000

  type int32 = x: int | -0x8000_0000 <= x < 0x8000_0000

  const MAX_PROCESSES := 6
  const NUM_TERMINALS := 3

  const SPACE: byte := 0x20
  const NEWLINE: byte := 0x0A
  const RETURN: byte := 0x0D

  datatype Option<T> = None | Some(value: T)

  function Min(a: int, b: int): int {
    if a <= b then a else b
  }

  /** `m` with the bytes from `at` on replaced by `bs`. */
  function Splice(m: seq<byte>, at: nat, bs: seq<byte>): (r: seq<byte>)
    requires at + |bs| <= |m|
    ensures |r| == |m|
    ensures forall k {:trigger r[k]} :: 0 <= k < |m| ==> r[k] == if at <= k < at + |bs| then bs[k - at] else m[k]
  {
    seq(|m|, k requires 0 <= k < |m| => if at <= k < at + |bs| then bs[k - at] else m[k])
  }

  lemma SpliceNothing(m: seq<byte>, at: nat)
    requires at <= |m|
    ensures Splice(m, at, []) == m
  {
  }

  /** A slice of a slice. */
  lemma SubSlice<T>(m: seq<T>, a: nat, b: nat, i: nat, j: nat)
    requires a <= b <= |m| && i <= j <= b - a
    ensures m[a..b][i..j] == m[a + i..a + j]
  {
    var x, y := m[a..b][i..j], m[a + i..a + j];
    assert forall k :: 0 <= k < j - i ==> x[k] == y[k];
  }

  /** The little-endian 32-bit word stored at offset `off`. */
  function Word(m: seq<byte>, off: nat): word
    requires off + 4 <= |m|
  {
    m[off] as int + 0x100 * m[off + 1] as int + 0x1_0000 * m[off + 2] as int + 0x100_0000 * m[off + 3] as int
  }

  /** A byte read as the C type int8_t. */
  function Signed(b: byte): int {
    if b < 0x80 then b else b - 0x100
  }

  /** The first `k` bytes of `s` exist and none is NUL. */
  predicate NoNul(s: seq<byte>, k: int) {
    k <= |s| && forall j :: 0 <= j < k ==> s[j] != 0
  }

  /** The C string at the start of `s`: up to a NUL, the end of `s`, or `n` bytes. */
  function CStr(s: seq<byte>, n: nat): (r: seq<byte>)
    ensures |r| <= n && NoNul(s, |r|) && r == s[..|r|]
    ensures |r| < n && |r| < |s| ==> s[|r|] == 0
    decreases |s|
  {
    if n == 0 || s == [] || s[0] == 0 then [] else [s[0]] + CStr(s[1..], n - 1)
  }

  /** `CStr` is the only prefix that stops exactly at a NUL or at the bound. */
  lemma {:induction false} CStrUnique(s: seq<byte>, n: nat, k: nat)
    requires k <= n && NoNul(s, k)
    requires k == n || k == |s| || s[k] == 0
    ensures CStr(s, n) == s[..k]
  {
    var r := CStr(s, n);
    assert |r| < k ==> NoNul(s, |r| + 1);
    assert k < |r| ==> NoNul(s, k + 1);
  }

  /** Bytes of `s` may be read one by one up to a NUL or up to index `n`. */
  predicate Readable(s: seq<byte>, n: nat) {
    n <= |s| || 0 in s
  }
}
