/** String routines of lib.c: strlen, strrev, itoa, the %#x path of printf, strncmp. */
module Strings {
  import opened Bytes

  /** A NUL-terminated string of exactly `n` bytes starts at offset `at`. */
  ghost predicate IsString(s: seq<byte>, at: nat, n: nat) {
    at + n < |s| && s[at + n] == 0 && forall k :: at <= k < at + n ==> s[k] != 0
  }

  function Reverse(s: seq<byte>): (r: seq<byte>)
    ensures |r| == |s|
    ensures forall k {:trigger r[k]} :: 0 <= k < |s| ==> r[k] == s[|s| - 1 - k]
  {
    seq(|s|, k requires 0 <= k < |s| => s[|s| - 1 - k])
  }

  lemma ReverseInvolution(s: seq<byte>)
    ensures Reverse(Reverse(s)) == s
  {
    var r := Reverse(s);
    assert forall k :: 0 <= k < |s| ==> Reverse(r)[k] == r[|s| - 1 - k] == s[k];
  }

  method StrLen(b: array<byte>, at: nat) returns (len: nat)
    requires exists z :: at <= z < b.Length && b[z] == 0
    ensures IsString(b[..], at, len)
  {
    ghost var z :| at <= z < b.Length && b[z] == 0;
    len := 0;
    while b[at + len] != 0
      invariant at + len <= z
      invariant forall k :: at <= k < at + len ==> b[k] != 0
      decreases z - len
    {
      len := len + 1;
    }
  }

  /** The index that swaps with `k` when `n` bytes from `at` on are reversed. */
  function Mirror(at: int, n: int, k: int): int {
    2 * at + n - 1 - k
  }

  /** strrev turns the string round in place and touches nothing else. */
  method StrRev(b: array<byte>, at: nat, ghost n: nat)
    requires IsString(b[..], at, n)
    modifies b
    ensures forall k :: 0 <= k < b.Length && !(at <= k < at + n) ==> b[k] == old(b[k])
    ensures b[at..at + n] == Reverse(old(b[at..at + n]))
  {
    hide Reverse;
    ghost var was := b[..];
    assert b[at + n] == was[at + n];
    var len := StrLen(b, at);
    assert b[at + len] == was[at + len];
    assert len == n;
    SwapInward(b, at, len);
    ghost var now, turned := b[at..at + n], Reverse(was[at..at + n]);
    forall k | 0 <= k < n ensures now[k] == turned[k] {
      assert b[at + k] == was[Mirror(at, n, at + k)];
    }
  }

  /** Reversed twice in place, every byte is back: what is left is still a string, so the second call
      is allowed and finds the same end. */
  method StrRevTwice(b: array<byte>, at: nat, ghost n: nat)
    requires IsString(b[..], at, n)
    modifies b
    ensures b[..] == old(b[..])
  {
    ghost var was := b[..];
    StrRev(b, at, n);
    ghost var mid := b[..];
    ReversedString(was, mid, at, n);
    StrRev(b, at, n);
    ReverseInvolution(was[at..at + n]);
    hide Reverse;
    forall k | at <= k < at + n ensures b[k] == was[k] {
      assert b[at..at + n][k - at] == was[at..at + n][k - at];
    }
  }

  lemma ReversedString(was: seq<byte>, now: seq<byte>, at: nat, n: nat)
    requires IsString(was, at, n) && |now| == |was| && now[at..at + n] == Reverse(was[at..at + n])
    requires forall k :: 0 <= k < |was| && !(at <= k < at + n) ==> now[k] == was[k]
    ensures IsString(now, at, n)
  {
    var r := Reverse(was[at..at + n]);
    forall k | at <= k < at + n ensures now[k] != 0 {
      assert now[k] == now[at..at + n][k - at] == r[k - at] == was[at + n - 1 - (k - at)];
    }
  }

  method SwapInward(b: array<byte>, at: nat, len: nat)
    requires at + len <= b.Length
    modifies b
    ensures forall k :: 0 <= k < b.Length ==> b[k] == if at <= k < at + len then old(b[Mirror(at, len, k)])
            else old(b[k])
  {
    ghost var was := b[..];
    var beg: int, end: int := 0, len as int - 1;
    while beg < end
      invariant 0 <= beg <= end + 2 && beg + end + 1 == len
      invariant forall k :: 0 <= k < b.Length ==>
                b[k] == if at <= k < at + beg || at + end < k < at + len then was[Mirror(at, len, k)] else was[k]
    {
      b[at + end], b[at + beg] := b[at + beg], b[at + end];
      beg, end := beg + 1, end - 1;
    }
  }

  // ---------------------------------------------------------------- numerals

  /** lookup[i] of itoa. */
  function DigitChar(d: int): byte
    requires 0 <= d < 36
  {
    if d < 10 then 0x30 + d else 0x37 + d
  }

  function DigitValue(c: byte): int {
    if c < 0x3A then c - 0x30 else c - 0x37
  }

  predicate IsDigit(c: byte, radix: int) {
    (0x30 <= c < 0x3A || 0x41 <= c < 0x5B) && DigitValue(c) < radix
  }

  /** Positional value of a digit string, most significant digit first. */
  function Value(s: seq<byte>, radix: int): int {
    if s == [] then 0 else Value(s[..|s| - 1], radix) * radix + DigitValue(s[|s| - 1])
  }

  /** The digits of `v`, most significant first; none for zero. */
  function Digits(v: nat, radix: int): (s: seq<byte>)
    requires 2 <= radix <= 36
    ensures s == [] <==> v == 0
    decreases v
  {
    if v == 0 then [] else DivShrinks(v, radix); Digits(v / radix, radix) + [DigitChar(v % radix)]
  }

  lemma DivShrinks(v: nat, radix: int)
    requires v > 0 && radix >= 2
    ensures 0 <= v / radix < v && 0 <= v % radix < radix
    ensures (v / radix) * radix + v % radix == v
    ensures v < radix ==> v % radix == v && v / radix == 0
  {
    var q, r := v / radix, v % radix;
    assert v == radix * q + r;
    MulMonotone(2, radix, q);
    MulMonotone(1, q, radix);
  }

  lemma MulMonotone(a: int, b: int, c: int)
    requires c >= 0
    ensures a <= b ==> a * c <= b * c
    ensures b * c == c * b && a * c == c * a
  {
  }

  lemma SmallQuotient(q: nat, d: int, radix: int)
    requires 0 <= d < radix
    ensures (q * radix + d) / radix == q && (q * radix + d) % radix == d
  {
    var v := q * radix + d;
    var e := v / radix - q;
    assert v == (v / radix) * radix + v % radix;
    assert e * radix == d - v % radix;
    assert e >= 1 ==> e * radix >= radix;
    assert e <= -1 ==> e * radix <= -radix;
  }

  /** What itoa prints. */
  function Numeral(v: nat, radix: int): (s: seq<byte>)
    requires 2 <= radix <= 36
    ensures s != []
  {
    if v == 0 then [DigitChar(0)] else Digits(v, radix)
  }

  predicate AllDigits(s: seq<byte>, radix: int) {
    forall k :: 0 <= k < |s| ==> IsDigit(s[k], radix)
  }

  predicate Canonical(s: seq<byte>, radix: int) {
    s != [] && AllDigits(s, radix) && (|s| > 1 ==> s[0] != DigitChar(0))
  }

  lemma {:induction false} DigitsValue(v: nat, radix: int)
    requires 2 <= radix <= 36
    ensures Value(Digits(v, radix), radix) == v
    ensures AllDigits(Digits(v, radix), radix)
    ensures v > 0 ==> Digits(v, radix)[0] != DigitChar(0)
    decreases v
  {
    if v > 0 {
      DivShrinks(v, radix);
      var rest, s := Digits(v / radix, radix), Digits(v, radix);
      DigitsValue(v / radix, radix);
      assert s[..|s| - 1] == rest;
    }
  }

  /** The printed digits evaluate back to the number, and have no needless leading zero. */
  lemma NumeralRoundTrip(v: nat, radix: int)
    requires 2 <= radix <= 36
    ensures Value(Numeral(v, radix), radix) == v
    ensures Canonical(Numeral(v, radix), radix)
    ensures Numeral(v, radix)[0] == DigitChar(0) <==> v == 0
  {
    DigitsValue(v, radix);
    var s := [DigitChar(0)];
    assert s[..0] == [] && Value(s[..0], radix) == 0;
  }

  lemma DigitsStep(q: nat, d: int, radix: int)
    requires 2 <= radix <= 36 && 0 <= d < radix && q + d > 0
    ensures q * radix + d > 0 && Digits(q * radix + d, radix) == Digits(q, radix) + [DigitChar(d)]
  {
    SmallQuotient(q, d, radix);
    MulMonotone(1, q, radix);
    MulMonotone(0, q, radix);
  }

  /** A digit string without a leading zero is the digits of its own value. */
  lemma {:induction false} DigitsUnique(s: seq<byte>, radix: int)
    requires 2 <= radix <= 36 && AllDigits(s, radix) && (s != [] ==> s[0] != DigitChar(0))
    ensures Value(s, radix) >= 0 && Digits(Value(s, radix), radix) == s
    decreases |s|
  {
    if s != [] {
      var last, init := s[|s| - 1], s[..|s| - 1];
      DigitsUnique(init, radix);
      var q, d := Value(init, radix), DigitValue(last);
      assert DigitChar(d) == last;
      assert init == [] ==> d > 0;
      assert init != [] ==> q != 0;
      DigitsStep(q, d, radix);
      assert s == init + [last];
    }
  }

  /** There is only one canonical numeral for each value: printing inverts evaluation. */
  lemma NumeralUnique(s: seq<byte>, radix: int)
    requires 2 <= radix <= 36 && Canonical(s, radix)
    ensures Value(s, radix) >= 0 && Numeral(Value(s, radix), radix) == s
  {
    if s[0] == DigitChar(0) {
      assert s[..0] == [] && s == [DigitChar(0)];
    } else {
      DigitsUnique(s, radix);
    }
  }

  function Power(b: nat, e: nat): nat {
    if e == 0 then 1 else b * Power(b, e - 1)
  }

  lemma ScaleLess(q: nat, p: nat, radix: nat, v: nat)
    requires q * radix <= v < radix * p
    ensures q < p
  {
    assert q >= p ==> q * radix >= p * radix;
  }

  lemma {:induction false} DigitsLength(v: nat, radix: int, e: nat)
    requires 2 <= radix <= 36 && v < Power(radix, e)
    ensures |Digits(v, radix)| <= e
    decreases v
  {
    if v > 0 {
      DivShrinks(v, radix);
      var q, p := v / radix, Power(radix, e - 1);
      ScaleLess(q, p, radix, v);
      DigitsLength(q, radix, e - 1);
    }
  }

  /** `out` holds the low digits of `value`, lowest first, and `rest` the part still to print. */
  ghost predicate Pending(value: nat, radix: int, rest: nat, out: seq<byte>)
    requires 2 <= radix <= 36
  {
    Digits(value, radix) == Digits(rest, radix) + Reverse(out)
  }

  lemma EmitDigit(value: nat, radix: int, rest: nat, out: seq<byte>)
    requires 2 <= radix <= 36 && rest > 0 && Pending(value, radix, rest, out)
    ensures 0 <= rest % radix < radix && 0 <= rest / radix < rest
    ensures Pending(value, radix, rest / radix, out + [DigitChar(rest % radix)])
    ensures |out| < |Digits(value, radix)|
  {
    DivShrinks(rest, radix);
    var d := DigitChar(rest % radix);
    assert Reverse(out + [d]) == [d] + Reverse(out);
  }

  /** The division loop of itoa. */
  method EmitDigits(value: nat, b: array<byte>, at: nat, radix: int) returns (next: nat)
    requires 2 <= radix <= 36 && at + |Digits(value, radix)| < b.Length
    modifies b
    ensures next == at + |Digits(value, radix)| && Reverse(b[at..next]) == Digits(value, radix)
    ensures b[next] == 0 && forall k :: 0 <= k < b.Length && !(at <= k <= next) ==> b[k] == old(b[k])
  {
    var newval := value;
    next := at;
    ghost var out: seq<byte> := [];
    while newval > 0
      invariant 0 <= newval && at <= next <= b.Length && out == b[at..next]
      invariant Pending(value, radix, newval, out)
      invariant forall k :: 0 <= k < b.Length && !(at <= k < next) ==> b[k] == old(b[k])
      decreases newval
    {
      EmitDigit(value, radix, newval, out);
      var d := DigitChar(newval % radix);
      b[next] := d;
      out := out + [d];
      next := next + 1;
      newval := newval / radix;
    }
    b[next] := 0;
  }

  lemma DigitsAreString(m: seq<byte>, at: nat, s: seq<byte>)
    requires at + |s| < |m| && m[at + |s|] == 0 && Reverse(m[at..at + |s|]) == s && NoNul(s, |s|)
    ensures IsString(m, at, |s|)
  {
    assert forall k :: at <= k < at + |s| ==> m[k] == m[at..at + |s|][k - at] == s[at + |s| - 1 - k];
  }

  lemma PlacedString(was: seq<byte>, now: seq<byte>, at: nat, s: seq<byte>)
    requires at + |s| < |now| == |was| && now[at..at + |s|] == s && now[at + |s|] == 0
    requires forall k :: 0 <= k < |was| && !(at <= k <= at + |s|) ==> now[k] == was[k]
    ensures now == Splice(was, at, s + [0])
  {
    assert forall k :: at <= k < at + |s| ==> now[k] == now[at..at + |s|][k - at];
  }

  method PrintDigits(value: nat, b: array<byte>, at: nat, radix: int)
    requires 2 <= radix <= 36 && at + |Digits(value, radix)| < b.Length
    modifies b
    ensures b[..] == Splice(old(b[..]), at, Digits(value, radix) + [0])
  {
    var next := EmitDigits(value, b, at, radix);
    ghost var s := Digits(value, radix);
    DigitsValue(value, radix);
    DigitsAreString(b[..], at, s);
    ghost var mid := b[at..at + |s|];
    StrRev(b, at, |s|);
    assert b[at..at + |s|] == Reverse(mid);
    assert b[..][at..at + |s|] == b[at..at + |s|];
    PlacedString(old(b[..]), b[..], at, s);
  }

  /** The string itoa leaves in the caller's buffer, which must have room for the digits and a NUL. */
  method Itoa(value: word, b: array<byte>, at: nat, radix: int)
    requires 2 <= radix <= 36
    requires at + |Numeral(value, radix)| < b.Length
    modifies b
    ensures b[..] == Splice(old(b[..]), at, Numeral(value, radix) + [0])
  {
    if value == 0 {
      b[at], b[at + 1] := 0x30, 0;
      return;
    }
    PrintDigits(value, b, at, radix);
  }

  /** The number's eight hexadecimal digits, zero padded on the left. */
  function Hex8(v: nat): seq<byte> {
    var s := Numeral(v, 16);
    seq(if |s| < 8 then 8 - |s| else 0, _ => DigitChar(0)) + s
  }

  lemma {:induction false} ZerosValue(k: nat, s: seq<byte>)
    ensures Value(seq(k, _ => DigitChar(0)) + s, 16) == Value(s, 16)
    decreases |s|, k
  {
    var z := seq(k, _ => DigitChar(0));
    if s != [] {
      assert (z + s)[..|z + s| - 1] == z + s[..|s| - 1];
      ZerosValue(k, s[..|s| - 1]);
    } else if k > 0 {
      assert (z + s)[..|z + s| - 1] == seq(k - 1, _ => DigitChar(0)) + s;
      ZerosValue(k - 1, s);
    }
  }

  /** The %#x conversion prints exactly eight hexadecimal digits with the number's value. */
  lemma Hex8RoundTrip(v: word)
    ensures |Numeral(v, 16)| <= 8
    ensures |Hex8(v)| == 8 && Value(Hex8(v), 16) == v
    ensures AllDigits(Hex8(v), 16)
  {
    assert Power(16, 8) == 0x1_0000_0000 by {
      assert Power(16, 4) == 0x1_0000;
      assert Power(16, 8) == 16 * (16 * (16 * (16 * Power(16, 4))));
    }
    DigitsLength(v, 16, 8);
    NumeralRoundTrip(v, 16);
    ZerosValue(8 - |Numeral(v, 16)|, Numeral(v, 16));
  }

  lemma HexFits(v: word)
    ensures |Numeral(v, 16)| <= 8 && NoNul(Numeral(v, 16), |Numeral(v, 16)|)
  {
    Hex8RoundTrip(v);
    NumeralRoundTrip(v, 16);
  }

  method FormatHex8(value: word) returns (convBuf: array<byte>, start: nat)
    ensures fresh(convBuf) && IsString(convBuf[..], start, 8)
    ensures convBuf[start..start + 8] == Hex8(value)
  {
    hide *;
    HexFits(value);
    ghost var s := Numeral(value, 16);
    convBuf := new byte[64];
    ghost var was := convBuf[..];
    Itoa(value, convBuf, 8, 16);
    NumeralIsString(was, convBuf[..], 8, s);
    assert convBuf[8 + |s|] == convBuf[..][8 + |s|];
    start := StrLen(convBuf, 8);
    SameString(convBuf[..], 8, start, |s|);
    PadZeros(convBuf, start, s);
    PaddedHex(convBuf[..], start, value);
  }

  lemma NumeralIsString(was: seq<byte>, m: seq<byte>, at: nat, s: seq<byte>)
    requires at + |s| < |was| && NoNul(s, |s|) && m == Splice(was, at, s + [0])
    ensures IsString(m, at, |s|) && m[at..at + |s|] == s
  {
  }

  lemma SameString(m: seq<byte>, at: nat, n1: nat, n2: nat)
    requires IsString(m, at, n1) && IsString(m, at, n2)
    ensures n1 == n2
  {
    assert m[at + n1] == 0 && m[at + n2] == 0;
  }

  /** The zero-filling loop of the %#x path; the digits start at 8. */
  method PadZeros(b: array<byte>, start: nat, ghost s: seq<byte>)
    requires b.Length == 64 && start == |s| <= 8 && IsString(b[..], 8, |s|) && b[8..8 + |s|] == s
    modifies b
    ensures forall k :: start <= k < 8 ==> b[k] == DigitChar(0)
    ensures b[8..8 + |s|] == s && b[8 + |s|] == 0
  {
    assert b[8 + |s|] == b[..][8 + |s|];
    ghost var was := b[..];
    assert was[8..8 + |s|] == s;
    var i := start;
    while i < 8
      invariant start <= i <= 8
      invariant forall k :: start <= k < i ==> b[k] == DigitChar(0)
      invariant forall k :: 8 <= k < 64 ==> b[k] == was[k]
    {
      b[i] := 0x30;
      i := i + 1;
    }
    assert b[8..8 + |s|] == was[8..8 + |s|];
  }

  lemma PaddedHex(m: seq<byte>, start: nat, v: word)
    requires var s := Numeral(v, 16);
             |m| == 64 && start == |s| <= 8 && m[8..8 + |s|] == s && m[8 + |s|] == 0 && forall k :: start <= k < 8 ==>
                 m[k] == DigitChar(0)
    ensures m[start..start + 8] == Hex8(v) && IsString(m, start, 8)
  {
    NumeralRoundTrip(v, 16);
    hide Numeral, Value;
    ZerosThenDigits(m, start, Numeral(v, 16));
  }

  lemma ZerosThenDigits(m: seq<byte>, start: nat, s: seq<byte>)
    requires |m| == 64 && start == |s| <= 8 && AllDigits(s, 16)
    requires m[8..8 + |s|] == s && m[8 + |s|] == 0 && forall k :: start <= k < 8 ==> m[k] == DigitChar(0)
    ensures m[start..start + 8] == seq(8 - |s|, _ => DigitChar(0)) + s && IsString(m, start, 8)
  {
    forall k | start <= k < start + 8
      ensures m[k] != 0 && m[k] == (seq(8 - |s|, _ => DigitChar(0)) + s)[k - start]
    {
      if k >= 8 {
        assert m[k] == m[8..8 + |s|][k - 8] == s[k - 8];
      }
    }
  }

  // ---------------------------------------------------------------- strncmp

  /** Zero exactly when the two strings agree on their first `n` bytes; otherwise the
      signed difference of the first pair of bytes that disagree. */
  method StrNCmp(s1: seq<byte>, s2: seq<byte>, n: nat) returns (r: int)
    requires Readable(s1, n) && Readable(s2, n)
    ensures r == 0 <==> CStr(s1, n) == CStr(s2, n)
    ensures r != 0 ==> exists k :: 0 <= k < n && k < |s1| && k < |s2| && s1[..k] == s2[..k] && NoNul(s1, k) &&
                                   r == Signed(s1[k]) - Signed(s2[k])
  {
    var i := 0;
    while i < n
      invariant 0 <= i <= n && NoNul(s1, i) && NoNul(s2, i)
      invariant s1[..i] == s2[..i]
    {
      if s1[i] != s2[i] || s1[i] == 0 {
        r := Signed(s1[i]) - Signed(s2[i]);
        assert r != 0 ==> s1[..i] == s2[..i];
        if r == 0 {
          CStrUnique(s1, n, i);
          CStrUnique(s2, n, i);
        } else if CStr(s1, n) == CStr(s2, n) {
          CommonPrefix(s1, s2, n, i);
        }
        return;
      }
      assert s1[..i + 1] == s1[..i] + [s1[i]] && s2[..i + 1] == s2[..i] + [s2[i]];
      i := i + 1;
    }
    CStrUnique(s1, n, n);
    CStrUnique(s2, n, n);
    r := 0;
  }

  lemma CommonPrefix(s1: seq<byte>, s2: seq<byte>, n: nat, i: nat)
    requires i < n && i < |s1| && i < |s2| && s1[..i] == s2[..i] && NoNul(s1, i)
    requires CStr(s1, n) == CStr(s2, n)
    ensures s1[i] == s2[i]
  {
    var c := CStr(s1, n);
    assert |c| < i ==> NoNul(s1, |c| + 1);
    assert |c| > i ==> c[i] == s1[i] && c[i] == s2[i];
  }
}
