/** Flag bits of a page-table entry: the low twelve bits do not depend on the frame address. */
module Bits {
  lemma Parity(n: int, k: int, h: int)
    requires n == 2 * k + h
    ensures n % 2 == h % 2
  {
  }

  lemma Half(e: int, h: int)
    requires 2 * h <= e < 2 * h + 2
    ensures e / 2 == h
  {
  }

  lemma Quarter(e: int, h: int)
    requires 4 * h <= e < 4 * h + 4
    ensures e / 4 == h
  {
  }

  lemma Div128(e: int, h: int)
    requires 0x80 * h <= e < 0x80 * h + 0x80
    ensures e / 0x80 == h
  {
  }

  lemma Div256(e: int, h: int)
    requires 0x100 * h <= e < 0x100 * h + 0x100
    ensures e / 0x100 == h
  {
  }

  lemma Low(e: int, q: int, f: int)
    requires e == 0x1000 * q + f && 0 <= f < 0x1000
    ensures e % 0x1000 == f
  {
  }

  /** The six flag bits used in entries, of frame `q` with flags `f`. */
  lemma FlagBits(e: int, q: int, f: int)
    requires e == 0x1000 * q + f && 0 <= f < 0x1000 && q >= 0
    ensures e % 2 == f % 2 && e / 2 % 2 == f / 2 % 2 && e / 4 % 2 == f / 4 % 2
    ensures e / 0x80 % 2 == f / 0x80 % 2 && e / 0x100 % 2 == f / 0x100 % 2 && e % 0x1000 == f
  {
    Parity(e, 0x800 * q, f);
    Half(e, 0x800 * q + f / 2);
    Parity(e / 2, 0x400 * q, f / 2);
    Quarter(e, 0x400 * q + f / 4);
    Parity(e / 4, 0x200 * q, f / 4);
    Div128(e, 0x20 * q + f / 0x80);
    Parity(e / 0x80, 0x10 * q, f / 0x80);
    Div256(e, 0x10 * q + f / 0x100);
    Parity(e / 0x100, 0x8 * q, f / 0x100);
    Low(e, q, f);
  }

  lemma MarkBits(e: int, q: int, f: int)
    requires e == 0x1000 * q + f && 0 <= f < 0x1000
    ensures e / 0x20 % 4 == f / 0x20 % 4
  {
    var h, r := f / 0x20, f % 0x20;
    assert e == 0x20 * (0x80 * q + h) + r;
    Div32(e, 0x80 * q + h);
    Mod4(0x80 * q + h, 0x20 * q, h);
  }

  lemma Div32(e: int, h: int)
    requires 0x20 * h <= e < 0x20 * h + 0x20
    ensures e / 0x20 == h
  {
  }

  lemma Mod4(n: int, k: int, h: int)
    requires n == 4 * k + h
    ensures n % 4 == h % 4
  {
  }

  /** Clearing bits 5 and 6 of the flags leaves the others. */
  lemma Marks(f: int)
    requires 0 <= f < 0x1000
    ensures var g := f - f / 0x20 % 4 * 0x20;
            0 <= g <= f && g % 2 == f % 2 && g / 2 % 2 == f / 2 % 2 && g / 4 % 2 == f / 4 % 2 &&
            g / 0x80 % 2 == f / 0x80 % 2
  {
    var h, s, r := f / 0x80, f / 0x20 % 4, f % 0x20;
    assert f == 0x80 * h + 0x20 * s + r;
    var g := 0x80 * h + r;
    Div128(g, h);
    Half(g, 0x40 * h + r / 2);
    Half(f, 0x40 * h + 0x10 * s + r / 2);
    Quarter(g, 0x20 * h + r / 4);
    Quarter(f, 0x20 * h + 0x8 * s + r / 4);
    Parity(g, 0x40 * h, r);
    Parity(f, 0x40 * h + 0x10 * s, r);
    Parity(g / 2, 0x20 * h, r / 2);
    Parity(f / 2, 0x20 * h + 0x8 * s, r / 2);
    Parity(g / 4, 0x10 * h, r / 4);
    Parity(f / 4, 0x10 * h + 0x4 * s, r / 4);
  }

  lemma BigFrame(e: int, q: int, f: int)
    requires e == 0x40_0000 * q + f && 0 <= f < 0x40_0000
    ensures e / 0x40_0000 == q
  {
  }
}
