/** Primitive field codecs used by the string-table decoder: bytes, the
    little-endian u32 of `u32::from_le_bytes`, and the bitwise complement
    that hides the text of every string-table item. */
module Bytes {

  /** Rust's `u8`. */
  newtype byte = x: int | 0 <= x < 0x100

  /** `!b` on a `u8`, as 255 - b; NotIsBitwise shows that this flips each
      of the eight bits. */
  function Not(b: byte): byte
  {
    0xFF - b
  }

  /** Bit `i` of `x`, counting from the least significant one. */
  function Bit(x: nat, i: nat): nat
    decreases i
  {
    if i == 0 then x % 2 else Bit(x / 2, i - 1)
  }

  function Pow2(w: nat): nat
  {
    if w == 0 then 1 else 2 * Pow2(w - 1)
  }

  /** Subtracting from a row of `w` one-bits never borrows, so it flips
      each of the low `w` bits. */
  lemma {:induction false} AllOnesMinus(w: nat, x: nat, i: nat)
    requires x < Pow2(w) && i < w
    ensures Bit(Pow2(w) - 1 - x, i) == 1 - Bit(x, i)
    decreases i
  {
    var y := Pow2(w) - 1 - x;
    var h := Pow2(w - 1);
    assert Pow2(w) == 2 * h;
    assert x == 2 * (x / 2) + x % 2;
    assert y == 2 * (h - 1 - x / 2) + (1 - x % 2);
    if i > 0 {
      assert y / 2 == h - 1 - x / 2;
      AllOnesMinus(w - 1, x / 2, i - 1);
    }
  }

  /** Not flips every one of the eight bits of its operand, as `!` does. */
  lemma NotIsBitwise(b: byte, i: nat)
    requires i < 8
    ensures Bit(Not(b) as nat, i) == 1 - Bit(b as nat, i)
  {
    assert Pow2(2) == 4;
    assert Pow2(4) == 16 by { assert Pow2(3) == 8; }
    assert Pow2(6) == 64 by { assert Pow2(5) == 32; }
    assert Pow2(8) == 256 by { assert Pow2(7) == 128; }
    AllOnesMinus(8, b as nat, i);
  }

  /** Rust's `u32`: values of 32 bits, no wrap-around is ever needed here. */
  newtype u32 = x: int | 0 <= x < 0x1_0000_0000

  /** `u32::from_le_bytes`: the first byte is the least significant one. */
  function LeU32(b: seq<byte>): (r: u32)
    requires |b| == 4
  {
    (b[0] as int + 0x100 * (b[1] as int + 0x100 * (b[2] as int + 0x100 * b[3] as int))) as u32
  }

  /** `u32::to_le_bytes`, the inverse of LeU32; it is used only to state
      round trips, the decoder never encodes. */
  function U32Le(n: u32): (b: seq<byte>)
    ensures |b| == 4
  {
    var x0 := n as int;
    var x1 := x0 / 0x100;
    var x2 := x1 / 0x100;
    var x3 := x2 / 0x100;
    [(x0 % 0x100) as byte, (x1 % 0x100) as byte, (x2 % 0x100) as byte, x3 as byte]
  }

  /** Euclidean division by 256 of a number given as quotient and remainder. */
  lemma DivModByte(x: int, q: int, r: int)
    requires 0 <= r < 0x100 && x == 0x100 * q + r
    ensures x / 0x100 == q && x % 0x100 == r
  {
  }

  /** The base-256 digits of a number below 2^32, as U32Le takes them. */
  lemma Digits(x0: int)
    requires 0 <= x0 < 0x1_0000_0000
    ensures var x1 := x0 / 0x100; var x2 := x1 / 0x100; var x3 := x2 / 0x100;
      x3 < 0x100 &&
      x0 == x0 % 0x100 + 0x100 * (x1 % 0x100 + 0x100 * (x2 % 0x100 + 0x100 * x3))
  {
    var x1 := x0 / 0x100;
    var x2 := x1 / 0x100;
    var x3 := x2 / 0x100;
    assert x0 == 0x100 * x1 + x0 % 0x100;
    assert x1 == 0x100 * x2 + x1 % 0x100;
    assert x2 == 0x100 * x3 + x2 % 0x100;
  }

  /** Reading back the four bytes of a u32 gives that u32. */
  lemma LeU32OfU32Le(n: u32)
    ensures LeU32(U32Le(n)) == n
  {
    var x0 := n as int;
    var x1 := x0 / 0x100;
    var x2 := x1 / 0x100;
    var x3 := x2 / 0x100;
    Digits(x0);
    var b := U32Le(n);
    assert b == [(x0 % 0x100) as byte, (x1 % 0x100) as byte, (x2 % 0x100) as byte, x3 as byte];
  }

  /** Every four bytes are the encoding of the u32 they decode to, so
      LeU32 loses nothing. */
  lemma U32LeOfLeU32(b: seq<byte>)
    requires |b| == 4
    ensures U32Le(LeU32(b)) == b
  {
    var b0, b1, b2, b3 := b[0] as int, b[1] as int, b[2] as int, b[3] as int;
    var x2 := b2 + 0x100 * b3;
    var x1 := b1 + 0x100 * x2;
    var x0 := b0 + 0x100 * x1;
    assert LeU32(b) as int == x0;
    DivModByte(x0, x1, b0);
    DivModByte(x1, x2, b1);
    DivModByte(x2, b3, b2);
    var e := U32Le(LeU32(b));
    assert e[0] == b[0] && e[1] == b[1] && e[2] == b[2] && e[3] == b[3];
  }

  /** The text bytes of an item, each bitwise negated (`!byte`). */
  function Complement(s: seq<byte>): seq<byte>
  {
    seq(|s|, i requires 0 <= i < |s| => Not(s[i]))
  }

  /** The complement is its own inverse, which is what makes the stored
      text recoverable and re-encodable. */
  lemma ComplementInvolution(s: seq<byte>)
    ensures Complement(Complement(s)) == s
  {
  }

  /** No two stored byte strings decode to the same complemented bytes. */
  lemma ComplementInjective(s: seq<byte>, t: seq<byte>)
    requires Complement(s) == Complement(t)
    ensures s == t
  {
    ComplementInvolution(s);
    ComplementInvolution(t);
  }

  /** The two documented end-of-string signatures of the stored text:
      0xF5 0xFF is a line feed followed by a NUL after negation, and
      0xFF 0xFF is two NULs. */
  lemma TerminatorSignatures()
    ensures Complement([0xF5, 0xFF]) == [0x0A, 0x00]
    ensures Complement([0xFF, 0xFF]) == [0x00, 0x00]
  {
  }

  /** The in-place negation of the text bytes (main.rs:130): every element
      of the array is replaced by its complement, one at a time. */
  method ComplementInPlace(a: array<byte>)
    modifies a
    ensures a[..] == Complement(old(a[..]))
  {
    var i := 0;
    while i < a.Length
      invariant 0 <= i <= a.Length
      invariant forall k :: 0 <= k < i ==> a[k] == Not(old(a[k]))
      invariant forall k :: i <= k < a.Length ==> a[k] == old(a[k])
    {
      a[i] := Not(a[i]);
      i := i + 1;
    }
  }
}
