/**
 * Byte order: the swab macros as C evaluates them, and how a 16-bit load sees
 * two bytes of a packet on a little-endian and on a big-endian machine.
 */
module Endian {
  type Byte = b: nat | b < 256

  datatype Order = Little | Big

  // ---- The macros, with their shift counts worked out ----------------------

  /** C promotes the 16-bit operand to `int`; the outer cast drops what spills. */
  function Swab16(x: bv16): bv16 {
    var p := x as bv32;
    (((((p << 8) >> 8) << 8) | (((p << 0) >> 8) << 0)) & 0xffff) as bv16
  }

  function Swab32(x: bv32): bv32 {
    (((x << 24) >> 24) << 24) | (((x << 16) >> 24) << 16) | (((x << 8) >> 24) << 8) | (((x << 0) >> 24) << 0)
  }

  function Swab64(x: bv64): bv64 {
    (((x << 56) >> 56) << 56) | (((x << 48) >> 56) << 48) | (((x << 40) >> 56) << 40) | (((x << 32) >> 56) << 32)
    | (((x << 24) >> 56) << 24) | (((x << 16) >> 56) << 16) | (((x << 8) >> 56) << 8) | (((x << 0) >> 56) << 0)
  }

  /** The 32-bit macro reverses the bytes and undoes itself. */
  lemma Swab32Reverses(x: bv32)
    ensures Swab32(x) & 0xff == x >> 24 && (Swab32(x) >> 8) & 0xff == (x >> 16) & 0xff
    ensures (Swab32(x) >> 16) & 0xff == (x >> 8) & 0xff && Swab32(x) >> 24 == x & 0xff
    ensures Swab32(Swab32(x)) == x
  {
  }

  /** The 64-bit macro reverses the bytes and undoes itself. */
  lemma Swab64Reverses(x: bv64)
    ensures Swab64(x) & 0xff == x >> 56 && (Swab64(x) >> 8) & 0xff == (x >> 48) & 0xff
    ensures (Swab64(x) >> 16) & 0xff == (x >> 40) & 0xff && (Swab64(x) >> 24) & 0xff == (x >> 32) & 0xff
    ensures (Swab64(x) >> 32) & 0xff == (x >> 24) & 0xff && (Swab64(x) >> 40) & 0xff == (x >> 16) & 0xff
    ensures (Swab64(x) >> 48) & 0xff == (x >> 8) & 0xff && Swab64(x) >> 56 == x & 0xff
    ensures Swab64(Swab64(x)) == x
  {
  }

  // ---- 16-bit fields as numbers --------------------------------------------

  function Swap16(x: nat): nat {
    (x % 256) * 256 + x / 256
  }

  lemma SplitBytes(x: bv16) returns (hi: nat, lo: nat)
    ensures hi == (x >> 8) as nat && lo == (x & 0xff) as nat && lo < 256 && x as nat == hi * 256 + lo
  {
    hi, lo := (x >> 8) as nat, (x & 0xff) as nat;
  }

  lemma Swab16Bytes(x: bv16)
    ensures Swab16(x) >> 8 == x & 0xff && Swab16(x) & 0xff == x >> 8 && Swab16(Swab16(x)) == x
  {
  }

  /** The halves of the swapped word are those of the word, exchanged. */
  lemma SwabHalves(x: bv16) returns (hi: nat, lo: nat)
    ensures lo < 256 && x as nat == hi * 256 + lo && Swab16(x) as nat == lo * 256 + hi
  {
    Swab16Bytes(x);
    hi, lo := SplitBytes(x);
    var hi', lo' := SplitBytes(Swab16(x));
    assert hi' == lo && lo' == hi;
  }

  /** The 16-bit macro exchanges the two bytes of the number and undoes itself. */
  lemma Swab16Swaps(x: bv16)
    ensures Swab16(x) as nat == Swap16(x as nat) && Swab16(Swab16(x)) == x
  {
    Swab16Bytes(x);
    var hi, lo := SwabHalves(x);
    SwapParts(hi, lo);
  }

  lemma SwapParts(hi: nat, lo: nat)
    requires lo < 256
    ensures Swap16(hi * 256 + lo) == lo * 256 + hi
  {
  }

  /** What a load of two consecutive bytes yields. */
  function Load16(order: Order, b0: Byte, b1: Byte): nat {
    if order.Little? then b0 + 256 * b1 else 256 * b0 + b1
  }

  /** `bpf_htons` and `bpf_ntohs`; `HtonsIsSwab` ties them to the macro. */
  function Htons(order: Order, x: nat): nat {
    if order.Little? then Swap16(x) else x
  }

  /** On a little-endian machine `Htons` is the macro. */
  lemma HtonsIsSwab(x: bv16)
    ensures Htons(Little, x as nat) == Swab16(x) as nat
  {
    Swab16Swaps(x);
  }

  lemma SpellsParts(order: Order, b0: Byte, b1: Byte, hi: Byte, lo: Byte)
    ensures Load16(order, b0, b1) == Htons(order, hi * 256 + lo) <==> b0 == hi && b1 == lo
  {
    SwapParts(hi, lo);
  }

  /** Comparing a loaded field with `bpf_htons(c)` asks whether its bytes spell `c`. */
  lemma HtonsSpells(order: Order, b0: Byte, b1: Byte, c: nat)
    requires c < 0x1_0000
    ensures Load16(order, b0, b1) == Htons(order, c) <==> 256 * b0 + b1 == c
    ensures Htons(order, Load16(order, b0, b1)) == 256 * b0 + b1
  {
    SpellsParts(order, b0, b1, c / 256, c % 256);
    SwapParts(b1, b0);
  }
}
