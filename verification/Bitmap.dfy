/** The frame bitmap: one bit per frame, packed eight to a byte, set while reserved. */
module Bitmap {

  function Mask(bit: nat): bv8
    requires bit < 8
  {
    match bit
    case 0 => 0x01 case 1 => 0x02 case 2 => 0x04 case 3 => 0x08
    case 4 => 0x10 case 5 => 0x20 case 6 => 0x40 case _ => 0x80
  }

  predicate BitOf(b: bv8, i: nat)
    requires i < 8
  {
    b & Mask(i) != 0
  }

  /** Setting a bit of a byte sets that bit and no other. */
  lemma {:induction false} SetBit(b: bv8, i: nat, j: nat)
    requires i < 8 && j < 8
    ensures BitOf(b | Mask(i), j) == (i == j || BitOf(b, j))
  {
  }

  /** Clearing a bit of a byte clears that bit and no other. */
  lemma {:induction false} ClearBit(b: bv8, i: nat, j: nat)
    requires i < 8 && j < 8
    ensures BitOf(b & !Mask(i), j) == (i != j && BitOf(b, j))
  {
  }

  /** Always true; names the frame whose packed bit a proof looks at. */
  ghost predicate Frame(f: int) { true }

  /** The bytes hold exactly these bits. */
  ghost predicate Packs(bytes: seq<bv8>, bits: seq<bool>) {
    |bits| == 8 * |bytes| &&
    forall f {:trigger Frame(f)} :: Frame(f) && 0 <= f < |bits| ==> bits[f] == BitOf(bytes[f / 8], f % 8)
  }

  /** Replacing a byte by one that differs in a single bit changes that frame's bit alone. */
  lemma {:induction false} PacksUpdate(bytes: seq<bv8>, bits: seq<bool>, frame: nat, byte: bv8, value: bool)
    requires Packs(bytes, bits) && frame < |bits|
    requires forall j :: 0 <= j < 8 ==> BitOf(byte, j) == if j == frame % 8 then value else BitOf(bytes[frame / 8], j)
    ensures Packs(bytes[frame / 8 := byte], bits[frame := value])
  {
  }

  class FrameBitmap {
    const bytes: array<bv8>
    /** The bits, unpacked. */
    ghost var bits: seq<bool>

    ghost predicate Valid()
      reads this, bytes
    {
      Packs(bytes[..], bits)
    }

    /** All frames start out reserved. */
    constructor (size: nat)
      ensures Valid() && fresh(bytes) && |bits| == 8 * size && forall f :: 0 <= f < |bits| ==> bits[f]
    {
      bytes := new bv8[size](_ => 0xFF);
      bits := seq(8 * size, _ => true);
      new;
      forall i | 0 <= i < 8 ensures BitOf(0xFF, i) {}
    }

    method Set(frame: nat)
      requires Valid() && frame < |bits|
      modifies this, bytes
      ensures Valid() && bits == old(bits)[frame := true]
    {
      var byte := bytes[frame / 8] | Mask(frame % 8);
      forall j | 0 <= j < 8 { SetBit(bytes[frame / 8], frame % 8, j); }
      PacksUpdate(bytes[..], bits, frame, byte, true);
      bytes[frame / 8] := byte;
      bits := bits[frame := true];
      assert bytes[..] == old(bytes[..])[frame / 8 := byte];
    }

    method Clear(frame: nat)
      requires Valid() && frame < |bits|
      modifies this, bytes
      ensures Valid() && bits == old(bits)[frame := false]
    {
      var byte := bytes[frame / 8] & !Mask(frame % 8);
      forall j | 0 <= j < 8 { ClearBit(bytes[frame / 8], frame % 8, j); }
      PacksUpdate(bytes[..], bits, frame, byte, false);
      bytes[frame / 8] := byte;
      bits := bits[frame := false];
      assert bytes[..] == old(bytes[..])[frame / 8 := byte];
    }

    method Test(frame: nat) returns (reserved: bool)
      requires Valid() && frame < |bits|
      ensures reserved == bits[frame]
    {
      assert Frame(frame);
      reserved := BitOf(bytes[frame / 8], frame % 8);
    }
  }
}
