/** `to_le_bytes` / `from_le_bytes` for every width, and the proof that they invert each other. */
module LittleEndian {
  import opened Machine
  import opened DivMod

  function Radix(width: nat): (r: nat)
    ensures r > 0
  {
    if width == 0 then 1 else 0x100 * Radix(width - 1)
  }

  function ToLe(width: nat, value: nat): (bytes: seq<u8>)
    ensures |bytes| == width
  {
    if width == 0 then [] else [value % 0x100] + ToLe(width - 1, value / 0x100)
  }

  function FromLe(bytes: seq<u8>): (value: nat)
    ensures value < Radix(|bytes|)
  {
    if bytes == [] then 0 else bytes[0] + 0x100 * FromLe(bytes[1..])
  }

  lemma {:induction false} FromLeToLe(width: nat, value: nat)
    requires value < Radix(width)
    ensures FromLe(ToLe(width, value)) == value
  {
    if width > 0 {
      FromLeToLe(width - 1, value / 0x100);
      assert ToLe(width, value)[1..] == ToLe(width - 1, value / 0x100);
    }
  }

  /** Least significant byte first: byte i of the encoding is digit i of the value in base 256. */
  lemma {:induction false} ToLeByte(width: nat, value: nat, i: nat)
    requires i < width
    ensures ToLe(width, value)[i] == value / Radix(i) % 0x100
  {
    if i > 0 {
      ToLeByte(width - 1, value / 0x100, i - 1);
      DivDiv(value, 0x100, Radix(i - 1));
    }
  }

  lemma {:induction false} ToLeFromLe(bytes: seq<u8>)
    ensures ToLe(|bytes|, FromLe(bytes)) == bytes
  {
    if bytes != [] {
      ToLeFromLe(bytes[1..]);
      assert FromLe(bytes) % 0x100 == bytes[0];
      assert FromLe(bytes) / 0x100 == FromLe(bytes[1..]);
    }
  }

  lemma Radices()
    ensures Radix(4) == U32_SPACE && Radix(8) == U64_SPACE
  {
    assert Radix(2) == 0x1_0000;
    assert Radix(4) == 0x1_0000 * Radix(2);
    assert Radix(6) == 0x1_0000 * Radix(4);
    assert Radix(8) == 0x1_0000 * Radix(6);
  }

  function U32FromLe(bytes: seq<u8>): u32
    requires |bytes| == 4
  {
    Radices();
    FromLe(bytes)
  }

  function U64FromLe(bytes: seq<u8>): u64
    requires |bytes| == 8
  {
    Radices();
    FromLe(bytes)
  }
}
