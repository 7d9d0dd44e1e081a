/**
 Fixed-width integers of the C sources. Every operation on one of these types carries the
 obligation that its result fits, so a method over them is free of overflow.
 Where the source relies on unsigned wrap-around the reduction is written out.
 */
module MachineInts {

  newtype u8 = x: int | 0 <= x < 0x100
  newtype i16 = x: int | -0x8000 <= x < 0x8000
  newtype i32 = x: int | -0x8000_0000 <= x < 0x8000_0000
  newtype u32 = x: int | 0 <= x < 0x1_0000_0000
  newtype i64 = x: int | -0x8000_0000_0000_0000 <= x < 0x8000_0000_0000_0000
  newtype u64 = x: int | 0 <= x < 0x1_0000_0000_0000_0000

  const TWO_TO_THE_61 := 0x2000_0000_0000_0000
  const TWO_TO_THE_64 := 0x1_0000_0000_0000_0000

  lemma ShiftInBit(v: bv8, bit: bv8)
    requires v < 0x80 && bit < 2
    ensures ((v << 1) | bit) as int == 2 * v as int + bit as int
  {}

  lemma SmallBits(v: bv8)
    requires v as int < 0x80
    ensures v < 0x80
  {}

  lemma {:induction false} BitsExist(x: int) returns (b: bv8)
    requires 0 <= x < 0x100
    ensures b as int == x
  {
    if x == 0 {
      b := 0;
    } else {
      var v := BitsExist(x / 2);
      var bit: bv8 := if x % 2 == 1 then 1 else 0;
      SmallBits(v);
      ShiftInBit(v, bit);
      b := (v << 1) | bit;
    }
  }

  lemma BitsReturn(b: bv8)
    ensures (b as int) as bv8 == b
  {}

  /** A byte survives the way through eight bits. */
  lemma BitsOfNumber(x: int)
    requires 0 <= x < 0x100
    ensures (x as bv8) as int == x
  {
    var b := BitsExist(x);
    BitsReturn(b);
  }
}
