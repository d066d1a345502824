/** The eight-bit unsigned values every text and stream of the SDK is made of. */
module Bytes {
  import opened Wrappers

  type byte = x: int | 0 <= x < 256

  /** The value of a hexadecimal digit. */
  function HexValue(b: byte): Option<nat> {
    if 48 <= b <= 57 then Some(b - 48)
    else if 65 <= b <= 70 then Some(b - 55)
    else if 97 <= b <= 102 then Some(b - 87)
    else None
  }

  /** The digits in order, small and capital, and no others. */
  lemma HexDigits(b: byte)
    ensures forall n: nat :: n < 10 ==> HexValue(48 + n) == Some(n)
    ensures HexValue(97) == HexValue(65) == Some(10) && HexValue(98) == HexValue(66) == Some(11)
    ensures HexValue(99) == HexValue(67) == Some(12) && HexValue(100) == HexValue(68) == Some(13)
    ensures HexValue(101) == HexValue(69) == Some(14) && HexValue(102) == HexValue(70) == Some(15)
    ensures HexValue(b).Some? <==> 48 <= b < 58 || b in [65, 66, 67, 68, 69, 70, 97, 98, 99, 100, 101, 102]
  {}
}
