/** Octets and the optional values shared by the components. */
module Bytes {
  type byte = x: int | 0 <= x < 256
  type word = x: int | 0 <= x < 65536

  datatype Option<+T> = None | Some(value: T)

  const CR: byte := 13
  const LF: byte := 10
  const SP: byte := 32
  const HT: byte := 9
  const CRLF: seq<byte> := [CR, LF]

  predicate IsDigit(b: byte) { 48 <= b <= 57 }

  function Lower(b: byte): byte { if 65 <= b <= 90 then b + 32 else b }

  /** The value of one hexadecimal digit in either case. */
  function HexNibble(b: byte): (r: Option<nat>)
    ensures r.Some? ==> r.value < 16
  {
    if 48 <= b <= 57 then Some(b - 48)
    else if 97 <= b <= 102 then Some(b - 87)
    else if 65 <= b <= 70 then Some(b - 55)
    else None
  }

  function Ascii(s: string): (r: seq<byte>)
    ensures |r| == |s|
  {
    seq(|s|, i requires 0 <= i < |s| => s[i] as int % 256)
  }

  function Min(a: nat, b: nat): nat { if a < b then a else b }
}
