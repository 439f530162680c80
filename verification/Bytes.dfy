/** Bytes, the few that matter to the protocol, and slices of a buffer. */
module Bytes {

  type Byte = b: nat | b < 256

  const TAB: Byte := 9
  const LF: Byte := 10
  const CR: Byte := 13
  const SPACE: Byte := 32
  const ZERO: Byte := 48
  const NINE: Byte := 57
  const DEL: Byte := 127
  const CRLF: seq<Byte> := [CR, LF]

  const SIZE_MAX: nat := 0xFFFF_FFFF_FFFF_FFFF
  const UINT32_MAX: nat := 0xFFFF_FFFF

  /** Where a slice lies in a buffer. */
  datatype Slice = Slice(at: nat, len: nat)

  predicate Within(t: Slice, b: seq<Byte>) {
    t.at + t.len <= |b|
  }

  function Text(b: seq<Byte>, t: Slice): seq<Byte>
    requires Within(t, b)
  {
    b[t.at..t.at + t.len]
  }
}
