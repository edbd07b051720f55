/** Bytes, byte strings and the ASCII codes the sources name. */
module Bytes {

  type Byte = x: int | 0 <= x < 256

  const NUL: Byte := 0
  const BACKSPACE: Byte := 8
  const HT: Byte := 9
  const LF: Byte := 10
  const FF: Byte := 12
  const CR: Byte := 13
  const SP: Byte := 32
  const QUOTE: Byte := 34
  const HYPHEN: Byte := 45
  const SLASH: Byte := 47
  const COLON: Byte := 58
  const BACKSLASH: Byte := 92

  datatype Option<+T> = None | Some(value: T)

  /** The value of a byte read through a plain (signed) `char`. */
  function Signed(b: Byte): int {
    if b < 128 then b else b - 256
  }

  /** `strlen`: the number of bytes before the first NUL, or all of them. */
  function StrLen(s: seq<Byte>): (n: nat)
    ensures n <= |s|
    ensures forall i :: 0 <= i < n ==> s[i] != NUL
    ensures n < |s| ==> s[n] == NUL
  {
    if s == [] || s[0] == NUL then 0 else 1 + StrLen(s[1..])
  }

  /** A NUL-terminated string in memory: its characters, then one NUL. */
  predicate IsCString(s: seq<Byte>) {
    s != [] && s[|s| - 1] == NUL && NUL !in s[..|s| - 1]
  }

  type CString = s: seq<Byte> | IsCString(s) witness [0]

  /** The characters before the terminator. */
  function Text(s: CString): seq<Byte> {
    s[..|s| - 1]
  }

  /** `needle` occurs somewhere in `s`. */
  ghost predicate Contains(s: seq<Byte>, needle: seq<Byte>) {
    exists i :: 0 <= i <= |s| && needle <= s[i..]
  }
}
