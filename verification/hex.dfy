/** Hex strings as the engine receives them: digits, the optional "0x"
    prefix, the two supported hash widths and the input validity test. */
module Hex {

  datatype Option<T> = None | Some(value: T)

  /** The two supported hash widths. */
  datatype HashBits = Bits256 | Bits160

  function Bits(b: HashBits): nat
  {
    match b
    case Bits256 => 256
    case Bits160 => 160
  }

  /** Number of sectors (hex digits) of a hash: 64 for 256-bit, 40 for 160-bit. */
  function Sectors(b: HashBits): (n: nat)
    ensures 4 * n == Bits(b)
    ensures n > 0
  {
    if b == Bits256 then 64 else 40
  }

  predicate IsHexDigit(c: char)
  {
    ('0' <= c <= '9') || ('a' <= c <= 'f') || ('A' <= c <= 'F')
  }

  predicate AllHex(s: string)
  {
    forall i :: 0 <= i < |s| ==> IsHexDigit(s[i])
  }

  /** `parseInt(c, 16)` on a single hex digit. */
  function DigitValue(c: char): (v: nat)
    requires IsHexDigit(c)
    ensures v < 16
  {
    if '0' <= c <= '9' then (c - '0') as nat
    else if 'a' <= c <= 'f' then (c - 'a') as nat + 10
    else (c - 'A') as nat + 10
  }

  /** `hex.startsWith('0x')` (case sensitive, as `bitMath.ts`, `symmetry.ts` and `mandala.ts` test it). */
  predicate HasPrefix(s: string)
  {
    |s| >= 2 && s[0] == '0' && s[1] == 'x'
  }

  /** The digits of a hash: the string without a leading "0x". */
  function StripPrefix(s: string): (r: string)
    ensures HasPrefix(s) ==> s == "0x" + r
    ensures !HasPrefix(s) ==> r == s
  {
    if HasPrefix(s) then s[2..] else s
  }

  /** A digit string never starts with "0x" ('x' is not a hex digit), so
      stripping twice is stripping once. */
  lemma StripIdempotent(s: string)
    requires AllHex(StripPrefix(s))
    ensures StripPrefix(StripPrefix(s)) == StripPrefix(s)
  {
  }

  /** The engine's input contract: exactly N hex digits after an optional "0x". */
  predicate WellFormedHex(hex: string, bits: HashBits)
  {
    AllHex(StripPrefix(hex)) && |StripPrefix(hex)| == Sectors(bits)
  }

  /** The UI's validity test: `/^0x[0-9a-fA-F]+$/` and length 2 + bits/4. */
  predicate ValidHashInput(hex: string, bits: HashBits)
  {
    |hex| == 2 + Bits(bits) / 4 && HasPrefix(hex) && AllHex(hex[2..])
  }

  /** Every string the UI accepts meets the engine's input contract. */
  lemma ValidInputIsWellFormed(hex: string, bits: HashBits)
    requires ValidHashInput(hex, bits)
    ensures WellFormedHex(hex, bits)
    ensures StripPrefix(hex) == hex[2..]
  {
  }
}
