/** Bit-level helpers: the nibble popcount table, the binary expansion of a
    hex digit and the one-bit count of a hex string. */
module BitMath {
  import opened Hex

  /** The 16-entry lookup table `pop4bit`. */
  const Pop4: seq<nat> := [0, 1, 1, 2, 1, 2, 2, 3, 1, 2, 2, 3, 2, 3, 3, 4]

  /** Weight of bit `r` of a nibble when read most-significant bit first. */
  function BitWeight(r: nat): (w: nat)
    requires r < 4
    ensures w > 0
  {
    if r == 0 then 8 else if r == 1 then 4 else if r == 2 then 2 else 1
  }

  /** Bit `r` of nibble `v`, most-significant bit first (r = 0 is the 8s bit). */
  function NibbleBit(v: nat, r: nat): bool
    requires v < 16 && r < 4
  {
    (v / BitWeight(r)) % 2 == 1
  }

  /** Number of `true` entries of a bit sequence. */
  function CountTrue(b: seq<bool>): (k: nat)
    ensures k <= |b|
  {
    if b == [] then 0 else CountTrue(b[..|b| - 1]) + (if b[|b| - 1] then 1 else 0)
  }

  /** Number of `false` entries of a bit sequence. */
  function CountFalse(b: seq<bool>): (k: nat)
    ensures k + CountTrue(b) == |b|
  {
    if b == [] then 0 else CountFalse(b[..|b| - 1]) + (if b[|b| - 1] then 0 else 1)
  }

  lemma {:induction false} CountTrueAppend(a: seq<bool>, b: seq<bool>)
    ensures CountTrue(a + b) == CountTrue(a) + CountTrue(b)
    decreases |b|
  {
    if b == [] {
      assert a + b == a;
    } else {
      var b' := b[..|b| - 1];
      assert (a + b)[..|a + b| - 1] == a + b';
      CountTrueAppend(a, b');
    }
  }

  lemma {:induction false} CountFalseAppend(a: seq<bool>, b: seq<bool>)
    ensures CountFalse(a + b) == CountFalse(a) + CountFalse(b)
  {
    CountTrueAppend(a, b);
  }

  /** `v.toString(2)` as a sequence of bits, without leading zeros ("0" for 0). */
  function Binary(v: nat): (b: seq<bool>)
    ensures |b| >= 1
    decreases v
  {
    if v < 2 then [v == 1] else Binary(v / 2) + [v % 2 == 1]
  }

  /** `.padStart(width, '0')` on a bit sequence. */
  function PadStart(b: seq<bool>, width: nat): (p: seq<bool>)
    ensures |p| == if |b| < width then width else |b|
  {
    if |b| < width then seq(width - |b|, _ => false) + b else b
  }

  /** `parseInt(h, 16).toString(2).padStart(4, '0').split('').map(Number)`. */
  function NibbleBits(v: nat): seq<bool>
    requires v < 16
  {
    PadStart(Binary(v), 4)
  }

  /** The padded binary expansion of a nibble has four entries, and entry `r`
      is bit `r` read most-significant bit first. */
  lemma NibbleBitsMsbFirst(v: nat)
    requires v < 16
    ensures NibbleBits(v) == [NibbleBit(v, 0), NibbleBit(v, 1), NibbleBit(v, 2), NibbleBit(v, 3)]
  {
    if v < 2 {
      NibbleBitsOneDigit(v);
    } else if v < 4 {
      NibbleBitsTwoDigits(v);
    } else if v < 8 {
      NibbleBitsThreeDigits(v);
    } else {
      NibbleBitsFourDigits(v);
    }
  }

  lemma NibbleBitsOneDigit(v: nat)
    requires v < 2
    ensures NibbleBits(v) == [false, false, false, v == 1]
  {
    assert seq(3, _ => false) == [false, false, false];
  }

  lemma NibbleBitsTwoDigits(v: nat)
    requires 2 <= v < 4
    ensures NibbleBits(v) == [false, false, true, v == 3]
  {
    assert Binary(v) == [true, v == 3];
    assert seq(2, _ => false) == [false, false];
  }

  lemma NibbleBitsThreeDigits(v: nat)
    requires 4 <= v < 8
    ensures NibbleBits(v) == [false, true, (v / 2) % 2 == 1, v % 2 == 1]
  {
    assert Binary(v / 2) == [true, (v / 2) % 2 == 1];
    assert Binary(v) == [true, (v / 2) % 2 == 1, v % 2 == 1];
    assert seq(1, _ => false) == [false];
  }

  lemma NibbleBitsFourDigits(v: nat)
    requires 8 <= v < 16
    ensures NibbleBits(v) == [true, (v / 4) % 2 == 1, (v / 2) % 2 == 1, v % 2 == 1]
  {
    assert Binary(v / 4) == [true, (v / 4) % 2 == 1];
    assert Binary(v / 2) == [true, (v / 4) % 2 == 1, (v / 2) % 2 == 1];
  }

  /** Reference count of one-bits of a nibble, bit by bit. */
  function OnesInNibble(v: nat): nat
    requires v < 16
  {
    (if NibbleBit(v, 0) then 1 else 0) + (if NibbleBit(v, 1) then 1 else 0)
    + (if NibbleBit(v, 2) then 1 else 0) + (if NibbleBit(v, 3) then 1 else 0)
  }

  lemma CountTrueOfFour(a: bool, b: bool, c: bool, d: bool)
    ensures CountTrue([a, b, c, d])
         == (if a then 1 else 0) + (if b then 1 else 0) + (if c then 1 else 0) + (if d then 1 else 0)
  {
    assert [a, b, c, d][..3] == [a, b, c];
    assert [a, b, c][..2] == [a, b];
    assert [a, b][..1] == [a];
    assert [a][..0] == [];
    assert CountTrue([a]) == (if a then 1 else 0);
    assert CountTrue([a, b]) == CountTrue([a]) + (if b then 1 else 0);
    assert CountTrue([a, b, c]) == CountTrue([a, b]) + (if c then 1 else 0);
  }

  /** The table entry is the one-bit count, checked a quarter of the table
      at a time. */
  lemma Pop4Table(v: nat)
    requires v < 16
    ensures Pop4[v] == OnesInNibble(v)
  {
    if v < 4 {
      Pop4Quarter0(v);
    } else if v < 8 {
      Pop4Quarter1(v);
    } else if v < 12 {
      Pop4Quarter2(v);
    } else {
      Pop4Quarter3(v);
    }
  }

  lemma Pop4Quarter0(v: nat)
    requires v < 4
    ensures Pop4[v] == OnesInNibble(v)
  {
    if v == 0 {
      assert Pop4[0] == OnesInNibble(0);
    } else if v == 1 {
      assert Pop4[1] == OnesInNibble(1);
    } else if v == 2 {
      assert Pop4[2] == OnesInNibble(2);
    } else {
      assert Pop4[3] == OnesInNibble(3);
    }
  }

  lemma Pop4Quarter1(v: nat)
    requires 4 <= v < 8
    ensures Pop4[v] == OnesInNibble(v)
  {
    if v == 4 {
      assert Pop4[4] == OnesInNibble(4);
    } else if v == 5 {
      assert Pop4[5] == OnesInNibble(5);
    } else if v == 6 {
      assert Pop4[6] == OnesInNibble(6);
    } else {
      assert Pop4[7] == OnesInNibble(7);
    }
  }

  lemma Pop4Quarter2(v: nat)
    requires 8 <= v < 12
    ensures Pop4[v] == OnesInNibble(v)
  {
    if v == 8 {
      assert Pop4[8] == OnesInNibble(8);
    } else if v == 9 {
      assert Pop4[9] == OnesInNibble(9);
    } else if v == 10 {
      assert Pop4[10] == OnesInNibble(10);
    } else {
      assert Pop4[11] == OnesInNibble(11);
    }
  }

  lemma Pop4Quarter3(v: nat)
    requires 12 <= v < 16
    ensures Pop4[v] == OnesInNibble(v)
  {
    if v == 12 {
      assert Pop4[12] == OnesInNibble(12);
    } else if v == 13 {
      assert Pop4[13] == OnesInNibble(13);
    } else if v == 14 {
      assert Pop4[14] == OnesInNibble(14);
    } else {
      assert Pop4[15] == OnesInNibble(15);
    }
  }

  /** Every entry of `pop4bit` is the number of one-bits of its index. */
  lemma Pop4Correct(v: nat)
    requires v < 16
    ensures Pop4[v] == OnesInNibble(v)
    ensures Pop4[v] == CountTrue(NibbleBits(v))
  {
    Pop4Table(v);
    NibbleBitsMsbFirst(v);
    CountTrueOfFour(NibbleBit(v, 0), NibbleBit(v, 1), NibbleBit(v, 2), NibbleBit(v, 3));
  }

  /** The loop of `popcount` over the digits (no prefix handling). */
  function DigitsPopcount(s: string): (ones: nat)
    requires AllHex(s)
    ensures ones <= 4 * |s|
  {
    if s == [] then 0
    else DigitsPopcount(s[..|s| - 1]) + Pop4[DigitValue(s[|s| - 1])]
  }

  /** `popcount`: the number of one-bits of a "0x"-prefixed or plain hex string. */
  function Popcount(hex: string): (ones: nat)
    requires AllHex(StripPrefix(hex))
    ensures ones <= 4 * |StripPrefix(hex)|
  {
    DigitsPopcount(StripPrefix(hex))
  }

  /** popcount is additive over concatenation of digit strings. */
  lemma {:induction false} PopcountAppend(s: string, t: string)
    requires AllHex(s) && AllHex(t)
    ensures AllHex(s + t)
    ensures DigitsPopcount(s + t) == DigitsPopcount(s) + DigitsPopcount(t)
    decreases |t|
  {
    if t == [] {
      assert s + t == s;
    } else {
      var t' := t[..|t| - 1];
      assert (s + t)[..|s + t| - 1] == s + t';
      PopcountAppend(s, t');
    }
  }

  /** A leading "0x" does not change the count. */
  lemma PopcountIgnoresPrefix(s: string)
    requires AllHex(s)
    ensures AllHex(StripPrefix("0x" + s))
    ensures Popcount("0x" + s) == Popcount(s)
  {
    StripIdempotent(s);
    assert StripPrefix("0x" + s) == s;
  }

  /** The bit string of a digit string: the concatenated 4-bit expansions. */
  function Bin(s: string): (b: seq<bool>)
    requires AllHex(s)
    ensures |b| == 4 * |s|
  {
    if s == [] then []
    else
      NibbleBitsMsbFirst(DigitValue(s[|s| - 1]));
      Bin(s[..|s| - 1]) + NibbleBits(DigitValue(s[|s| - 1]))
  }

  /** Position `4 * i + r` of the bit string is bit `r` (MSB first) of digit `i`. */
  lemma {:induction false} BinIndex(s: string, i: nat, r: nat)
    requires AllHex(s) && i < |s| && r < 4
    ensures Bin(s)[4 * i + r] == NibbleBit(DigitValue(s[i]), r)
    decreases |s|
  {
    var last := |s| - 1;
    if i < last {
      BinIndex(s[..last], i, r);
      BinFront(s, 4 * i + r);
      assert s[..last][i] == s[i];
    } else {
      BinLast(s, i, r);
    }
  }

  /** The bits of all digits but the last are the front of the bit string. */
  lemma BinFront(s: string, k: nat)
    requires AllHex(s) && s != [] && k < 4 * (|s| - 1)
    ensures AllHex(s[..|s| - 1])
    ensures Bin(s)[k] == Bin(s[..|s| - 1])[k]
  {
    assert Bin(s) == Bin(s[..|s| - 1]) + NibbleBits(DigitValue(s[|s| - 1]));
  }

  /** The last four bits are the last digit's bits, most significant first. */
  lemma BinLast(s: string, i: nat, r: nat)
    requires AllHex(s) && i == |s| - 1 && r < 4
    ensures Bin(s)[4 * i + r] == NibbleBit(DigitValue(s[i]), r)
  {
    var tail := NibbleBits(DigitValue(s[i]));
    assert Bin(s) == Bin(s[..i]) + tail;
    NibbleBitsMsbFirst(DigitValue(s[i]));
    assert Bin(s)[4 * i + r] == tail[r];
  }

  /** popcount equals the number of one-bits of the expanded bit string. */
  lemma {:induction false} PopcountCountsBits(s: string)
    requires AllHex(s)
    ensures DigitsPopcount(s) == CountTrue(Bin(s))
    decreases |s|
  {
    if s != [] {
      var last := |s| - 1;
      PopcountCountsBits(s[..last]);
      Pop4Correct(DigitValue(s[last]));
      CountTrueAppend(Bin(s[..last]), NibbleBits(DigitValue(s[last])));
    }
  }
}
