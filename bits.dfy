/** Byte arithmetic of the binary/ASCII visualizer: eight switches standing for the bits
    of one byte, the value they add up to, the bit test that sets them back from a value,
    the zero-padded binary string shown beside them, and the breakdown of a target value
    into the switches a learner has to turn on. */
module Bits {
  import opened Wrappers

  /** The visualizer's current value is always a byte. */
  type Byte = v: int | 0 <= v < 256

  function Pow2(b: nat): (r: nat)
    ensures r >= 1
  {
    if b == 0 then 1 else 2 * Pow2(b - 1)
  }

  /** `(v & 2^b) !== 0` for a non-negative `v`: bit `b` of `v` is one. */
  predicate BitSet(v: nat, b: nat)
  {
    (v / Pow2(b)) % 2 == 1
  }

  /** The switch states, indexed by bit, that show `v` in `k` switches. */
  function BitsOf(v: nat, k: nat): seq<bool>
  {
    seq(k, b requires 0 <= b < k => BitSet(v, b))
  }

  /** The value a row of switches stands for: the sum of 2^b over the checked switches b
      (switch 0 first, each later switch worth twice the one before). */
  function SwitchValue(sw: seq<bool>): nat
    decreases |sw|
  {
    if sw == [] then 0 else (if sw[0] then 1 else 0) + 2 * SwitchValue(sw[1..])
  }

  // ---------------------------------------------------------------------------
  // Arithmetic helpers

  lemma MulAtLeastOnce(x: int, d: int)
    requires d > 0
    ensures x >= 1 ==> x * d >= d
    ensures x <= -1 ==> x * d <= -d
  {
  }

  lemma DivUnique(v: int, d: int, q: int, r: int)
    requires d > 0 && 0 <= r < d && v == q * d + r
    ensures v / d == q
  {
    var q', r' := v / d, v % d;
    assert q' * d + r' == v;
    assert (q - q') * d == r' - r;
    MulAtLeastOnce(q - q', d);
  }

  lemma DivHalf(v: nat, p: nat)
    requires p >= 1
    ensures v / (2 * p) == (v / 2) / p
  {
    var q, r := (v / 2) / p, (v / 2) % p;
    assert v == q * (2 * p) + (2 * r + v % 2);
    DivUnique(v, 2 * p, q, 2 * r + v % 2);
  }

  /** Bit b+1 of v is bit b of v / 2: the shift that every bit proof below rests on. */
  lemma BitSetShift(v: nat, b: nat)
    ensures BitSet(v, b + 1) == BitSet(v / 2, b)
  {
    DivHalf(v, Pow2(b));
  }

  /** No bit at or above position b is set in a value below 2^b. */
  lemma {:induction false} HighBitsClear(v: nat, b: nat, i: nat)
    requires v < Pow2(b) && b <= i
    ensures !BitSet(v, i)
    decreases i
  {
    if i == 0 {
    } else if b == 0 {
      HighBitsClear(v / 2, 0, i - 1);
      BitSetShift(v, i - 1);
    } else {
      HighBitsClear(v / 2, b - 1, i - 1);
      BitSetShift(v, i - 1);
    }
  }

  // ---------------------------------------------------------------------------
  // Switches to value and back

  /** Eight switches (or any k) add up to less than 2^k: at most 255 for a byte. */
  lemma {:induction false} SwitchValueBound(sw: seq<bool>)
    ensures SwitchValue(sw) < Pow2(|sw|)
    decreases |sw|
  {
    if sw != [] {
      SwitchValueBound(sw[1..]);
    }
  }

  /** Adding switch i to the switches below it adds 2^i when it is checked: the loop in
      the source accumulates exactly this. */
  lemma {:induction false} SwitchValueExtend(sw: seq<bool>, i: nat)
    requires i < |sw|
    ensures SwitchValue(sw[..i + 1]) == SwitchValue(sw[..i]) + (if sw[i] then Pow2(i) else 0)
    decreases i
  {
    if i > 0 {
      SwitchValueExtend(sw[1..], i - 1);
      assert sw[..i + 1][1..] == sw[1..][..i];
      assert sw[..i][1..] == sw[1..][..i - 1];
    }
  }

  /** Setting the switches from a value and adding them up again gives the value back. */
  lemma {:induction false} SwitchValueOfBits(v: nat, k: nat)
    requires v < Pow2(k)
    ensures SwitchValue(BitsOf(v, k)) == v
    decreases k
  {
    if k > 0 {
      SwitchValueOfBits(v / 2, k - 1);
      forall b | 0 <= b < k - 1
        ensures BitsOf(v, k)[1..][b] == BitsOf(v / 2, k - 1)[b]
      {
        BitSetShift(v, b);
      }
      assert BitsOf(v, k)[1..] == BitsOf(v / 2, k - 1);
    }
  }

  /** Adding the switches up and setting them from the sum gives the same switches. */
  lemma {:induction false} BitsOfSwitchValue(sw: seq<bool>)
    ensures BitsOf(SwitchValue(sw), |sw|) == sw
    decreases |sw|
  {
    if sw != [] {
      var v := SwitchValue(sw);
      BitsOfSwitchValue(sw[1..]);
      assert v / 2 == SwitchValue(sw[1..]);
      forall b | 0 <= b < |sw|
        ensures BitSet(v, b) == sw[b]
      {
        if b > 0 {
          BitSetShift(v, b - 1);
          assert BitsOf(SwitchValue(sw[1..]), |sw| - 1)[b - 1] == sw[1..][b - 1];
        }
      }
    }
  }

  // ---------------------------------------------------------------------------
  // Binary strings

  function Digit(bit: bool): char
  {
    if bit then '1' else '0'
  }

  /** `Number.prototype.toString(2)` of a non-negative integer: no leading zeros, "0" for 0. */
  function ToBase2(v: nat): string
    decreases v
  {
    if v < 2 then [Digit(v == 1)] else ToBase2(v / 2) + [Digit(v % 2 == 1)]
  }

  /** `String.prototype.padStart(width, c)` for a one-character pad. */
  function PadStart(s: string, width: int, c: char): (r: string)
    ensures |r| == if |s| < width then width else |s|
  {
    if |s| >= width then s else seq(width - |s|, _ => c) + s
  }

  /** `v.toString(2).padStart(8, '0')`. */
  function BinaryString(v: nat): string
  {
    PadStart(ToBase2(v), 8, '0')
  }

  /** `parseInt(s, 2)` of a string of binary digits, most significant digit first. */
  function ReadBase2(s: string): nat
    decreases |s|
  {
    if s == [] then 0 else 2 * ReadBase2(s[..|s| - 1]) + (if s[|s| - 1] == '1' then 1 else 0)
  }

  predicate IsBinaryDigits(s: string)
  {
    forall i :: 0 <= i < |s| ==> s[i] == '0' || s[i] == '1'
  }

  lemma {:induction false} ReadBase2Bound(s: string)
    ensures ReadBase2(s) < Pow2(|s|)
    decreases |s|
  {
    if s != [] {
      ReadBase2Bound(s[..|s| - 1]);
    }
  }

  lemma {:induction false} ReadBase2Zeros(k: nat)
    ensures ReadBase2(seq(k, _ => '0')) == 0
    decreases k
  {
    if k > 0 {
      assert seq(k, _ => '0')[..k - 1] == seq(k - 1, _ => '0');
      ReadBase2Zeros(k - 1);
    }
  }

  /** One step of the digit recursion survives padding: the padded string of v is the
      padded string of v / 2, one shorter, followed by the digit of v % 2. */
  lemma PadStartStep(v: nat, w: int)
    requires v >= 2
    ensures PadStart(ToBase2(v), w, '0') == PadStart(ToBase2(v / 2), w - 1, '0') + [Digit(v % 2 == 1)]
  {
    var s := ToBase2(v / 2);
    if |s| < w - 1 {
      assert seq(w - (|s| + 1), _ => '0') == seq(w - 1 - |s|, _ => '0');
    }
  }

  /** A value below 2^w has at most w base-2 digits, all of them binary digits. */
  lemma {:induction false} ToBase2Short(v: nat, w: nat)
    requires 1 <= w && v < Pow2(w)
    ensures 1 <= |ToBase2(v)| <= w && IsBinaryDigits(ToBase2(v))
    decreases v
  {
    if v >= 2 {
      ToBase2Short(v / 2, w - 1);
    }
  }

  /** The padded string of a value below 2^w has exactly w binary digits. */
  lemma PaddedShape(v: nat, w: nat)
    requires 1 <= w && v < Pow2(w)
    ensures |PadStart(ToBase2(v), w, '0')| == w
    ensures IsBinaryDigits(PadStart(ToBase2(v), w, '0'))
  {
    ToBase2Short(v, w);
    var t := ToBase2(v);
    if |t| < w {
      assert PadStart(t, w, '0') == seq(w - |t|, _ => '0') + t;
    }
  }

  /** Bit 0 of v is its parity. */
  lemma BitZero(v: nat)
    ensures BitSet(v, 0) <==> v % 2 == 1
  {
    assert Pow2(0) == 1;
  }

  /** In the padded string of a value below 2^w, character w-1-i shows bit i. */
  lemma {:induction false} PaddedDigits(v: nat, w: nat, i: nat)
    requires 1 <= w && v < Pow2(w) && i < w
    ensures |PadStart(ToBase2(v), w, '0')| == w
    ensures PadStart(ToBase2(v), w, '0')[w - 1 - i] == Digit(BitSet(v, i))
    decreases v
  {
    PaddedShape(v, w);
    BitZero(v);
    var s := PadStart(ToBase2(v), w, '0');
    if v < 2 {
      PaddedSingleDigit(v, w);
      if i > 0 {
        HighBitsClear(v, 1, i);
        assert s[w - 1 - i] == '0';
      } else {
        assert s[w - 1] == Digit(v == 1);
      }
    } else {
      var t := PadStart(ToBase2(v / 2), w - 1, '0');
      assert Pow2(0) == 1 && Pow2(w) == 2 * Pow2(w - 1);
      assert w >= 2 && v / 2 < Pow2(w - 1);
      PadStartStep(v, w);
      assert s == t + [Digit(v % 2 == 1)];
      if i > 0 {
        PaddedDigits(v / 2, w - 1, i - 1);
        BitSetShift(v, i - 1);
        assert s[w - 1 - i] == t[(w - 1) - 1 - (i - 1)];
        assert s[w - 1 - i] == Digit(BitSet(v, i));
      } else {
        assert s[w - 1] == Digit(v % 2 == 1);
      }
    }
  }

  lemma PaddedSingleDigit(v: nat, w: nat)
    requires v < 2 && 1 <= w
    ensures PadStart(ToBase2(v), w, '0') == seq(w - 1, _ => '0') + [Digit(v == 1)]
  {
  }

  /** Reading the padded string of v in base 2 gives v back. */
  lemma {:induction false} PaddedReadsBack(v: nat, w: int)
    ensures ReadBase2(PadStart(ToBase2(v), w, '0')) == v
    decreases v
  {
    var s := PadStart(ToBase2(v), w, '0');
    if v < 2 {
      var d := Digit(v == 1);
      if w <= 1 {
        assert s == [d];
        assert s[..0] == [];
      } else {
        var z := seq(w - 1, _ => '0');
        assert s == z + [d];
        assert s[..|s| - 1] == z;
        ReadBase2Zeros(w - 1);
      }
    } else {
      var t := PadStart(ToBase2(v / 2), w - 1, '0');
      var d := Digit(v % 2 == 1);
      PadStartStep(v, w);
      assert s == t + [d];
      assert s[..|s| - 1] == t;
      PaddedReadsBack(v / 2, w - 1);
    }
  }

  lemma Pow2Eight()
    ensures Pow2(8) == 256
  {
    assert Pow2(2) == 4;
    assert Pow2(4) == 16;
    assert Pow2(6) == 64;
  }

  /** For a byte, the displayed binary string is eight binary digits, character 7-i shows
      bit i, and its base-2 reading is the byte. */
  lemma BinaryStringOfByte(v: Byte)
    ensures |BinaryString(v)| == 8
    ensures IsBinaryDigits(BinaryString(v))
    ensures forall i :: 0 <= i < 8 ==> (BinaryString(v)[7 - i] == '1' <==> BitSet(v, i))
    ensures ReadBase2(BinaryString(v)) == v
  {
    Pow2Eight();
    PaddedShape(v, 8);
    PaddedReadsBack(v, 8);
    forall i | 0 <= i < 8
      ensures BinaryString(v)[7 - i] == '1' <==> BitSet(v, i)
    {
      PaddedDigits(v, 8, i);
    }
  }

  // ---------------------------------------------------------------------------
  // setValue and setBinary

  /** `Math.max(0, Math.min(255, v))`. */
  function Clamp(v: int): Byte
  {
    if v < 0 then 0 else if v > 255 then 255 else v
  }

  /** The clamped value is the byte nearest to the argument, and clamping a byte keeps it. */
  lemma ClampIsNearestByte(v: int, b: Byte)
    ensures (if Clamp(v) >= v then Clamp(v) - v else v - Clamp(v)) <= (if b >= v then b - v else v - b)
    ensures 0 <= v <= 255 <==> Clamp(v) == v
    ensures Clamp(Clamp(v)) == Clamp(v)
  {
  }

  /** The check of `setBinary`: one to eight characters, each '0' or '1'
      (`/^[01]{1,8}$/`); a string that passes is read with `parseInt(s, 2)`. */
  function ParseBinary(s: string): Option<Byte>
  {
    if 1 <= |s| <= 8 && IsBinaryDigits(s) then
      ReadBase2Bound(s);
      assert Pow2(|s|) <= Pow2(8) by { PowMonotone(|s|, 8); }
      Some(ReadBase2(s))
    else None
  }

  lemma {:induction false} PowMonotone(a: nat, b: nat)
    requires a <= b
    ensures Pow2(a) <= Pow2(b)
    decreases b
  {
    if a < b {
      PowMonotone(a, b - 1);
    }
  }

  /** Any string setBinary accepts yields a byte, and the binary string the visualizer
      shows for a byte is accepted by setBinary and reads back as that byte. */
  lemma ParseBinaryRoundTrip(v: Byte, s: string)
    ensures ParseBinary(BinaryString(v)) == Some(v)
    ensures ParseBinary(s).Some? <==> 1 <= |s| <= 8 && IsBinaryDigits(s)
    ensures ParseBinary(s).Some? ==> ParseBinary(s).value == ReadBase2(s)
  {
    BinaryStringOfByte(v);
  }

  // ---------------------------------------------------------------------------
  // The help explanation

  /** One switch the learner must turn on: its bit position and its decimal worth. */
  datatype SetBit = SetBit(position: nat, value: nat)

  function Positions(s: seq<SetBit>): seq<nat>
    decreases |s|
  {
    if s == [] then [] else Positions(s[..|s| - 1]) + [s[|s| - 1].position]
  }

  /** The sum the explanation's calculation line shows: the values joined by " + ". */
  function SumValues(s: seq<SetBit>): nat
    decreases |s|
  {
    if s == [] then 0 else SumValues(s[..|s| - 1]) + s[|s| - 1].value
  }

  lemma AppendSetBit(s: seq<SetBit>, x: SetBit)
    ensures Positions(s + [x]) == Positions(s) + [x.position]
    ensures SumValues(s + [x]) == SumValues(s) + x.value
  {
    assert (s + [x])[..|s|] == s;
  }

  /** What the help explanation reads off the padded binary string of a byte: digit 7-i
      is '1' exactly for the set bits, and the set bits add up to the byte. */
  lemma HelpDigits(target: Byte)
    ensures |BinaryString(target)| == 8
    ensures forall i :: 0 <= i < 8 ==> (BinaryString(target)[7 - i] == '1' <==> BitsOf(target, 8)[i])
    ensures SwitchValue(BitsOf(target, 8)[..8]) == target
  {
    BinaryStringOfByte(target);
    Pow2Eight();
    SwitchValueOfBits(target, 8);
    assert BitsOf(target, 8)[..8] == BitsOf(target, 8);
  }

  /** Every entry names a bit position below bound with its worth 2^position, and the
      positions strictly ascend. */
  predicate OrderedSteps(s: seq<SetBit>, bound: nat)
  {
    (forall k :: 0 <= k < |s| ==> s[k].position < bound && s[k].value == Pow2(s[k].position)) &&
    (forall k, l :: 0 <= k < l < |s| ==> s[k].position < s[l].position)
  }

  lemma OrderedStepsAppend(s: seq<SetBit>, i: nat)
    requires OrderedSteps(s, i)
    ensures OrderedSteps(s + [SetBit(i, Pow2(i))], i + 1)
  {
  }

  lemma OrderedStepsWiden(s: seq<SetBit>, i: nat)
    requires OrderedSteps(s, i)
    ensures OrderedSteps(s, i + 1)
  {
  }

  /** After scanning bit positions 0 .. i-1: the recorded steps are ordered, name exactly
      the set bits scanned so far, and add up to what those switches are worth. */
  predicate Scanned(s: seq<SetBit>, bits: seq<bool>, i: nat)
    requires i <= |bits|
  {
    && OrderedSteps(s, i)
    && (forall j :: 0 <= j < |bits| ==> (j in Positions(s) <==> j < i && bits[j]))
    && SumValues(s) == SwitchValue(bits[..i])
  }

  lemma ScanTake(s: seq<SetBit>, bits: seq<bool>, i: nat)
    requires i < |bits| && bits[i] && Scanned(s, bits, i)
    ensures Scanned(s + [SetBit(i, Pow2(i))], bits, i + 1)
  {
    var x := SetBit(i, Pow2(i));
    SwitchValueExtend(bits, i);
    AppendSetBit(s, x);
    OrderedStepsAppend(s, i);
    forall j | 0 <= j < |bits|
      ensures j in Positions(s + [x]) <==> j < i + 1 && bits[j]
    {
      assert j in Positions(s) + [i] <==> j in Positions(s) || j == i;
    }
  }

  lemma ScanSkip(s: seq<SetBit>, bits: seq<bool>, i: nat)
    requires i < |bits| && !bits[i] && Scanned(s, bits, i)
    ensures Scanned(s, bits, i + 1)
  {
    SwitchValueExtend(bits, i);
    OrderedStepsWiden(s, i);
  }

  /** The analysis step of the help explanation for a target byte: scan bit positions
      0 .. 7 and record each position whose digit in the padded binary string is '1'. */
  method HelpSteps(target: Byte) returns (setBits: seq<SetBit>)
    ensures OrderedSteps(setBits, 8)
    ensures forall i :: 0 <= i < 8 ==> (i in Positions(setBits) <==> BitSet(target, i))
    ensures SumValues(setBits) == target
  {
    var binary := BinaryString(target);
    ghost var bits := BitsOf(target, 8);
    HelpDigits(target);
    setBits := [];
    for i := 0 to 8
      invariant Scanned(setBits, bits, i)
    {
      if binary[7 - i] == '1' {
        ScanTake(setBits, bits, i);
        setBits := setBits + [SetBit(i, Pow2(i))];
      } else {
        ScanSkip(setBits, bits, i);
      }
    }
  }
}
