/**
 What the checksum notices. Bit k of a buffer counts 2^(15 - k mod 16) towards the word sum, so any
 sixteen consecutive bits, aligned or straddling two words, carry sixteen different weights: a change
 confined to them moves the sum by at most 65535 and never by nothing.
 */
module ErrorDetection {
  import opened Bytes
  import opened OnesComplement
  import opened InternetChecksum
  import opened Powers

  type bit = b: int | 0 <= b < 2

  // ----- Accumulators that fold alike

  /**
   Sums at most 65535 apart are folded alike by the 32-bit loop exactly when they are equal, or they are
   65535 apart, lost the same number of wraps, and left no accumulator zero.
   */
  ghost predicate FoldAlike(x: nat, y: nat) {
    || x == y
    || (&& (x == y + 0xFFFF || y == x + 0xFFFF)
        && x / 0x1_0000_0000 == y / 0x1_0000_0000
        && Wrap32(x) > 0 && Wrap32(y) > 0)
  }

  lemma WrappedFoldCollision(x: nat, y: nat)
    requires -0xFFFF <= x - y <= 0xFFFF
    ensures Fold(Wrap32(x)) == Fold(Wrap32(y)) <==> FoldAlike(x, y)
  {
    hide Fold;
    FoldCongruence(Wrap32(x), Wrap32(y));
    var p, q := x / 0x1_0000_0000, y / 0x1_0000_0000;
    if p == q {
      NearCongruent(Wrap32(x), Wrap32(y));
    } else if p < q {
      CarryBetween(x, y);
    } else {
      CarryBetween(y, x);
    }
  }

  lemma NearCongruent(u: nat, v: nat)
    requires -0xFFFF <= u - v <= 0xFFFF
    ensures u % 0xFFFF == v % 0xFFFF <==> u == v || u == v + 0xFFFF || v == u + 0xFFFF
  {
    SubCongruent(u, v);
  }

  /** When the larger sum has wrapped once more, the two accumulators never fold alike. */
  lemma CarryBetween(x: nat, y: nat)
    requires x < y <= x + 0xFFFF && x / 0x1_0000_0000 < y / 0x1_0000_0000
    ensures !(Wrap32(x) % 0xFFFF == Wrap32(y) % 0xFFFF && (Wrap32(x) == 0 <==> Wrap32(y) == 0))
  {
    var u, v, d := Wrap32(x), Wrap32(y), y - x;
    assert y / 0x1_0000_0000 == x / 0x1_0000_0000 + 1;
    assert u == v + 0x1_0000_0000 - d;
    if u % 0xFFFF == v % 0xFFFF {
      SubCongruent(u, v);
      assert u - v == (1 - d) + 0xFFFF * 0x1_0001;
      ShiftCongruent(1 - d, 0x1_0001);
      assert (1 - d) % 0xFFFF == 0;
      assert d == 1;
    }
  }

  // ----- Exact detection of a changed word

  /** `s` and `t` have the same words except, perhaps, for the one at `i`. */
  predicate DifferInOneWord(s: seq<byte>, t: seq<byte>, i: nat) {
    && |Words(s)| == |Words(t)|
    && i < |Words(s)|
    && Words(t) == Words(s)[i := Words(t)[i]]
  }

  /**
   Replacing one word is missed if and only if it is no change, or it turns one zero of one's complement
   into the other without another wrap and with neither accumulator zero.
   */
  lemma {:induction false} SingleWordDetection(c: uint32, s: seq<byte>, t: seq<byte>, i: nat)
    requires DifferInOneWord(s, t, i)
    ensures var a, b := Words(s)[i], Words(t)[i];
            ChecksumOf(c, s) == ChecksumOf(c, t) <==>
            || a == b
            || (&& ((a == 0 && b == 0xFFFF) || (a == 0xFFFF && b == 0))
                && (c + WordSum(s)) / 0x1_0000_0000 == (c + WordSum(t)) / 0x1_0000_0000
                && Wrap32(c + WordSum(s)) > 0 && Wrap32(c + WordSum(t)) > 0)
  {
    hide Sum, Fold, Wrap32;
    SumWithout(Words(s), i);
    SumWithout(Words(t), i);
    assert Words(t)[..i] == Words(s)[..i] && Words(t)[i + 1..] == Words(s)[i + 1..];
    assert s != [] && t != [];
    WrappedFoldCollision(c + WordSum(s), c + WordSum(t));
  }

  /** While the sums do not overflow, all that matters is that the starting sum and the other words are not all zero. */
  lemma {:induction false} SingleWordDetectionInRange(c: uint32, s: seq<byte>, t: seq<byte>, i: nat)
    requires DifferInOneWord(s, t, i)
    requires NoOverflow(c, s) && NoOverflow(c, t)
    ensures var a, b := Words(s)[i], Words(t)[i];
            ChecksumOf(c, s) == ChecksumOf(c, t) <==>
            || a == b
            || (((a == 0 && b == 0xFFFF) || (a == 0xFFFF && b == 0)) && c + WordSum(s) - a as int > 0)
  {
    hide Sum, ChecksumOf;
    SingleWordDetection(c, s, t, i);
    SumWithout(Words(s), i);
    SumWithout(Words(t), i);
    assert Words(t)[..i] == Words(s)[..i] && Words(t)[i + 1..] == Words(s)[i + 1..];
  }

  // ----- Binary numbers

  /** The number a bit string denotes, most significant bit first. */
  function Value(bs: seq<bit>): nat {
    if bs == [] then 0 else 2 * Value(bs[..|bs| - 1]) + bs[|bs| - 1] as nat
  }

  /** The `n` low bits of `v`, most significant first. */
  function LowBits(v: nat, n: nat): (bs: seq<bit>)
    ensures |bs| == n
  {
    if n == 0 then [] else LowBits(v / 2, n - 1) + [v % 2]
  }

  /** The bits of a buffer in transmission order. */
  function Bits(s: seq<byte>): (bs: seq<bit>)
    ensures |bs| == 8 * |s|
  {
    if s == [] then [] else LowBits(s[0], 8) + Bits(s[1..])
  }

  lemma {:induction false} ValueOfLowBits(v: nat, n: nat)
    requires v < Pow(2, n)
    ensures Value(LowBits(v, n)) == v
  {
    if n == 0 {
    } else {
      ValueOfLowBits(v / 2, n - 1);
      assert LowBits(v, n)[..n - 1] == LowBits(v / 2, n - 1);
    }
  }

  lemma {:induction false} ValueAppend(a: seq<bit>, b: seq<bit>)
    ensures Value(a + b) == Value(a) * Pow(2, |b|) + Value(b)
  {
    if b == [] {
      assert a + b == a;
    } else {
      var n := |b| - 1;
      assert (a + b)[..|a + b| - 1] == a + b[..n];
      ValueAppend(a, b[..n]);
      DoubleOutside(Value(a), Pow(2, n));
    }
  }

  lemma DoubleOutside(x: int, y: int)
    ensures x * (2 * y) == 2 * (x * y)
  {
  }

  lemma {:induction false} ValueBound(bs: seq<bit>)
    ensures Value(bs) < Pow(2, |bs|)
  {
    if bs == [] {
    } else {
      ValueBound(bs[..|bs| - 1]);
    }
  }

  lemma {:induction false} ValueInjective(a: seq<bit>, b: seq<bit>)
    requires |a| == |b| && Value(a) == Value(b)
    ensures a == b
  {
    if a == [] {
    } else {
      var n := |a| - 1;
      ValueInjective(a[..n], b[..n]);
      assert a == a[..n] + [a[n]] && b == b[..n] + [b[n]];
    }
  }

  predicate AllBits(bs: seq<bit>, v: bit) {
    forall i :: 0 <= i < |bs| ==> bs[i] == v
  }

  lemma {:induction false} ExtremeValues(bs: seq<bit>)
    ensures Value(bs) == 0 <==> AllBits(bs, 0)
    ensures Value(bs) == Pow(2, |bs|) - 1 <==> AllBits(bs, 1)
  {
    if bs == [] {
    } else {
      var n := |bs| - 1;
      ExtremeValues(bs[..n]);
      ValueBound(bs[..n]);
      assert bs == bs[..n] + [bs[n]];
    }
  }

  // ----- The buffer as one number

  /** Whole words of shift do not matter: 2^16 is 1 modulo 65535. */
  lemma {:induction false} WordShift(k: nat)
    ensures Pow(2, 16 * k) % 0xFFFF == 1
  {
    if k == 0 {
    } else {
      WordShift(k - 1);
      PowAdd(2, 16, 16 * (k - 1));
      PowersOfTwo();
      ShiftCongruent(Pow(2, 16 * (k - 1)), Pow(2, 16 * (k - 1)));
    }
  }

  /** The buffer read as one binary number, an odd last byte padded with zero. */
  function Number(s: seq<byte>): nat {
    MulMonotone(0, Value(Bits(s)), Pow(2, 8 * (|s| % 2)));
    Value(Bits(s)) * Pow(2, 8 * (|s| % 2))
  }

  /** The buffer's number is congruent to its word sum. */
  lemma {:induction false} WordSumIsValue(s: seq<byte>)
    ensures WordSum(s) % 0xFFFF == Number(s) % 0xFFFF
  {
    hide WordSum, Value, Pow, Word16;
    if |s| < 2 {
      WordSumOfShort(s);
    } else {
      var rest, odd := s[2..], |s| % 2;
      assert |rest| % 2 == odd;
      WordSumIsValue(rest);
      WordSumHead(s);
      ValueOfTwoBytes(s);
      EvenShift(|rest|, odd);
      AddLeadingWord(Word16(Big, s[0], s[1]), Pow(2, 8 * |rest|), Value(Bits(rest)), Pow(2, 8 * odd), WordSum(rest));
    }
  }

  lemma {:induction false} WordSumOfShort(s: seq<byte>)
    requires |s| < 2
    ensures WordSum(s) == Value(Bits(s)) * Pow(2, 8 * |s|)
  {
    hide WordSum;
    WordSumHead(s);
    if s != [] {
      PowersOfTwo();
      ValueOfLowBits(s[0], 8);
      assert s[1..] == [] && Bits(s) == LowBits(s[0], 8);
    }
  }

  lemma {:induction false} EvenShift(n: nat, odd: nat)
    requires odd == n % 2
    ensures (Pow(2, 8 * n) * Pow(2, 8 * odd)) % 0xFFFF == 1
  {
    hide Pow;
    PowAdd(2, 8 * n, 8 * odd);
    WordShift((n + odd) / 2);
  }

  lemma AddLeadingWord(w: int, far: int, v: int, pad: int, sum: int)
    requires (far * pad) % 0xFFFF == 1
    requires sum % 0xFFFF == (v * pad) % 0xFFFF
    ensures (w + sum) % 0xFFFF == ((w * far + v) * pad) % 0xFFFF
  {
    assert (w * far + v) * pad == w * (far * pad) + v * pad;
    MulCongruent(far * pad, 1, w);
    AddCongruent(w * (far * pad), w, v * pad);
    AddCongruent(sum, v * pad, w);
  }

  lemma {:induction false} ValueOfTwoBytes(s: seq<byte>)
    requires |s| >= 2
    ensures Value(Bits(s)) == Word16(Big, s[0], s[1]) as nat * Pow(2, 8 * |s[2..]|) + Value(Bits(s[2..]))
  {
    hide Value, LowBits, Pow;
    var hi, lo, tail := LowBits(s[0], 8), LowBits(s[1], 8), Bits(s[2..]);
    assert s[1..][1..] == s[2..];
    assert Bits(s) == (hi + lo) + tail;
    ValueAppend(hi + lo, tail);
    ValueAppend(hi, lo);
    PowersOfTwo();
    ValueOfLowBits(s[0], 8);
    ValueOfLowBits(s[1], 8);
  }

  lemma {:induction false} BitsInjective(s: seq<byte>, t: seq<byte>)
    requires |s| == |t| && Bits(s) == Bits(t)
    ensures s == t
  {
    if s == [] {
    } else {
      PowersOfTwo();
      assert LowBits(s[0], 8) == Bits(s)[..8] && LowBits(t[0], 8) == Bits(t)[..8];
      ValueOfLowBits(s[0], 8);
      ValueOfLowBits(t[0], 8);
      assert Bits(s[1..]) == Bits(s)[8..] && Bits(t[1..]) == Bits(t)[8..];
      BitsInjective(s[1..], t[1..]);
      assert s == [s[0]] + s[1..] && t == [t[0]] + t[1..];
    }
  }

  // ----- Weights

  /** What bit `k` of a buffer counts towards its word sum. */
  function Weight(k: nat): (w: nat)
    ensures w > 0
  {
    Pow(2, 15 - k % 16)
  }

  /** The weighted sum of bits that stand at position `k` and after. */
  function BitSum(bs: seq<bit>, k: nat): nat {
    if bs == [] then 0 else BitSum(bs[..|bs| - 1], k) + bs[|bs| - 1] as nat * Weight(k + |bs| - 1)
  }

  lemma {:induction false} BitSumAppend(a: seq<bit>, b: seq<bit>, k: nat)
    ensures BitSum(a + b, k) == BitSum(a, k) + BitSum(b, k + |a|)
  {
    hide Weight;
    if b == [] {
      assert a + b == a;
    } else {
      var n := |b| - 1;
      assert (a + b)[..|a + b| - 1] == a + b[..n];
      BitSumAppend(a, b[..n], k);
    }
  }

  lemma WeightInWord(k: nat, n: nat)
    requires k % 16 + n < 16
    ensures Weight(k + n) == Pow(2, 15 - k % 16 - n)
  {
    assert (k + n) % 16 == k % 16 + n;
  }

  /** Inside one word, `e` places from its end, the weighted sum is the bits' number, shifted to its place. */
  lemma {:induction false} BitSumInWord(bs: seq<bit>, k: nat, e: nat)
    requires k % 16 + |bs| + e == 16
    ensures BitSum(bs, k) == Value(bs) * Pow(2, e)
    decreases |bs|
  {
    hide Weight, Pow;
    if bs == [] {
      assert BitSum(bs, k) == 0 && Value(bs) == 0;
    } else {
      var n := |bs| - 1;
      BitSumInWord(bs[..n], k, e + 1);
      WeightInWord(k, n);
      PowStep(e);
      NextBit(Value(bs[..n]), bs[n], Pow(2, e));
    }
  }

  lemma NextBit(v: int, b: int, p: int)
    ensures v * (2 * p) + b * p == (2 * v + b) * p
  {
  }

  lemma {:induction false} BitSumPeriodic(bs: seq<bit>, k: nat)
    ensures BitSum(bs, k + 16) == BitSum(bs, k)
  {
    if bs == [] {
      assert BitSum(bs, k) == 0;
    } else {
      BitSumPeriodic(bs[..|bs| - 1], k);
      assert (k + 16 + |bs| - 1) % 16 == (k + |bs| - 1) % 16;
    }
  }

  /** The word sum is the sum of the weights of the bits that are set. */
  lemma {:induction false} WordSumIsBitSum(s: seq<byte>)
    ensures WordSum(s) == BitSum(Bits(s), 0)
  {
    hide WordSum, BitSum, Word16;
    WordSumHead(s);
    if s == [] {
      BitSumInWord([], 0, 16);
      assert Value([]) == 0;
    } else if |s| == 1 {
      assert s[1..] == [] && Bits(s) == LowBits(s[0], 8);
      BitSumOfByte(s[0], 0);
      HighByteSum(s[0], 0);
    } else {
      WordSumIsBitSum(s[2..]);
      BitSumOfTwoBytes(s);
      BitSumPeriodic(Bits(s[2..]), 0);
      HighByteSum(s[0], s[1]);
    }
  }

  lemma HighByteSum(hi: byte, lo: byte)
    ensures Word16(Big, hi, lo) as int == 0x100 * (hi as int) + lo as int
  {
  }

  lemma BitSumOfByte(b: byte, k: nat)
    requires k == 0 || k == 8
    ensures BitSum(LowBits(b, 8), k) == if k == 0 then 0x100 * (b as nat) else b
  {
    hide LowBits, Value, BitSum;
    PowersOfTwo();
    ValueOfLowBits(b, 8);
    BitSumInWord(LowBits(b, 8), k, 8 - k);
    assert Pow(2, 0) == 1;
  }

  lemma {:induction false} BitSumOfTwoBytes(s: seq<byte>)
    requires |s| >= 2
    ensures BitSum(Bits(s), 0) == 0x100 * (s[0] as nat) + s[1] as nat + BitSum(Bits(s[2..]), 16)
  {
    hide LowBits, BitSum;
    var hi, lo, tail := LowBits(s[0], 8), LowBits(s[1], 8), Bits(s[2..]);
    assert s[1..][1..] == s[2..];
    assert Bits(s) == (hi + lo) + tail;
    BitSumAppend(hi + lo, tail, 0);
    BitSumAppend(hi, lo, 0);
    BitSumOfByte(s[0], 0);
    BitSumOfByte(s[1], 8);
  }

  lemma {:induction false} BitSumZero(bs: seq<bit>, k: nat)
    ensures BitSum(bs, k) == 0 <==> AllBits(bs, 0)
  {
    hide Weight;
    if bs == [] {
      assert BitSum(bs, k) == 0;
    } else {
      var n := |bs| - 1;
      BitSumZero(bs[..n], k);
      ZeroProduct(bs[n], Weight(k + n));
      assert bs == bs[..n] + [bs[n]];
    }
  }

  /** The checksum is the buffer read as one binary number, in normal form modulo 65535. */
  lemma {:induction false} ChecksumIsNumberModulo(s: seq<byte>)
    requires NoOverflow(0, s)
    ensures ChecksumOf(0, s) == Residue(Number(s))
  {
    hide WordSum, Value, BitSum, Pow, ChecksumOf, Residue, AllBits;
    ChecksumOfZeroStart(s);
    FoldNormalForm(WordSum(s));
    WordSumIsValue(s);
    WordSumIsBitSum(s);
    BitSumZero(Bits(s), 0);
    ExtremeValues(Bits(s));
    ZeroProduct(Value(Bits(s)), Pow(2, 8 * (|s| % 2)));
    ResidueCongruence(WordSum(s), Number(s));
  }

  // ----- Windows of at most sixteen bits

  lemma {:induction false} ZeroOrEqual(a: nat, b: nat)
    requires a <= b
    ensures Pow(2, a) <= Pow(2, b) && (Pow(2, a) == Pow(2, b) <==> a == b)
  {
    if a < b { PowDoubles(a, b); }
  }

  /** A number `v` below `size`, shifted: its range, its extremes, and that it is not confused with another. */
  lemma ShiftedRange(v: nat, size: nat, shift: nat)
    requires v < size && shift > 0
    ensures v * shift <= size * shift - shift
    ensures v * shift == 0 <==> v == 0
    ensures v * shift == size * shift - shift <==> v == size - 1
  {
    ZeroProduct(v, shift);
    ZeroProduct(size - 1 - v, shift);
    MulMonotone(v, size - 1, shift);
    assert (size - 1 - v) * shift == (size - 1) * shift - v * shift;
    assert (size - 1) * shift == size * shift - shift;
  }

  lemma ShiftedInjective(v: nat, u: nat, shift: nat)
    requires v * shift == u * shift && shift > 0
    ensures v == u
  {
    assert (v - u) * shift == v * shift - u * shift;
    ZeroProduct(v - u, shift);
  }

  /** What a window's weighted sum tells: its range, when it is extreme, and the window itself. */
  ghost predicate DeterminesWindow(x: seq<bit>, y: seq<bit>, p: nat) {
    && BitSum(x, p) <= 0xFFFF
    && (BitSum(x, p) == 0 <==> AllBits(x, 0))
    && (BitSum(x, p) == 0xFFFF <==> |x| == 16 && AllBits(x, 1))
    && (BitSum(x, p) == BitSum(y, p) ==> x == y)
  }

  lemma {:induction false} WindowInWord(x: seq<bit>, y: seq<bit>, p: nat)
    requires |x| == |y| && p % 16 + |x| <= 16
    ensures DeterminesWindow(x, y, p)
  {
    hide BitSum, Pow, Value, AllBits;
    var e := 16 - p % 16 - |x|;
    BitSumInWord(x, p, e);
    BitSumInWord(y, p, e);
    ValueBound(x);
    ExtremeValues(x);
    PowAdd(2, |x|, e);
    ZeroOrEqual(|x| + e, 16);
    ZeroOrEqual(0, e);
    PowersOfTwo();
    PowStep(0);
    ShiftedRange(Value(x), Pow(2, |x|), Pow(2, e));
    if BitSum(x, p) == BitSum(y, p) {
      ShiftedInjective(Value(x), Value(y), Pow(2, e));
      ValueInjective(x, y);
    }
  }

  /** Two numbers side by side in sixteen bits. */
  lemma SideBySide(a: nat, b: nat, size: nat, shift: nat)
    requires a < shift && b < size && size * shift == 0x1_0000
    ensures a + b * shift <= 0xFFFF
    ensures a + b * shift == 0 <==> a == 0 && b == 0
    ensures a + b * shift == 0xFFFF <==> a == shift - 1 && b == size - 1
  {
    ShiftedRange(b, size, shift);
  }

  lemma SideBySideInjective(a: nat, b: nat, c: nat, d: nat, shift: nat)
    requires a < shift && c < shift && a + b * shift == c + d * shift
    ensures a == c && b == d
  {
    assert (b - d) * shift == c - a;
    if b > d {
      MulMonotone(1, b - d, shift);
    } else if b < d {
      MulMonotone(1, d - b, shift);
    }
  }

  /** The sum of a window that starts in one word and ends in the next. */
  lemma {:induction false} StraddlingSum(bs: seq<bit>, p: nat)
    requires |bs| <= 16 && p % 16 + |bs| > 16
    ensures var n := 16 - p % 16;
            && BitSum(bs, p) == Value(bs[..n]) + Value(bs[n..]) * Pow(2, 16 - (|bs| - n))
            && Value(bs[..n]) < Pow(2, n)
            && Value(bs[n..]) < Pow(2, |bs| - n)
  {
    hide BitSum, Value, Pow;
    var n := 16 - p % 16;
    assert bs == bs[..n] + bs[n..];
    BitSumAppend(bs[..n], bs[n..], p);
    BitSumInWord(bs[..n], p, 0);
    NextWord(p, n);
    BitSumInWord(bs[n..], p + n, 16 - (|bs| - n));
    PowStep(0);
    ValueBound(bs[..n]);
    ValueBound(bs[n..]);
  }

  lemma NextWord(p: nat, n: nat)
    requires n == 16 - p % 16
    ensures (p + n) % 16 == 0
  {
  }

  lemma {:induction false} AllBitsParts(bs: seq<bit>, n: nat, v: bit)
    requires n <= |bs|
    ensures AllBits(bs, v) <==> AllBits(bs[..n], v) && AllBits(bs[n..], v)
  {
    if AllBits(bs[..n], v) && AllBits(bs[n..], v) {
      forall i | 0 <= i < |bs| ensures bs[i] == v {
        assert bs[i] == if i < n then bs[..n][i] else bs[n..][i - n];
      }
    }
  }

  lemma {:induction false} StraddlingWindow(x: seq<bit>, y: seq<bit>, p: nat)
    requires |x| == |y| <= 16 && p % 16 + |x| > 16
    ensures DeterminesWindow(x, y, p)
  {
    hide BitSum, Pow, Value, AllBits;
    var n := 16 - p % 16;
    var m := |x| - n;
    StraddlingSum(x, p);
    StraddlingSum(y, p);
    ZeroOrEqual(n, 16 - m);
    PowAdd(2, m, 16 - m);
    PowersOfTwo();
    SideBySide(Value(x[..n]), Value(x[n..]), Pow(2, m), Pow(2, 16 - m));
    ExtremeValues(x[..n]);
    ExtremeValues(x[n..]);
    AllBitsParts(x, n, 0);
    AllBitsParts(x, n, 1);
    if BitSum(x, p) == BitSum(y, p) {
      SideBySideInjective(Value(x[..n]), Value(x[n..]), Value(y[..n]), Value(y[n..]), Pow(2, 16 - m));
      ValueInjective(x[..n], y[..n]);
      ValueInjective(x[n..], y[n..]);
      assert x == x[..n] + x[n..] && y == y[..n] + y[n..];
    }
  }

  /** Wherever a window of at most sixteen bits lies, its weighted sum determines it. */
  lemma {:induction false} WindowDetermined(x: seq<bit>, y: seq<bit>, p: nat)
    requires |x| == |y| <= 16
    ensures DeterminesWindow(x, y, p)
  {
    if p % 16 + |x| <= 16 {
      WindowInWord(x, y, p);
    } else {
      StraddlingWindow(x, y, p);
    }
  }

  // ----- Bursts

  /** `s` and `t` differ, and only inside the `w` bits from bit `p` on. */
  predicate Burst(s: seq<byte>, t: seq<byte>, p: nat, w: nat) {
    && |s| == |t| && s != t
    && p + w <= 8 * |s|
    && Bits(s)[..p] == Bits(t)[..p]
    && Bits(s)[p + w..] == Bits(t)[p + w..]
  }

  /** The bits of the burst in one of the two buffers. */
  function Window(s: seq<byte>, p: nat, w: nat): seq<bit>
    requires p + w <= 8 * |s|
  {
    Bits(s)[p..p + w]
  }

  lemma {:induction false} BitSumAroundWindow(bs: seq<bit>, p: nat, w: nat)
    requires p + w <= |bs|
    ensures BitSum(bs, 0) == BitSum(bs[..p], 0) + BitSum(bs[p..p + w], p) + BitSum(bs[p + w..], p + w)
  {
    assert bs == bs[..p + w] + bs[p + w..] && bs[..p + w] == bs[..p] + bs[p..p + w];
    BitSumAppend(bs[..p + w], bs[p + w..], 0);
    BitSumAppend(bs[..p], bs[p..p + w], 0);
  }

  /** A burst moves the word sum by exactly the difference of the windows' sums. */
  lemma {:induction false} BurstMovesSumByWindow(s: seq<byte>, t: seq<byte>, p: nat, w: nat)
    requires Burst(s, t, p, w)
    ensures WordSum(t) - WordSum(s) == BitSum(Window(t, p, w), p) - BitSum(Window(s, p, w), p)
  {
    hide WordSum, BitSum;
    WordSumIsBitSum(s);
    WordSumIsBitSum(t);
    BitSumAroundWindow(Bits(s), p, w);
    BitSumAroundWindow(Bits(t), p, w);
  }

  lemma {:induction false} BurstChangesWindow(s: seq<byte>, t: seq<byte>, p: nat, w: nat)
    requires Burst(s, t, p, w)
    ensures Window(s, p, w) != Window(t, p, w)
  {
    if Window(s, p, w) == Window(t, p, w) {
      assert Bits(s) == Bits(s)[..p] + Window(s, p, w) + Bits(s)[p + w..];
      assert Bits(t) == Bits(t)[..p] + Window(t, p, w) + Bits(t)[p + w..];
      BitsInjective(s, t);
    }
  }

  /** One buffer's window is sixteen zeros and the other's sixteen ones. */
  predicate Inverted(x: seq<bit>, y: seq<bit>) {
    |x| == |y| == 16 && ((AllBits(x, 0) && AllBits(y, 1)) || (AllBits(x, 1) && AllBits(y, 0)))
  }

  /**
   Exact burst detection, for every start value and every pair of buffers: a change confined to at most
   sixteen consecutive bits, straddling two words or not, goes unnoticed if and only if it turns sixteen
   zeros into sixteen ones or back, without another wrap and with neither accumulator zero.
   */
  lemma {:induction false} BurstDetection(c: uint32, s: seq<byte>, t: seq<byte>, p: nat, w: nat)
    requires Burst(s, t, p, w) && w <= 16
    ensures ChecksumOf(c, s) == ChecksumOf(c, t) <==>
            && Inverted(Window(s, p, w), Window(t, p, w))
            && (c + WordSum(s)) / 0x1_0000_0000 == (c + WordSum(t)) / 0x1_0000_0000
            && Wrap32(c + WordSum(s)) > 0 && Wrap32(c + WordSum(t)) > 0
  {
    hide WordSum, Fold, BitSum, AllBits, Wrap32;
    var x, y := Window(s, p, w), Window(t, p, w);
    BurstChangesWindow(s, t, p, w);
    BurstMovesSumByWindow(s, t, p, w);
    WindowDetermined(x, y, p);
    WindowDetermined(y, x, p);
    WrappedFoldCollision(c + WordSum(s), c + WordSum(t));
  }

  /** Every change confined to fifteen consecutive bits is detected, overflow or not. */
  lemma {:induction false} FifteenBitBurstDetected(c: uint32, s: seq<byte>, t: seq<byte>, p: nat, w: nat)
    requires Burst(s, t, p, w) && w <= 15
    ensures ChecksumOf(c, s) != ChecksumOf(c, t)
  {
    hide ChecksumOf, WordSum;
    BurstDetection(c, s, t, p, w);
  }
}
