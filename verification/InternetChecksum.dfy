/**
 The two checksum loops of the header library and what they compute on every byte string:
 the arithmetic of sections 1 and 2 of RFC 1071, with the 32-bit accumulator written out.
 */
module InternetChecksum {
  import opened Bytes
  import opened OnesComplement

  /** The 16-bit big-endian words of a byte string, an odd last byte padded with zero. */
  function Words(s: seq<byte>): (ws: seq<uint16>) {
    if |s| == 0 then []
    else if |s| == 1 then [Word16(Big, s[0], 0)]
    else [Word16(Big, s[0], s[1])] + Words(s[2..])
  }

  function Sum(ws: seq<uint16>): nat {
    if ws == [] then 0 else ws[0] as nat + Sum(ws[1..])
  }

  /** The unbounded sum of the words of a byte string. */
  function WordSum(s: seq<byte>): nat {
    Sum(Words(s))
  }

  predicate NoOverflow(c: uint32, s: seq<byte>) {
    c + WordSum(s) < 0x1_0000_0000
  }

  /** The value `Checksum` returns: the sum kept modulo 2^32, then folded; untouched if there is no data. */
  function ChecksumOf(c: uint32, s: seq<byte>): (r: uint32)
    ensures s != [] || c < 0x1_0000 ==> r < 0x1_0000
  {
    if s == [] then c else Fold(Wrap32(c + WordSum(s)))
  }

  /** The sum `csum` forms: native words, and an odd last byte added as it stands. */
  function NativeSum(host: Endian, s: seq<byte>): nat {
    if |s| == 0 then 0
    else if |s| == 1 then s[0]
    else Word16(host, s[0], s[1]) as nat + NativeSum(host, s[2..])
  }

  function CsumOf(host: Endian, s: seq<byte>): uint16 {
    Complement(Fold(NativeSum(host, s)))
  }

  // ----- The two loops

  method Checksum(cksum: uint32, buffer: array?<byte>, offset: nat, size: uint32) returns (r: uint32)
    requires buffer != null ==> offset + size <= buffer.Length
    ensures r == ChecksumOf(cksum, if buffer == null then [] else buffer[offset..offset + size])
  {
    hide Words, Sum, Fold;
    if buffer == null || size == 0 {
      return cksum;
    }
    ghost var s := buffer[offset..offset + size];
    ghost var total := cksum + WordSum(s);
    r := cksum;
    var left, num := size, 0;
    while left > 1
      invariant 0 <= left <= size && num == size - left
      invariant Wrap32(r + WordSum(s[num..])) == Wrap32(total)
    {
      WordSumHead(s[num..]);
      assert s[num..][2..] == s[num + 2..];
      assert s[num] == buffer[offset + num] && s[num + 1] == buffer[offset + num + 1];
      var w := Word16(Big, buffer[offset + num], buffer[offset + num + 1]);
      WrapAdd(r + w, WordSum(s[num + 2..]));
      r := Wrap32(r + w);
      left := left - 2;
      num := num + 2;
    }
    WordSumHead(s[num..]);
    if left > 0 {
      assert s[num] == buffer[offset + num];
      var w := Word16(Big, buffer[offset + num], 0);
      r := Wrap32(r + w);
      num := num + 1;
    }
    assert r == Wrap32(total);
    r := FoldCarries(r);
  }

  /** `unsigned long` is 64 bits wide; the accumulator cannot overflow for any `int` length. */
  method Csum(host: Endian, packet: array<byte>, packlen: int) returns (r: uint16)
    requires -0x8000_0000 <= packlen < 0x8000_0000
    requires packlen <= packet.Length
    ensures r == CsumOf(host, if packlen <= 0 then [] else packet[..packlen])
  {
    hide Fold;
    ghost var s := if packlen <= 0 then [] else packet[..packlen];
    var sum: nat := 0;
    var left, i := packlen, 0;
    while left > 1
      invariant left == packlen - i && 0 <= i <= |s|
      invariant sum <= 0xFFFF * i
      invariant sum + NativeSum(host, s[i..]) == NativeSum(host, s)
    {
      assert s[i..][2..] == s[i + 2..];
      assert s[i] == packet[i] && s[i + 1] == packet[i + 1];
      sum := WrapLong(sum + Word16(host, packet[i], packet[i + 1]));
      left := left - 2;
      i := i + 2;
    }
    if left > 0 {
      sum := WrapLong(sum + packet[i]);
    }
    sum := FoldCarries(sum);
    r := Complement(sum);
  }

  /** Reduction to the 64 bits of an `unsigned long`. */
  function WrapLong(x: nat): (r: nat)
    ensures x < 0x1_0000_0000_0000_0000 ==> r == x
  {
    x % 0x1_0000_0000_0000_0000
  }

  // ----- Word sums

  lemma WordSumHead(s: seq<byte>)
    ensures |s| == 0 ==> WordSum(s) == 0
    ensures |s| == 1 ==> WordSum(s) == Word16(Big, s[0], 0)
    ensures |s| >= 2 ==> WordSum(s) == Word16(Big, s[0], s[1]) as nat + WordSum(s[2..])
  {
    if |s| == 1 {
      assert Words(s)[1..] == [];
      assert Sum(Words(s)[1..]) == 0;
    } else if |s| >= 2 {
      assert Words(s)[1..] == Words(s[2..]);
    }
  }

  lemma WrapAdd(x: nat, y: nat)
    ensures Wrap32(Wrap32(x) + y) == Wrap32(x + y)
  {
    var q := x / 0x1_0000_0000;
    assert x == Wrap32(x) + 0x1_0000_0000 * q;
  }

  lemma {:induction false} WordSumAppend(a: seq<byte>, b: seq<byte>)
    requires |a| % 2 == 0
    ensures WordSum(a + b) == WordSum(a) + WordSum(b)
  {
    hide WordSum;
    WordSumHead(a);
    if a == [] {
      assert a + b == b;
    } else {
      WordSumHead(a + b);
      assert (a + b)[2..] == a[2..] + b;
      WordSumAppend(a[2..], b);
    }
  }

  lemma {:induction false} WordSumBound(s: seq<byte>)
    ensures WordSum(s) <= 0xFFFF * ((|s| + 1) / 2)
  {
    hide WordSum;
    WordSumHead(s);
    if |s| < 2 {
    } else {
      WordSumBound(s[2..]);
    }
  }

  /** Overwriting an aligned word moves the sum by the difference of the two words. */
  lemma WordSumPut(s: seq<byte>, i: nat, v: uint16)
    requires i % 2 == 0 && i + 2 <= |s|
    ensures WordSum(Put16(s, i, v)) + Word16(Big, s[i], s[i + 1]) as nat == WordSum(s) + v as nat
  {
    hide WordSum, Put16;
    var t := Put16(s, i, v);
    assert t[..i] == s[..i] && t[i + 2..] == s[i + 2..];
    assert s == s[..i] + s[i..] && t == s[..i] + t[i..];
    WordSumAppend(s[..i], s[i..]);
    WordSumAppend(s[..i], t[i..]);
    WordSumHead(s[i..]);
    PutReadsBack(s, i, v);
    WordSumHead(t[i..]);
    assert s[i..][2..] == t[i..][2..];
  }

  // ----- The 32-bit accumulator

  /** 65535 * ceil(n / 2) of head room is enough, so 131074 bytes are safe from a zero start. */
  lemma LengthBoundIsSafe(c: uint32, s: seq<byte>)
    requires c + 0xFFFF * ((|s| + 1) / 2) < 0x1_0000_0000
    ensures NoOverflow(c, s)
  {
    WordSumBound(s);
  }

  /** A sum that lost `k` wraps and one that lost `e` fold alike exactly when k and e agree and no wrap left zero. */
  lemma WrapAgainstShortfall(w: nat, e: nat)
    requires w < 0xFFFF * 0x1_0000_0000 && e < 0xFFFF && e <= w && (w == e ==> w == 0)
    ensures Fold(w - e) == Fold(Wrap32(w)) <==> w / 0x1_0000_0000 == e && (Wrap32(w) == 0 ==> w == 0)
  {
    FoldCongruence(w - e, Wrap32(w));
    hide Fold;
    var k := w / 0x1_0000_0000;
    WrapLoses(w);
    AddCongruent(Wrap32(w) + k, w, -k);
    SameRemainder(w, k, e);
  }

  /** 2^32 is 1 modulo 65535, so every wrap of the accumulator loses one. */
  lemma WrapLoses(w: nat)
    ensures (Wrap32(w) + w / 0x1_0000_0000) % 0xFFFF == w % 0xFFFF
  {
    var k := w / 0x1_0000_0000;
    assert w == Wrap32(w) + k + 0xFFFF * (0x1_0001 * k);
    ShiftCongruent(Wrap32(w) + k, 0x1_0001 * k);
  }

  lemma SameRemainder(w: int, k: int, e: int)
    requires 0 <= k < 0xFFFF && 0 <= e < 0xFFFF
    ensures (w - k) % 0xFFFF == (w - e) % 0xFFFF <==> k == e
  {
    if (w - k) % 0xFFFF == (w - e) % 0xFFFF {
      var q := (w - k) / 0xFFFF - (w - e) / 0xFFFF;
      assert e - k == 0xFFFF * q;
    }
  }

  lemma FoldOfWrapped(total: nat)
    requires total < 0xFFFF * 0x1_0000_0000
    ensures Fold(Wrap32(total)) == Fold(total) <==> total < 0x1_0000_0000
  {
    WrapAgainstShortfall(total, 0);
  }

  /**
   The exact range of `Checksum`: for every start value and every buffer its 32-bit size can
   describe, the result is the fold of the true sum if and only if the sum fits 32 bits.
   */
  lemma ChecksumIsExactIffNoOverflow(c: uint32, s: seq<byte>)
    requires s != [] && |s| < 0x1_0000_0000
    ensures ChecksumOf(c, s) == Residue(c + WordSum(s)) <==> NoOverflow(c, s)
  {
    hide Fold, Wrap32, WordSum;
    WordSumBound(s);
    FoldNormalForm(c + WordSum(s));
    FoldOfWrapped(c + WordSum(s));
  }

  lemma {:induction false} AllOnesSum(n: nat)
    ensures WordSum(seq(2 * n, _ => 0xFF)) == 0xFFFF * n
  {
    var s: seq<byte> := seq(2 * n, _ => 0xFF);
    WordSumHead(s);
    if n == 0 {
    } else {
      assert s[2..] == seq(2 * (n - 1), _ => 0xFF);
      AllOnesSum(n - 1);
    }
  }

  /** The bound of 131074 bytes is tight: one more byte of all ones folds to the wrong value. */
  lemma LengthBoundIsTight()
    ensures forall s: seq<byte> :: |s| <= 131074 ==> NoOverflow(0, s)
    ensures var s: seq<byte> := seq(131075, _ => 0xFF); ChecksumOf(0, s) != Residue(WordSum(s))
  {
    forall s: seq<byte> | |s| <= 131074 ensures NoOverflow(0, s) {
      LengthBoundIsSafe(0, s);
    }
    var s: seq<byte> := seq(131075, _ => 0xFF);
    var a: seq<byte> := seq(131074, _ => 0xFF);
    assert s == a + [0xFF];
    WordSumAppend(a, [0xFF]);
    AllOnesSum(65537);
    assert a == seq(2 * 65537, _ => 0xFF);
    WordSumHead([0xFF]);
    ChecksumIsExactIffNoOverflow(0, s);
  }

  lemma {:induction false} ChecksumNoWrap(c: uint32, s: seq<byte>)
    requires s != [] && NoOverflow(c, s)
    ensures ChecksumOf(c, s) == Fold(c + WordSum(s))
  {
    hide WordSum, Fold, Wrap32;
    WrapSmall(c + WordSum(s));
  }

  // ----- Section 2(A) of RFC 1071: grouping and order

  /** A buffer may be summed in pieces, each even-length piece folded before the next. */
  lemma ChecksumInPieces(c: uint32, a: seq<byte>, b: seq<byte>)
    requires |a| % 2 == 0 && NoOverflow(c, a + b)
    ensures ChecksumOf(ChecksumOf(c, a), b) == ChecksumOf(c, a + b)
  {
    hide Fold, Words, Sum;
    WordSumAppend(a, b);
    if a == [] {
      assert a + b == b;
    } else if b == [] {
      assert a + b == a;
    } else {
      ChecksumNoWrap(c, a);
      FoldNoLarger(c + WordSum(a));
      ChecksumNoWrap(c, a + b);
      ChecksumNoWrap(ChecksumOf(c, a), b);
      FoldAbsorbs(c + WordSum(a), WordSum(b));
    }
  }

  /** One byte in front moves every later byte to the other half of its word: a factor of 256. */
  lemma {:induction false} ByteInFront(x: byte, b: seq<byte>)
    ensures WordSum([x] + b) % 0xFFFF == (0x100 * (x as int + WordSum(b))) % 0xFFFF
    ensures WordSum([x] + b) == 0 <==> x == 0 && WordSum(b) == 0
    decreases |b|
  {
    hide WordSum;
    WordSumHead([x] + b);
    WordSumHead(b);
    if |b| == 0 {
    } else if |b| == 1 {
      assert ([x] + b)[2..] == [];
      WordSumHead([]);
      ShiftCongruent(0x100 * (x as int) + b[0] as int, b[0]);
    } else {
      assert ([x] + b)[2..] == [b[1]] + b[2..];
      ByteInFront(b[1], b[2..]);
      PairAfterByte(x, b[0], b[1], WordSum(b[2..]), WordSum([b[1]] + b[2..]));
    }
  }

  lemma PairAfterByte(x: int, y: int, z: int, rest: int, moved: int)
    requires moved % 0xFFFF == (0x100 * (z + rest)) % 0xFFFF
    ensures (0x100 * x + y + moved) % 0xFFFF == (0x100 * (x + (0x100 * y + z + rest))) % 0xFFFF
  {
    AddCongruent(moved, 0x100 * (z + rest), 0x100 * x + y);
    ShiftCongruent(0x100 * x + y + 0x100 * (z + rest), y);
    assert 0x100 * (x + (0x100 * y + z + rest)) == 0x100 * x + y + 0x100 * (z + rest) + 0xFFFF * y;
  }

  lemma {:induction false} OddPieceInFront(a: seq<byte>, b: seq<byte>)
    requires |a| % 2 == 1
    ensures WordSum(a + b) % 0xFFFF == (WordSum(a) + 0x100 * WordSum(b)) % 0xFFFF
    ensures WordSum(a + b) == 0 <==> WordSum(a) + WordSum(b) == 0
    decreases |a|
  {
    hide WordSum;
    WordSumHead(a);
    if |a| == 1 {
      assert a + b == [a[0]] + b;
      ByteInFront(a[0], b);
      assert 0x100 * (a[0] as int + WordSum(b)) == 0x100 * (a[0] as int) + 0x100 * WordSum(b);
    } else {
      WordSumHead(a + b);
      assert (a + b)[2..] == a[2..] + b;
      OddPieceInFront(a[2..], b);
      AddCongruent(WordSum(a[2..] + b), WordSum(a[2..]) + 0x100 * WordSum(b), Word16(Big, a[0], a[1]));
    }
  }

  /** Folded sums of an odd first piece and of the whole agree exactly when the second sums to a multiple of 257. */
  lemma {:induction false} OddPieceFolds(c: nat, a: seq<byte>, b: seq<byte>)
    requires |a| % 2 == 1
    ensures Fold(Fold(c + WordSum(a)) + WordSum(b)) == Fold(c + WordSum(a + b)) <==> WordSum(b) % 257 == 0
  {
    hide WordSum, Fold;
    var x, y := c + WordSum(a), WordSum(b);
    FoldAbsorbs(x, y);
    OddPieceInFront(a, b);
    AddCongruent(WordSum(a + b), WordSum(a) + 0x100 * y, c);
    FoldCongruence(x + y, c + WordSum(a + b));
    ShiftedPieceAgrees(x, y);
  }

  /**
   A first piece of odd length must not be folded on its own: the result is right if and only if the
   second piece sums to a multiple of 257.
   */
  lemma {:induction false} ChecksumInPiecesOdd(c: uint32, a: seq<byte>, b: seq<byte>)
    requires |a| % 2 == 1 && NoOverflow(c, a + b) && c + WordSum(a) + WordSum(b) < 0x1_0000_0000
    ensures ChecksumOf(ChecksumOf(c, a), b) == ChecksumOf(c, a + b) <==> WordSum(b) % 257 == 0
  {
    hide WordSum, Fold;
    WordSumHead(b);
    if b == [] {
      assert a + b == a;
    } else {
      FoldNoLarger(c + WordSum(a));
      ChecksumNoWrap(c, a);
      ChecksumNoWrap(c, a + b);
      ChecksumNoWrap(Fold(c + WordSum(a)), b);
      OddPieceFolds(c, a, b);
    }
  }

  /** The smallest such failure: two single bytes, summed one after the other. */
  lemma ChecksumInPiecesOddWitness()
    ensures ChecksumOf(ChecksumOf(0, [1]), [1]) != ChecksumOf(0, [1] + [1])
  {
    hide ChecksumOf, WordSum;
    LengthBoundIsSafe(0, [1] + [1]);
    WordSumHead([1]);
    ChecksumInPiecesOdd(0, [1], [1]);
  }

  lemma MultipleOf257(y: int)
    ensures (0xFF * y) % 0xFFFF == 0 <==> y % 257 == 0
  {
    var q, r := y / 257, y % 257;
    assert 0xFF * y == 0xFF * r + 0xFFFF * q;
    ShiftCongruent(0xFF * r, q);
  }

  lemma ShiftedPieceAgrees(x: int, y: int)
    ensures (x + y) % 0xFFFF == (x + 0x100 * y) % 0xFFFF <==> y % 257 == 0
  {
    SubCongruent(x + 0x100 * y, x + y);
    MultipleOf257(y);
  }

  lemma {:induction false} SumOfParts(a: seq<uint16>, b: seq<uint16>)
    ensures Sum(a + b) == Sum(a) + Sum(b)
  {
    if a == [] {
      assert a + b == b;
    } else {
      assert (a + b)[1..] == a[1..] + b;
      SumOfParts(a[1..], b);
    }
  }

  lemma {:induction false} SumWithout(ys: seq<uint16>, i: nat)
    requires i < |ys|
    ensures Sum(ys) == ys[i] as nat + Sum(ys[..i] + ys[i + 1..])
  {
    var x, a, b := ys[i], ys[..i], ys[i + 1..];
    assert ys == a + ([x] + b);
    assert ([x] + b)[1..] == b;
    assert Sum([x] + b) == x as nat + Sum(b);
    hide Sum;
    SumOfParts(a, [x] + b);
    SumOfParts(a, b);
  }

  lemma {:induction false} MultisetWithout(ys: seq<uint16>, i: nat)
    requires i < |ys|
    ensures multiset(ys[..i] + ys[i + 1..]) == multiset(ys) - multiset{ys[i]}
  {
    assert ys == ys[..i] + [ys[i]] + ys[i + 1..];
  }

  lemma {:induction false} SumIgnoresOrder(xs: seq<uint16>, ys: seq<uint16>)
    requires multiset(xs) == multiset(ys)
    ensures Sum(xs) == Sum(ys)
  {
    hide Sum;
    assert |xs| == |multiset(xs)| == |multiset(ys)| == |ys|;
    if xs == [] {
      assert ys == [];
    } else {
      assert xs[0] in multiset(ys);
      var i :| 0 <= i < |ys| && ys[i] == xs[0];
      RemoveFirst(xs, ys, i);
      SumWithout(xs, 0);
      assert xs[..0] + xs[1..] == xs[1..];
      SumWithout(ys, i);
      SumIgnoresOrder(xs[1..], ys[..i] + ys[i + 1..]);
    }
  }

  lemma {:induction false} RemoveFirst(xs: seq<uint16>, ys: seq<uint16>, i: nat)
    requires xs != [] && i < |ys| && ys[i] == xs[0] && multiset(xs) == multiset(ys)
    ensures multiset(xs[1..]) == multiset(ys[..i] + ys[i + 1..])
  {
    MultisetWithout(ys, i);
    MultisetOfTail(xs);
  }

  lemma {:induction false} MultisetOfTail(xs: seq<uint16>)
    requires xs != []
    ensures multiset(xs[1..]) == multiset(xs) - multiset{xs[0]}
  {
    assert xs == [xs[0]] + xs[1..];
  }

  /** Only the start value and the bag of words matter, whether or not the accumulator overflows. */
  lemma ChecksumIgnoresWordOrder(c: uint32, s: seq<byte>, t: seq<byte>)
    requires multiset(Words(s)) == multiset(Words(t))
    ensures ChecksumOf(c, s) == ChecksumOf(c, t)
  {
    hide Fold, Wrap32;
    SumIgnoresOrder(Words(s), Words(t));
    assert |Words(s)| == |multiset(Words(s))| == |Words(t)|;
  }

  // ----- Section 2(B) of RFC 1071: byte order

  lemma {:induction false} LittleSumIsTimes256(s: seq<byte>)
    ensures NativeSum(Little, s) % 0xFFFF == (0x100 * WordSum(s)) % 0xFFFF
    ensures NativeSum(Little, s) == 0 <==> WordSum(s) == 0
  {
    hide WordSum, NativeSum, Word16;
    WordSumHead(s);
    LittleSumHead(s);
    if |s| == 0 {
    } else if |s| == 1 {
      ByteTimes256(s[0]);
    } else {
      LittleSumIsTimes256(s[2..]);
      AddTimes256(s[0], s[1], WordSum(s[2..]), NativeSum(Little, s[2..]));
    }
  }

  lemma {:induction false} LittleSumHead(s: seq<byte>)
    ensures |s| == 0 ==> NativeSum(Little, s) == 0
    ensures |s| == 1 ==> NativeSum(Little, s) == s[0]
    ensures |s| >= 2 ==> NativeSum(Little, s) == Word16(Little, s[0], s[1]) as nat + NativeSum(Little, s[2..])
  {
    hide Word16;
  }

  lemma ByteTimes256(b: byte)
    ensures b % 0xFFFF == (0x100 * (Word16(Big, b, 0) as int)) % 0xFFFF
    ensures Word16(Big, b, 0) == 0 <==> b == 0
  {
  }

  lemma AddTimes256(hi: byte, lo: byte, rest: nat, native: nat)
    requires native % 0xFFFF == (0x100 * rest) % 0xFFFF
    ensures (Word16(Little, hi, lo) as int + native) % 0xFFFF
            == (0x100 * (Word16(Big, hi, lo) as int + rest)) % 0xFFFF
    ensures Word16(Little, hi, lo) == 0 <==> Word16(Big, hi, lo) == 0
  {
    var h: int, l: int := hi, lo;
    assert 0x100 * (0x100 * h + l + rest) == (0x100 * l + h + 0x100 * rest) + 0xFFFF * h;
    ShiftCongruent(0x100 * l + h + 0x100 * rest, h);
    AddCongruent(native, 0x100 * rest, 0x100 * l + h);
  }

  /** What a big-endian host loses on an odd last byte by adding it at the low end of its word. */
  function OddShortfall(s: seq<byte>): nat {
    if |s| % 2 == 1 then 0xFF * (s[|s| - 1] as nat) else 0
  }

  lemma {:induction false} BigSumIsWordSum(s: seq<byte>)
    ensures NativeSum(Big, s) + OddShortfall(s) == WordSum(s)
    ensures NativeSum(Big, s) == 0 ==> WordSum(s) == 0
  {
    hide WordSum, Word16;
    WordSumHead(s);
    if |s| == 0 {
      assert NativeSum(Big, s) == 0;
    } else if |s| == 1 {
      HighByte(s[0]);
    } else {
      BigSumIsWordSum(s[2..]);
      assert |s| % 2 == 1 ==> s[2..][|s| - 3] == s[|s| - 1];
    }
  }

  lemma HighByte(b: byte)
    ensures Word16(Big, b, 0) as int == b as int + 0xFF * (b as int)
  {
  }

  lemma SwapOfResidue(x: nat, y: nat)
    requires y % 0xFFFF == (0x100 * x) % 0xFFFF && (y == 0 <==> x == 0)
    ensures Residue(y) == Swap(Residue(x))
  {
    var r := Residue(x);
    SwapIsTimes256(r);
    ResidueOfSmall(r);
    ResidueOfSmall(Swap(r));
    ResidueCongruence(x, r);
    MulCongruent(x, r, 0x100);
    hide Swap, Residue;
    ResidueCongruence(y, Swap(r));
  }

  lemma ResidueOfSmall(w: uint16)
    ensures Residue(w) == w
  {
  }

  lemma SwapOfComplement(x: uint16)
    ensures Swap(Complement(x)) == Complement(Swap(x))
    ensures Swap(Swap(x)) == x
  {
    var h, l := x / 0x100, x % 0x100;
    assert x == Word16(Big, h, l);
    hide Swap, Word16, Complement;
    SwapOfHalves(h, l);
    SwapOfHalves(l, h);
    SwapOfHalves(0xFF - h, 0xFF - l);
  }

  lemma {:induction false} ChecksumOfZeroStart(s: seq<byte>)
    ensures ChecksumOf(0, s) == Fold(Wrap32(WordSum(s)))
    ensures NoOverflow(0, s) ==> ChecksumOf(0, s) == Fold(WordSum(s))
  {
    hide WordSum, Fold;
    if s == [] {
      WordSumHead(s);
      FoldNormalForm(0);
    } else if NoOverflow(0, s) {
      ChecksumNoWrap(0, s);
    }
  }

  /**
   Byte-order independence on a little-endian host: over every byte string an `int` length can
   describe, odd lengths included, `csum` is the byte swap of the complement of `Checksum` if and
   only if the 32-bit accumulator of `Checksum` does not overflow.
   */
  lemma LittleEndianCsum(s: seq<byte>)
    requires |s| < 0x8000_0000
    ensures ChecksumOf(0, s) < 0x1_0000
    ensures CsumOf(Little, s) == Swap(Complement(ChecksumOf(0, s))) <==> NoOverflow(0, s)
  {
    hide Fold, Residue, Swap, WordSum;
    var n, w := NativeSum(Little, s), WordSum(s);
    ChecksumOfZeroStart(s);
    LittleSumIsTimes256(s);
    SwapOfResidue(w, n);
    FoldNormalForm(n);
    FoldNormalForm(w);
    assert Fold(n) == Swap(Fold(w));
    WordSumBound(s);
    FoldOfWrapped(w);
    SwapOfComplement(Fold(w));
    SwapOfComplement(ChecksumOf(0, s));
  }

  /**
   The same call on a big-endian host needs no swap, but adds an odd last byte at the wrong end. Over
   every byte string an `int` length can describe it agrees with `Checksum` if and only if the wraps
   `Checksum` loses equal the shortfall of that byte, and no wrap leaves a zero accumulator.
   */
  lemma BigEndianCsum(s: seq<byte>)
    requires |s| < 0x8000_0000
    ensures ChecksumOf(0, s) < 0x1_0000
    ensures CsumOf(Big, s) == Complement(ChecksumOf(0, s)) <==>
            && WordSum(s) / 0x1_0000_0000 == OddShortfall(s)
            && (Wrap32(WordSum(s)) == 0 ==> WordSum(s) == 0)
  {
    hide Fold, WordSum, Wrap32;
    ChecksumOfZeroStart(s);
    BigSumIsWordSum(s);
    WordSumBound(s);
    WrapAgainstShortfall(WordSum(s), OddShortfall(s));
  }

  /** While the 32-bit sum does not overflow, that means an even length or a last byte of zero. */
  lemma BigEndianCsumInRange(s: seq<byte>)
    requires |s| < 0x8000_0000 && NoOverflow(0, s)
    ensures ChecksumOf(0, s) < 0x1_0000
    ensures CsumOf(Big, s) == Complement(ChecksumOf(0, s)) <==> |s| % 2 == 0 || s[|s| - 1] == 0
  {
    hide WordSum, ChecksumOf, CsumOf;
    BigEndianCsum(s);
  }

  /** One byte is enough to show the difference. */
  lemma BigEndianCsumWitness()
    ensures CsumOf(Big, [1]) != Complement(ChecksumOf(0, [1]))
  {
    hide ChecksumOf, CsumOf;
    LengthBoundIsSafe(0, [1]);
    BigEndianCsumInRange([1]);
  }

  // ----- Known values

  lemma WordSumOfWord(hi: byte, lo: byte)
    ensures WordSum([hi, lo]) == Word16(Big, hi, lo)
  {
    WordSumHead([hi, lo]);
    assert [hi, lo][2..] == [];
  }

  lemma WordSumOfFour(a: byte, b: byte, c: byte, d: byte)
    ensures WordSum([a, b, c, d]) == Word16(Big, a, b) as nat + Word16(Big, c, d) as nat
  {
    hide WordSum;
    WordSumHead([a, b, c, d]);
    assert [a, b, c, d][2..] == [c, d];
    WordSumOfWord(c, d);
  }

  /** The example of section 3 of RFC 1071. */
  lemma Rfc1071Example()
    ensures var s := [0x00, 0x01, 0xF2, 0x03, 0xF4, 0xF5, 0xF6, 0xF7];
            && ChecksumOf(0, s) == 0xDDF2
            && Complement(ChecksumOf(0, s)) == 0x220D
            && CsumOf(Little, s) == 0x0D22
  {
    hide WordSum, ChecksumOf, CsumOf;
    var s := [0x00, 0x01, 0xF2, 0x03, 0xF4, 0xF5, 0xF6, 0xF7];
    WordSumOfFour(0x00, 0x01, 0xF2, 0x03);
    WordSumOfFour(0xF4, 0xF5, 0xF6, 0xF7);
    WordSumAppend([0x00, 0x01, 0xF2, 0x03], [0xF4, 0xF5, 0xF6, 0xF7]);
    assert s == [0x00, 0x01, 0xF2, 0x03] + [0xF4, 0xF5, 0xF6, 0xF7];
    assert WordSum(s) == 0x2_DDF0;
    LengthBoundIsSafe(0, s);
    ChecksumNoWrap(0, s);
    FoldNormalForm(0x2_DDF0);
    LittleEndianCsum(s);
  }
}
