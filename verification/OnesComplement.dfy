/**
 Sixteen-bit one's complement arithmetic: the end-around-carry fold that both checksum loops
 share, and its normal form modulo 65535 with two representations of zero.
 */
module OnesComplement {
  import opened Bytes

  /** One pass of the fold loop. */
  function FoldRound(x: nat): nat {
    x % 0x1_0000 + x / 0x1_0000
  }

  /** Carries above the low sixteen bits are added back in until none is left. */
  function Fold(x: nat): uint16 {
    if x < 0x1_0000 then x else Fold(FoldRound(x))
  }

  /** The fold loop that ends both checksum functions. */
  method FoldCarries(x: nat) returns (r: uint16)
    ensures r == Fold(x)
  {
    var sum := x;
    while sum / 0x1_0000 != 0
      invariant 0 <= sum && Fold(sum) == Fold(x)
      decreases sum
    {
      sum := sum % 0x1_0000 + sum / 0x1_0000;
    }
    r := sum;
  }

  /** The normal form: zero only for zero, otherwise the residue in 1..65535. */
  function Residue(x: nat): uint16 {
    if x == 0 then 0 else (x - 1) % 0xFFFF + 1
  }

  function Complement(x: uint16): uint16 {
    0xFFFF - x
  }

  /** Residues coincide exactly when the numbers are congruent and agree on being zero. */
  lemma ResidueCongruence(x: nat, y: nat)
    ensures Residue(x) == Residue(y) <==> x % 0xFFFF == y % 0xFFFF && (x == 0 <==> y == 0)
  {
    if x != 0 { ResidueIsCongruent(x); }
    if y != 0 { ResidueIsCongruent(y); }
  }

  lemma ResidueIsCongruent(x: nat)
    requires x != 0
    ensures Residue(x) == if x % 0xFFFF == 0 then 0xFFFF else x % 0xFFFF
  {
    var q, r := x / 0xFFFF, x % 0xFFFF;
    assert x == 0xFFFF * q + r;
    if r == 0 {
      assert x - 1 == 0xFFFF * (q - 1) + 0xFFFE;
    } else {
      assert x - 1 == 0xFFFF * q + (r - 1);
    }
  }

  lemma ShiftCongruent(x: int, k: int)
    ensures (x + 0xFFFF * k) % 0xFFFF == x % 0xFFFF
  {
  }

  lemma AddCongruent(a: int, b: int, y: int)
    requires a % 0xFFFF == b % 0xFFFF
    ensures (a + y) % 0xFFFF == (b + y) % 0xFFFF
  {
    var k := a / 0xFFFF - b / 0xFFFF;
    assert a == b + 0xFFFF * k;
    ShiftCongruent(b + y, k);
  }

  lemma SubCongruent(a: int, b: int)
    ensures a % 0xFFFF == b % 0xFFFF <==> (a - b) % 0xFFFF == 0
  {
    var k := a / 0xFFFF - b / 0xFFFF;
    assert a - b == 0xFFFF * k + (a % 0xFFFF - b % 0xFFFF);
  }

  lemma MulCongruent(a: int, b: int, m: int)
    requires a % 0xFFFF == b % 0xFFFF
    ensures (m * a) % 0xFFFF == (m * b) % 0xFFFF
  {
    var k := a / 0xFFFF - b / 0xFFFF;
    assert a == b + 0xFFFF * k;
    assert m * a == m * b + 0xFFFF * (m * k);
    ShiftCongruent(m * b, m * k);
  }

  lemma FoldRoundCongruent(x: nat)
    ensures FoldRound(x) % 0xFFFF == x % 0xFFFF
    ensures FoldRound(x) == 0 <==> x == 0
    ensures x >= 0x1_0000 ==> FoldRound(x) < x
  {
    assert FoldRound(x) == x - 0xFFFF * (x / 0x1_0000);
  }

  /** The fold loop, run on a number of any size, ends in the normal form. */
  lemma {:induction false} FoldNormalForm(x: nat)
    ensures Fold(x) == Residue(x)
    decreases x
  {
    if x < 0x1_0000 {
    } else {
      FoldRoundCongruent(x);
      FoldNormalForm(FoldRound(x));
      ResidueCongruence(FoldRound(x), x);
    }
  }

  /** Folds coincide exactly when the numbers are congruent and agree on being zero. */
  lemma FoldCongruence(x: nat, y: nat)
    ensures Fold(x) == Fold(y) <==> x % 0xFFFF == y % 0xFFFF && (x == 0 <==> y == 0)
  {
    hide Fold, Residue;
    FoldNormalForm(x);
    FoldNormalForm(y);
    ResidueCongruence(x, y);
  }

  /** Two passes are enough for a 32-bit accumulator, and sometimes two are needed. */
  lemma FoldTwoRounds(x: uint32)
    ensures Fold(x) == FoldRound(FoldRound(x))
    ensures FoldRound(FoldRound(0x1_FFFF)) == Fold(0x1_FFFF) != FoldRound(0x1_FFFF)
  {
    var y := FoldRound(x);
    assert y <= 0x1_FFFE;
    assert FoldRound(y) < 0x1_0000;
    FoldNormalForm(x);
    FoldRoundCongruent(x);
    FoldRoundCongruent(y);
    FoldNormalForm(FoldRound(y));
    ResidueCongruence(FoldRound(y), x);
    FoldNormalForm(0x1_FFFF);
  }

  /** Folding early does not change what is folded later. */
  lemma FoldAbsorbs(x: nat, y: nat)
    ensures Fold(Fold(x) + y) == Fold(x + y)
  {
    hide Fold;
    FoldNormalForm(x);
    FoldIsCongruent(x);
    AddCongruent(Fold(x), x, y);
    FoldCongruence(Fold(x) + y, x + y);
  }

  lemma FoldNoLarger(x: nat)
    ensures Fold(x) <= x
  {
  }

  lemma FoldIsCongruent(x: nat)
    ensures Fold(x) % 0xFFFF == x % 0xFFFF
  {
    FoldNormalForm(x);
    if x != 0 { ResidueIsCongruent(x); }
  }

  /** A positive sum folds to all ones exactly when it is a multiple of 65535. */
  lemma FoldIsAllOnes(x: nat)
    requires x > 0
    ensures Fold(x) == 0xFFFF <==> x % 0xFFFF == 0
  {
    hide Fold;
    FoldNormalForm(x);
    ResidueIsCongruent(x);
  }

  /** A sum together with the complement of its fold always folds to all ones. */
  lemma FoldWithComplement(x: nat)
    ensures Fold(x + Complement(Fold(x))) == 0xFFFF
  {
    FoldNoLarger(x);
    hide Fold;
    FoldIsCongruent(x);
    SubCongruent(x, Fold(x));
    AddCongruent(x - Fold(x), 0, 0xFFFF);
    FoldIsAllOnes(x + Complement(Fold(x)));
  }

  lemma SwapOfHalves(h: byte, l: byte)
    ensures Swap(Word16(Big, h, l)) == Word16(Big, l, h)
    ensures Complement(Word16(Big, h, l)) == Word16(Big, 0xFF - h, 0xFF - l)
  {
  }

  /** Exchanging halves multiplies by 256 modulo 65535. */
  lemma SwapIsTimes256(w: uint16)
    ensures Swap(w) % 0xFFFF == (0x100 * w) % 0xFFFF
    ensures Swap(w) == 0 <==> w == 0
    ensures Swap(Swap(w)) == w
  {
    var h, l := w / 0x100, w % 0x100;
    assert w == Word16(Big, h, l);
    hide Swap;
    SwapOfHalves(h, l);
    SwapOfHalves(l, h);
    ShiftCongruent(Word16(Big, l, h), h);
  }
}
