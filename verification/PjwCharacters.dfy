/**
 Which changes of a string the PJW and ELF hashes notice. The steps are followed bit by bit: adding a
 character reaches at most the next block of 256 words, folding back leaves the middle of the word alone,
 and so two states that were near stay near enough for their difference not to be folded away.
 */
module PjwCharacters {
  import opened XorHash

  /** The low four bits, which decide the next four of the following state. */
  function LowBits(hash: bv32): bv32 {
    hash & 0xF
  }

  /** The four bits above the low ones, into which the top ones are folded. */
  function FoldBits(hash: bv32): bv32 {
    hash & 0xF0
  }

  /** The bits that folding back leaves alone. */
  function KeptBits(hash: bv32): bv32 {
    hash & 0x0FFF_FF0F
  }

  /** The low byte of a word, the word without it, and the next such word. */
  function LowByte(x: bv32): bv32 { x & 0xFF }
  function Block(x: bv32): bv32 { x & 0xFFFF_FF00 }
  function BlockUp(x: bv32): bv32 { x + 0x100 }

  /** The word without its low twelve bits, the next such word, and the last three bits of its number. */
  function Page(x: bv32): bv32 { x & 0xFFFF_F000 }
  function PageUp(x: bv32): bv32 { x + 0x1000 }
  function PageBits(x: bv32): bv32 { x & 0x7000 }

  /** A promoted character of either kind lies in the first or the last 256 words. */
  predicate IsChar(e: bv32) { e <= 0xFF || 0xFFFF_FF00 <= e }

  /** Whether adding the low byte of a character to a low byte carries. */
  predicate Carries(low: bv32, e: bv32) { low + (e & 0xFF) > 0xFF }

  predicate NextBlock(x: bv32, y: bv32) { x == y || x == BlockUp(y) || y == BlockUp(x) }
  predicate NextPage(x: bv32, y: bv32) { x == y || x == PageUp(y) || y == PageUp(x) }
  predicate NearPage(x: bv32, y: bv32) { NextPage(x, y) || x == PageUp(PageUp(y)) || y == PageUp(PageUp(x)) }

  function Settled(x: bv32): bv32 {
    PjwFoldBack(x, TopBits(x))
  }

  /** Folding back what is not there changes nothing, so every step ends with it. */
  lemma StepSettles(hash: bv32, c: bv32)
    ensures PjwStep(hash, c) == Settled(ShiftIn(hash, c))
  {
    hide ShiftIn;
  }

  /** Words that settle alike agree where nothing is folded, and are equal if they agree at either end of the fold. */
  lemma SettledAlike(x: bv32, y: bv32)
    requires Settled(x) == Settled(y)
    ensures KeptBits(x) == KeptBits(y)
    ensures TopBits(x) == TopBits(y) || FoldBits(x) == FoldBits(y) ==> x == y
  {
  }

  /** Up to four pages up, the last three bits of the page number change. */
  lemma PagesUpDiffer(x: bv32)
    ensures PageBits(PageUp(x)) != PageBits(x)
    ensures PageBits(PageUp(PageUp(x))) != PageBits(x)
    ensures PageBits(PageUp(PageUp(PageUp(x)))) != PageBits(x)
    ensures PageBits(PageUp(PageUp(PageUp(PageUp(x))))) != PageBits(x)
  {
  }

  lemma PageUpInjective(x: bv32, y: bv32)
    ensures PageUp(x) == PageUp(y) <==> x == y
  {
  }

  lemma NearPagesEqual(x: bv32, y: bv32, p: bv32)
    requires NearPage(x, p) && NearPage(y, p) && PageBits(x) == PageBits(y)
    ensures x == y
  {
    hide PageUp, PageBits;
    PagesUpDiffer(x);
    PagesUpDiffer(y);
    PageUpInjective(x, y);
    PageUpInjective(PageUp(x), y);
    PageUpInjective(x, PageUp(y));
    PageUpInjective(PageUp(x), PageUp(y));
  }

  lemma TwoPages(x: bv32, y: bv32, z: bv32)
    requires NextPage(x, y) && NextPage(y, z)
    ensures NearPage(x, z)
  {
    hide PageUp;
    PageUpInjective(x, z);
  }

  lemma PageFacts(x: bv32, y: bv32)
    ensures KeptBits(x) == KeptBits(y) ==> PageBits(Page(x)) == PageBits(Page(y))
    ensures Page(x) == Page(y) ==> TopBits(x) == TopBits(y)
  {
  }

  /** Words in pages near the same one settle alike only if they are equal. */
  lemma NearWordsSettleApart(x: bv32, y: bv32, p: bv32)
    requires NearPage(Page(x), p) && NearPage(Page(y), p)
    ensures Settled(x) == Settled(y) <==> x == y
  {
    hide NearPage, Page, PageBits, Settled, KeptBits, TopBits, FoldBits;
    if Settled(x) == Settled(y) {
      SettledAlike(x, y);
      PageFacts(x, y);
      NearPagesEqual(Page(x), Page(y), p);
    }
  }

  lemma WidenIsChar(c: bv8, signedChar: bool)
    ensures IsChar(Widen(c, signedChar))
  {
  }

  /** What adding a character does above the low byte, if it is promoted as it stands and if by its sign. */
  lemma BlockAfterPlain(a: bv32, e: bv32)
    requires e <= 0xFF
    ensures Carries(LowByte(a), e) ==> Block(Plus(a, e)) == BlockUp(Block(a))
    ensures !Carries(LowByte(a), e) ==> Block(Plus(a, e)) == Block(a)
  {
  }

  lemma BlockAfterCarry(a: bv32, e: bv32)
    requires 0xFFFF_FF00 <= e && Carries(LowByte(a), e)
    ensures Block(Plus(a, e)) == Block(a)
  {
  }

  lemma BlockAfterBorrow(a: bv32, e: bv32)
    requires 0xFFFF_FF00 <= e && !Carries(LowByte(a), e)
    ensures BlockUp(Block(Plus(a, e))) == Block(a)
  {
  }

  lemma BlockAfter(a: bv32, e: bv32)
    requires IsChar(e)
    ensures NextBlock(Block(Plus(a, e)), Block(a))
  {
    hide Plus, Block, BlockUp, LowByte, Carries;
    if e <= 0xFF {
      BlockAfterPlain(a, e);
    } else if Carries(LowByte(a), e) {
      BlockAfterCarry(a, e);
    } else {
      BlockAfterBorrow(a, e);
    }
  }

  predicate LastInPage(x: bv32) { x & 0xF00 == 0xF00 }

  lemma PageAfterLast(x: bv32)
    requires LastInPage(x)
    ensures Page(BlockUp(x)) == PageUp(Page(x))
  {
  }

  lemma PageAfterOther(x: bv32)
    requires !LastInPage(x)
    ensures Page(BlockUp(x)) == Page(x)
  {
  }

  lemma PageOfNextBlock(x: bv32)
    ensures NextPage(Page(BlockUp(x)), Page(x))
  {
    hide Page, PageUp, BlockUp, LastInPage;
    if LastInPage(x) {
      PageAfterLast(x);
    } else {
      PageAfterOther(x);
    }
  }

  lemma PageOfBlock(x: bv32)
    ensures Xor32(Page(Block(x)), Page(x)) == 0
  {
  }

  lemma PageAfter(a: bv32, e: bv32)
    requires IsChar(e)
    ensures NextPage(Page(Plus(a, e)), Page(a))
  {
    hide Plus, Page, PageUp, Block, BlockUp, IsChar, Xor32;
    BlockAfter(a, e);
    PageOfBlock(a);
    XorIsZero(Page(Block(a)), Page(a));
    PageOfBlock(Plus(a, e));
    XorIsZero(Page(Block(Plus(a, e))), Page(Plus(a, e)));
    PageOfNextBlock(Block(a));
    PageOfNextBlock(Block(Plus(a, e)));
  }

  lemma LowByteAfter(a: bv32, b: bv32, e: bv32)
    requires LowByte(Plus(a, e)) == LowByte(Plus(b, e))
    ensures LowByte(a) == LowByte(b)
  {
  }

  lemma BlockAndByte(a: bv32, b: bv32)
    requires LowByte(a) == LowByte(b) && Block(a) == Block(b)
    ensures a == b
  {
  }

  lemma BlockUpInjective(a: bv32, b: bv32)
    requires BlockUp(a) == BlockUp(b)
    ensures a == b
  {
  }

  lemma PlusInjective(a: bv32, b: bv32, e: bv32)
    requires IsChar(e) && Plus(a, e) == Plus(b, e)
    ensures a == b
  {
    hide Plus, LowByte, Block, BlockUp, Carries;
    LowByteAfter(a, b, e);
    if e <= 0xFF {
      BlockAfterPlain(a, e);
      BlockAfterPlain(b, e);
      if Carries(LowByte(a), e) {
        BlockUpInjective(Block(a), Block(b));
      }
    } else if Carries(LowByte(a), e) {
      BlockAfterCarry(a, e);
      BlockAfterCarry(b, e);
    } else {
      BlockAfterBorrow(a, e);
      BlockAfterBorrow(b, e);
    }
    BlockAndByte(a, b);
  }

  lemma KeptBitsSettled(x: bv32)
    ensures KeptBits(Settled(x)) == KeptBits(x)
  {
  }

  /** The kept bits above the low byte are the page after the next shift. */
  lemma ShiftedKeptBits(x: bv32)
    ensures Xor32(Page(Shifted(x)), Page(Shifted(KeptBits(x)))) == 0
  {
  }

  lemma ShiftedBlock(x: bv32)
    ensures Xor32(Shifted(Block(x)), Page(Shifted(KeptBits(x)))) == 0
  {
  }

  lemma ShiftedUp(x: bv32)
    ensures Shifted(BlockUp(x)) == PageUp(Shifted(x))
  {
  }

  lemma ShiftInSeparates(h: bv32, c: bv8, d: bv8, signedChar: bool)
    ensures ShiftIn(h, Widen(c, signedChar)) == ShiftIn(h, Widen(d, signedChar)) <==> c == d
  {
  }

  /** A state settled next to another's block, followed by a character: still near one page. */
  lemma SettledStaysNear(x: bv32, block: bv32, e: bv32)
    requires NextBlock(Block(x), block) && IsChar(e)
    ensures NearPage(Page(ShiftIn(Settled(x), e)), Shifted(block))
  {
    hide Block, BlockUp, Page, PageUp, Settled, Shifted, Plus, KeptBits, IsChar, Xor32;
    PageAfter(Shifted(Settled(x)), e);
    KeptBitsSettled(x);
    ShiftedKeptBits(Settled(x));
    ShiftedBlock(x);
    XorIsZero(Page(Shifted(Settled(x))), Page(Shifted(KeptBits(x))));
    XorIsZero(Shifted(Block(x)), Page(Shifted(KeptBits(x))));
    ShiftedUp(Block(x));
    ShiftedUp(block);
    TwoPages(Page(ShiftIn(Settled(x), e)), Shifted(Block(x)), Shifted(block));
  }

  lemma ShiftedInjective(g: bv32, h: bv32)
    requires TopBits(g) == 0 && TopBits(h) == 0
    ensures Shifted(g) == Shifted(h) <==> g == h
  {
  }

  lemma ShiftInInjective(g: bv32, h: bv32, e: bv32)
    requires TopBits(g) == 0 && TopBits(h) == 0 && IsChar(e)
    ensures ShiftIn(g, e) == ShiftIn(h, e) <==> g == h
  {
    hide Shifted, Plus, TopBits, IsChar;
    if ShiftIn(g, e) == ShiftIn(h, e) {
      PlusInjective(Shifted(g), Shifted(h), e);
    }
    ShiftedInjective(g, h);
  }

  lemma LowBitsShiftedIn(g: bv32, h: bv32, e: bv32)
    requires LowBits(g) == LowBits(h)
    ensures FoldBits(ShiftIn(g, e)) == FoldBits(ShiftIn(h, e))
  {
  }

  lemma LowBitsOfStep(g: bv32, h: bv32, e: bv32)
    ensures LowBits(PjwStep(g, e)) == LowBits(PjwStep(h, e))
  {
    hide PjwStep, Settled, ShiftIn, LowBits;
    StepSettles(g, e);
    StepSettles(h, e);
    LowBitsSettled(ShiftIn(g, e));
    LowBitsSettled(ShiftIn(h, e));
    LowBitsOfShiftIn(g, h, e);
  }

  lemma LowBitsSettled(x: bv32)
    ensures LowBits(Settled(x)) == LowBits(x)
  {
  }

  lemma LowBitsOfShiftIn(g: bv32, h: bv32, e: bv32)
    ensures LowBits(ShiftIn(g, e)) == LowBits(ShiftIn(h, e))
  {
  }

  /** Distinct characters lead from one state to distinct states, which one common character keeps distinct. */
  lemma StepsSeparate(h: bv32, c: bv8, d: bv8, e: bv8, signedChar: bool)
    ensures var x, y := PjwStep(h, Widen(c, signedChar)), PjwStep(h, Widen(d, signedChar));
            && (x == y <==> c == d)
            && (PjwStep(x, Widen(e, signedChar)) == PjwStep(y, Widen(e, signedChar)) <==> c == d)
  {
    hide PjwStep, Settled, Shifted, Plus, Widen, Page, Block, NearPage, NextPage, NextBlock, TopBits, IsChar;
    var c', d', e' := Widen(c, signedChar), Widen(d, signedChar), Widen(e, signedChar);
    WidenIsChar(c, signedChar);
    WidenIsChar(d, signedChar);
    WidenIsChar(e, signedChar);
    var a, x, y := Shifted(h), ShiftIn(h, c'), ShiftIn(h, d');
    StepSettles(h, c');
    StepSettles(h, d');
    ShiftInSeparates(h, c, d, signedChar);
    PageAfter(a, c');
    PageAfter(a, d');
    NextIsNear(Page(x), Page(a));
    NextIsNear(Page(y), Page(a));
    NearWordsSettleApart(x, y, Page(a));
    StepSettles(Settled(x), e');
    StepSettles(Settled(y), e');
    BlockAfter(a, c');
    BlockAfter(a, d');
    SettledStaysNear(x, Block(a), e');
    SettledStaysNear(y, Block(a), e');
    NearWordsSettleApart(ShiftIn(Settled(x), e'), ShiftIn(Settled(y), e'), Shifted(Block(a)));
    SettledClear(x);
    SettledClear(y);
    ShiftInInjective(Settled(x), Settled(y), e');
  }

  lemma SettledClear(x: bv32)
    ensures TopBits(Settled(x)) == 0
  {
    hide TopBits, PjwFoldBack;
    FoldBackClears(x, TopBits(x));
  }

  lemma NextIsNear(x: bv32, y: bv32)
    requires NextPage(x, y)
    ensures NearPage(x, y)
  {
  }

  /** States that share their low four bits stay distinct under a common character. */
  lemma StepKeepsApart(g: bv32, h: bv32, e: bv32)
    requires TopBits(g) == 0 && TopBits(h) == 0 && LowBits(g) == LowBits(h) && IsChar(e)
    ensures PjwStep(g, e) == PjwStep(h, e) <==> g == h
  {
    hide PjwStep, Settled, ShiftIn, TopBits, LowBits, FoldBits, KeptBits, IsChar;
    StepSettles(g, e);
    StepSettles(h, e);
    LowBitsShiftedIn(g, h, e);
    ShiftInInjective(g, h, e);
    if PjwStep(g, e) == PjwStep(h, e) {
      SettledAlike(ShiftIn(g, e), ShiftIn(h, e));
    }
  }

  /** A common tail keeps states that share their low four bits distinct, and keeps those bits shared. */
  lemma {:induction false} CommonTail(s: seq<bv8>, t: seq<bv8>, u: seq<bv8>, signedChar: bool)
    requires LowBits(PjwRaw(s, signedChar)) == LowBits(PjwRaw(t, signedChar))
    ensures LowBits(PjwRaw(s + u, signedChar)) == LowBits(PjwRaw(t + u, signedChar))
    ensures PjwRaw(s + u, signedChar) == PjwRaw(t + u, signedChar) <==> PjwRaw(s, signedChar) == PjwRaw(t, signedChar)
    decreases |u|
  {
    hide Widen, PjwStep, LowBits, TopBits, IsChar;
    if u == [] {
      assert s + u == s && t + u == t;
    } else {
      var n := |u| - 1;
      assert (s + u)[..|s| + n] == s + u[..n] && (t + u)[..|t| + n] == t + u[..n];
      CommonTail(s, t, u[..n], signedChar);
      TopBitsClear(s + u[..n], signedChar);
      TopBitsClear(t + u[..n], signedChar);
      var g, h := PjwRaw(s + u[..n], signedChar), PjwRaw(t + u[..n], signedChar);
      LowBitsOfStep(g, h, Widen(u[n], signedChar));
      WidenIsChar(u[n], signedChar);
      StepKeepsApart(g, h, Widen(u[n], signedChar));
    }
  }

  lemma {:induction false} NextCharacter(s: seq<bv8>, c: bv8, signedChar: bool)
    ensures PjwRaw(s + [c], signedChar) == PjwStep(PjwRaw(s, signedChar), Widen(c, signedChar))
  {
    hide PjwStep, Widen;
    assert (s + [c])[..|s|] == s;
  }

  /** Strings that differ in exactly one character never share a raw PJW state. */
  lemma {:induction false} OneCharacterChanges(s: seq<bv8>, i: nat, c: bv8, signedChar: bool)
    requires i < |s| && c != s[i]
    ensures PjwRaw(s, signedChar) != PjwRaw(s[i := c], signedChar)
  {
    hide Widen, PjwStep, LowBits, PjwRaw;
    var before, after := s[..i], s[i + 1..];
    var p, q := before + [s[i]], before + [c];
    NextCharacter(before, s[i], signedChar);
    NextCharacter(before, c, signedChar);
    var h := PjwRaw(before, signedChar);
    if after == [] {
      assert s == p && s[i := c] == q;
      StepsSeparate(h, s[i], c, 0, signedChar);
    } else {
      var e := after[0];
      assert s == p + [e] + after[1..] && s[i := c] == q + [e] + after[1..];
      NextCharacter(p, e, signedChar);
      NextCharacter(q, e, signedChar);
      StepsSeparate(h, s[i], c, e, signedChar);
      LowBitsOfStep(PjwRaw(p, signedChar), PjwRaw(q, signedChar), Widen(e, signedChar));
      CommonTail(p + [e], q + [e], after[1..], signedChar);
    }
  }

  lemma {:induction false} SixCharacters(a: bv8, b: bv8, c: bv8, d: bv8, e: bv8, f: bv8, signedChar: bool)
    ensures PjwRaw([a, b, c, d, e, f], signedChar)
            == PjwStep(PjwStep(PjwStep(PjwStep(PjwStep(PjwStep(0,
                 Widen(a, signedChar)), Widen(b, signedChar)), Widen(c, signedChar)),
                 Widen(d, signedChar)), Widen(e, signedChar)), Widen(f, signedChar))
  {
    hide PjwStep, Widen;
    NextCharacter([], a, signedChar);
    assert [] + [a] == [a];
    NextCharacter([a], b, signedChar);
    assert [a] + [b] == [a, b];
    NextCharacter([a, b], c, signedChar);
    assert [a, b] + [c] == [a, b, c];
    NextCharacter([a, b, c], d, signedChar);
    assert [a, b, c] + [d] == [a, b, c, d];
    NextCharacter([a, b, c, d], e, signedChar);
    assert [a, b, c, d] + [e] == [a, b, c, d, e];
    NextCharacter([a, b, c, d, e], f, signedChar);
    assert [a, b, c, d, e] + [f] == [a, b, c, d, e, f];
  }

  /** Two changed characters can cancel: the first reaches the top bits as the second is folded over. */
  lemma TwoCharactersWitness(signedChar: bool)
    ensures PjwRaw([0x11, 1, 1, 1, 1, 3] + [1], signedChar) == PjwRaw([1, 1, 1, 1, 1, 2] + [1], signedChar)
  {
    NextCharacter([0x11, 1, 1, 1, 1, 3], 1, signedChar);
    NextCharacter([1, 1, 1, 1, 1, 2], 1, signedChar);
    hide PjwRaw;
    SixCharacters(0x11, 1, 1, 1, 1, 3, signedChar);
    SixCharacters(1, 1, 1, 1, 1, 2, signedChar);
  }
}
