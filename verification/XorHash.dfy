/** The string hashes built from shifts and exclusive or: PJW, ELF and AP, on 32-bit words. */
module XorHash {

  import opened CStrings

  /** The promoted value of a `char`, converted to `unsigned int`. */
  function Widen(c: bv8, signedChar: bool): bv32 {
    if signedChar && c & 0x80 != 0 then 0xFFFF_FF00 | (c as bv32) else c as bv32
  }

  /** A plain `char` widens to its byte; a negative one lies 256 below it, around the word. */
  lemma WidenMeaning(c: bv8)
    ensures Widen(c, false) == c as bv32
    ensures c < 0x80 ==> Widen(c, true) == c as bv32
    ensures c >= 0x80 ==> Widen(c, true) + 0x100 == c as bv32
  {
  }

  // ----- PJW and ELF

  function Shifted(hash: bv32): bv32 {
    hash << 4
  }

  function Plus(a: bv32, b: bv32): bv32 {
    a + b
  }

  /** `(hash << 4) + c` */
  function ShiftIn(hash: bv32, c: bv32): bv32 {
    Plus(Shifted(hash), c)
  }

  /** `hash & 0xF0000000`; for PJW the mask is computed from the width of `unsigned int`. */
  function TopBits(hash: bv32): bv32 {
    hash & 0xF000_0000
  }

  /** `hash ^ (top >> 24)` */
  function FoldIn(hash: bv32, top: bv32): bv32 {
    hash ^ (top >> 24)
  }

  /** `hash & ~0xF0000000` */
  function ClearMask(hash: bv32): bv32 {
    hash & 0x0FFF_FFFF
  }

  /** `hash & ~x` */
  function ClearBits(hash: bv32, x: bv32): bv32 {
    hash & !x
  }

  /** PJW folds the top bits back in and clears the whole mask. */
  function PjwFoldBack(hash: bv32, test: bv32): bv32 {
    ClearMask(FoldIn(hash, test))
  }

  /** ELF folds the top bits back in and clears only the bits that were set. */
  function ElfFoldBack(hash: bv32, x: bv32): bv32 {
    ClearBits(FoldIn(hash, x), x)
  }

  function PjwStep(hash: bv32, c: bv32): bv32 {
    var h := ShiftIn(hash, c);
    if TopBits(h) != 0 then PjwFoldBack(h, TopBits(h)) else h
  }

  /** The state of PJW after a string. */
  function PjwRaw(s: seq<bv8>, signedChar: bool): bv32 {
    if s == [] then 0 else PjwStep(PjwRaw(s[..|s| - 1], signedChar), Widen(s[|s| - 1], signedChar))
  }

  method PjwHash(str: CString, signedChar: bool) returns (r: nat)
    ensures r == PjwRaw(str, signedChar) as int % TABLE_SIZE
    ensures r < TABLE_SIZE
    ensures IsOneAscii(str) ==> r == str[0] as int
    ensures TopBits(PjwRaw(str, signedChar)) == 0
  {
    hide Widen, ShiftIn, TopBits, PjwFoldBack, IsOneAscii;
    var hash: bv32 := 0;
    for i := 0 to |str|
      invariant hash == PjwRaw(str[..i], signedChar)
    {
      assert str[..i + 1][..i] == str[..i];
      hash := ShiftIn(hash, Widen(str[i], signedChar));
      var test := TopBits(hash);
      if test != 0 {
        hash := PjwFoldBack(hash, test);
      }
    }
    assert str[..|str|] == str;
    TopBitsClear(str, signedChar);
    OneCharacter(str, signedChar);
    r := hash as int % TABLE_SIZE;
  }

  /** ELF returns what PJW returns, for every string and either kind of `char`. */
  method ElfHash(str: CString, signedChar: bool) returns (r: nat)
    ensures r == PjwRaw(str, signedChar) as int % TABLE_SIZE
    ensures r < TABLE_SIZE
    ensures IsOneAscii(str) ==> r == str[0] as int
    ensures TopBits(PjwRaw(str, signedChar)) == 0
  {
    hide Widen, ShiftIn, TopBits, PjwFoldBack, ElfFoldBack, IsOneAscii;
    var hash: bv32 := 0;
    for i := 0 to |str|
      invariant hash == PjwRaw(str[..i], signedChar)
    {
      assert str[..i + 1][..i] == str[..i];
      hash := ShiftIn(hash, Widen(str[i], signedChar));
      FoldBacksAgree(hash);
      var x := TopBits(hash);
      if x != 0 {
        hash := ElfFoldBack(hash, x);
      }
    }
    assert str[..|str|] == str;
    TopBitsClear(str, signedChar);
    OneCharacter(str, signedChar);
    r := hash as int % TABLE_SIZE;
  }

  lemma FoldBacksAgree(h: bv32)
    ensures ElfFoldBack(h, TopBits(h)) == PjwFoldBack(h, TopBits(h))
  {
    hide TopBits, FoldIn, ClearMask, ClearBits;
    TopBitsKept(h);
    ClearingTopBits(FoldIn(h, TopBits(h)));
  }

  lemma TopBitsKept(h: bv32)
    ensures TopBits(FoldIn(h, TopBits(h))) == TopBits(h)
  {
  }

  lemma ClearingTopBits(y: bv32)
    ensures ClearBits(y, TopBits(y)) == ClearMask(y)
  {
  }

  /** The top four bits of the state are clear after every character. */
  lemma {:induction false} TopBitsClear(s: seq<bv8>, signedChar: bool)
    ensures TopBits(PjwRaw(s, signedChar)) == 0
  {
    if s == [] {
      assert TopBits(0) == 0;
    } else {
      hide Widen, ShiftIn, TopBits, PjwFoldBack;
      var h := ShiftIn(PjwRaw(s[..|s| - 1], signedChar), Widen(s[|s| - 1], signedChar));
      FoldBackClears(h, TopBits(h));
    }
  }

  lemma FoldBackClears(h: bv32, test: bv32)
    ensures TopBits(PjwFoldBack(h, test)) == 0
  {
    hide TopBits, FoldIn, ClearMask;
    MaskCleared(FoldIn(h, test));
  }

  lemma MaskCleared(y: bv32)
    ensures TopBits(ClearMask(y)) == 0
  {
  }

  // ----- Exclusive or as an algebra

  function Xor32(a: bv32, b: bv32): bv32 { a ^ b }
  function Not32(a: bv32): bv32 { !a }
  function Left7(a: bv32): bv32 { a << 7 }
  function Right3(a: bv32): bv32 { a >> 3 }
  function Left11(a: bv32): bv32 { a << 11 }
  function Right5(a: bv32): bv32 { a >> 5 }

  lemma Commutes(a: bv32, b: bv32)
    ensures Xor32(a, b) == Xor32(b, a)
  {
  }

  lemma BitsAssociate(a: bv32, b: bv32, c: bv32, p: bv32, q: bv32)
    requires p == a ^ b && q == b ^ c
    ensures p ^ c == a ^ q
  {
  }

  lemma Associates(a: bv32, b: bv32, c: bv32)
    ensures Xor32(Xor32(a, b), c) == Xor32(a, Xor32(b, c))
  {
    BitsAssociate(a, b, c, Xor32(a, b), Xor32(b, c));
  }

  lemma SelfInverse(a: bv32)
    ensures Xor32(a, a) == 0 && Xor32(a, 0) == a
  {
  }

  lemma NotMovesOutRight(a: bv32, b: bv32)
    ensures Xor32(a, Not32(b)) == Not32(Xor32(a, b))
  {
    BitsNotMovesOut(a, b, Not32(b), Xor32(a, b));
  }

  lemma NotMovesOutLeft(a: bv32, b: bv32)
    ensures Xor32(Not32(a), b) == Not32(Xor32(a, b))
  {
    hide Xor32, Not32;
    NotMovesOutRight(b, a);
    Commutes(a, b);
    Commutes(b, Not32(a));
  }

  lemma BitsNotMovesOut(a: bv32, b: bv32, p: bv32, q: bv32)
    requires p == !b && q == a ^ b
    ensures a ^ p == !q
  {
  }

  lemma NotTwice(a: bv32)
    ensures Not32(Not32(a)) == a
  {
  }

  lemma Medial(a: bv32, b: bv32, c: bv32, d: bv32)
    ensures Xor32(Xor32(a, b), Xor32(c, d)) == Xor32(Xor32(a, c), Xor32(b, d))
  {
    hide Xor32;
    Associates(a, b, Xor32(c, d));
    Associates(b, c, d);
    Commutes(b, c);
    Associates(c, b, d);
    Associates(a, c, Xor32(b, d));
  }

  lemma LeftShiftsLinear(a: bv32, b: bv32)
    ensures Left7(Xor32(a, b)) == Xor32(Left7(a), Left7(b))
    ensures Left11(Xor32(a, b)) == Xor32(Left11(a), Left11(b))
  {
  }

  lemma RightShiftsLinear(a: bv32, b: bv32)
    ensures Right3(Xor32(a, b)) == Xor32(Right3(a), Right3(b))
    ensures Right5(Xor32(a, b)) == Xor32(Right5(a), Right5(b))
  {
  }

  /** Exclusive or of bytes. */
  function Xor8(a: bv8, b: bv8): bv8 { a ^ b }

  lemma WidenLinear(a: bv8, b: bv8, signedChar: bool)
    ensures Widen(Xor8(a, b), signedChar) == Xor32(Widen(a, signedChar), Widen(b, signedChar))
  {
    hide Xor8, Xor32, Widen, SignSet, Extended;
    SignOfXor(a, b, Xor8(a, b));
    WidenValue(a, signedChar);
    WidenValue(b, signedChar);
    WidenValue(Xor8(a, b), signedChar);
    if Negative(a, signedChar) && Negative(b, signedChar) {
      ExtendBoth(a, b, Xor8(a, b), Extended(a), Extended(b));
    } else if Negative(a, signedChar) {
      ExtendOne(a, b, Xor8(a, b), Extended(a));
    } else if Negative(b, signedChar) {
      Commutes(Extended(b), a as bv32);
      Commutes8(a, b);
      ExtendOne(b, a, Xor8(a, b), Extended(b));
    } else {
      ExtendNone(a, b, Xor8(a, b));
    }
  }

  predicate Negative(c: bv8, signedChar: bool) { signedChar && SignSet(c) }
  predicate SignSet(c: bv8) { c & 0x80 != 0 }
  function Extended(c: bv8): bv32 { 0xFFFF_FF00 | (c as bv32) }

  lemma WidenValue(c: bv8, signedChar: bool)
    ensures Widen(c, signedChar) == if Negative(c, signedChar) then Extended(c) else c as bv32
  {
  }

  lemma Commutes8(a: bv8, b: bv8)
    ensures Xor8(a, b) == Xor8(b, a)
  {
  }

  lemma SignOfXor(a: bv8, b: bv8, c: bv8)
    requires c == Xor8(a, b)
    ensures SignSet(c) <==> SignSet(a) != SignSet(b)
  {
  }

  lemma ExtendNone(a: bv8, b: bv8, c: bv8)
    requires c == Xor8(a, b)
    ensures c as bv32 == Xor32(a as bv32, b as bv32)
  {
  }

  lemma ExtendOne(a: bv8, b: bv8, c: bv8, wa: bv32)
    requires c == Xor8(a, b) && wa == Extended(a)
    ensures Extended(c) == Xor32(wa, b as bv32)
  {
  }

  lemma ExtendBoth(a: bv8, b: bv8, c: bv8, wa: bv32, wb: bv32)
    requires c == Xor8(a, b) && wa == Extended(a) && wb == Extended(b)
    ensures c as bv32 == Xor32(wa, wb)
  {
  }

  // ----- AP

  /** `hash ^ ((hash << 7) ^ c ^ (hash >> 3))` */
  function ApEven(hash: bv32, c: bv32): bv32 {
    Xor32(hash, Xor32(Xor32(Left7(hash), c), Right3(hash)))
  }

  /** `hash ^ ~((hash << 11) ^ c ^ (hash >> 5))` */
  function ApOdd(hash: bv32, c: bv32): bv32 {
    Xor32(hash, Not32(Xor32(Xor32(Left11(hash), c), Right5(hash))))
  }

  function ApStep(hash: bv32, even: bool, c: bv32): bv32 {
    if even then ApEven(hash, c) else ApOdd(hash, c)
  }

  /** The state of AP after a byte string. */
  function ApRaw(s: seq<bv8>, signedChar: bool): bv32 {
    if s == [] then 0
    else ApStep(ApRaw(s[..|s| - 1], signedChar), (|s| - 1) % 2 == 0, Widen(s[|s| - 1], signedChar))
  }

  method ApHash(str: CString, signedChar: bool) returns (r: nat)
    ensures r == ApRaw(str, signedChar) as int % TABLE_SIZE
    ensures r < TABLE_SIZE
    ensures IsOneAscii(str) ==> r == str[0] as int
  {
    hide Widen, ApEven, ApOdd, IsOneAscii;
    var hash: bv32 := 0;
    for i := 0 to |str|
      invariant hash == ApRaw(str[..i], signedChar)
    {
      assert str[..i + 1][..i] == str[..i];
      if i % 2 == 0 {
        hash := ApEven(hash, Widen(str[i], signedChar));
      } else {
        hash := ApOdd(hash, Widen(str[i], signedChar));
      }
    }
    assert str[..|str|] == str;
    OneCharacter(str, signedChar);
    r := hash as int % TABLE_SIZE;
  }

  lemma MixLinear(h: bv32, l: bv32, r: bv32, c: bv32, h': bv32, l': bv32, r': bv32, c': bv32)
    ensures Xor32(Xor32(h, h'), Xor32(Xor32(Xor32(l, l'), Xor32(c, c')), Xor32(r, r')))
            == Xor32(Xor32(h, Xor32(Xor32(l, c), r)), Xor32(h', Xor32(Xor32(l', c'), r')))
  {
    hide Xor32;
    Medial(l, l', c, c');
    Medial(Xor32(l, c), Xor32(l', c'), r, r');
    Medial(h, h', Xor32(Xor32(l, c), r), Xor32(Xor32(l', c'), r'));
  }

  lemma EvenStepLinear(g: bv32, h: bv32, b: bv32, c: bv32)
    ensures ApEven(Xor32(g, h), Xor32(b, c)) == Xor32(ApEven(g, b), ApEven(h, c))
  {
    hide Xor32, Left7, Right3;
    LeftShiftsLinear(g, h);
    RightShiftsLinear(g, h);
    MixLinear(g, Left7(g), Right3(g), b, h, Left7(h), Right3(h), c);
  }

  /** An odd step is linear up to a complement, which any three of them restore. */
  lemma OddStepAlmostLinear(g: bv32, h: bv32, b: bv32, c: bv32)
    ensures Not32(ApOdd(Xor32(g, h), Xor32(b, c))) == Xor32(ApOdd(g, b), ApOdd(h, c))
  {
    hide Xor32, Left11, Right5, Not32;
    LeftShiftsLinear(g, h);
    RightShiftsLinear(g, h);
    var x, y := Xor32(Xor32(Left11(g), b), Right5(g)), Xor32(Xor32(Left11(h), c), Right5(h));
    MixLinear(g, Left11(g), Right5(g), b, h, Left11(h), Right5(h), c);
    NotMovesOutRight(g, x);
    NotMovesOutRight(h, y);
    NotMovesOutLeft(Xor32(g, x), Not32(Xor32(h, y)));
    NotMovesOutRight(Xor32(g, x), Xor32(h, y));
    NotTwice(Xor32(Xor32(g, x), Xor32(h, y)));
    NotMovesOutRight(Xor32(g, h), Xor32(Xor32(Left11(Xor32(g, h)), Xor32(b, c)), Right5(Xor32(g, h))));
  }

  /** Exclusive or of three words. */
  function Xor3(a: bv32, b: bv32, c: bv32): bv32 {
    Xor32(Xor32(a, b), c)
  }

  lemma StepAffine(f: bv32, g: bv32, h: bv32, even: bool, a: bv32, b: bv32, c: bv32)
    ensures ApStep(Xor3(f, g, h), even, Xor3(a, b, c))
            == Xor3(ApStep(f, even, a), ApStep(g, even, b), ApStep(h, even, c))
  {
    hide Xor32, ApEven, ApOdd, Not32;
    if even {
      EvenStepLinear(Xor32(f, g), h, Xor32(a, b), c);
      EvenStepLinear(f, g, a, b);
    } else {
      OddStepAlmostLinear(Xor32(f, g), h, Xor32(a, b), c);
      OddStepAlmostLinear(f, g, a, b);
      var x, y := ApOdd(Xor32(f, g), Xor32(a, b)), ApOdd(h, c);
      NotMovesOutLeft(x, y);
      NotTwice(ApOdd(Xor32(Xor32(f, g), h), Xor32(Xor32(a, b), c)));
    }
  }

  // ----- Strings

  /** Bytewise exclusive or of strings of equal length. */
  function Xor(s: seq<bv8>, t: seq<bv8>): (r: seq<bv8>)
    requires |s| == |t|
    ensures |r| == |s|
  {
    seq(|s|, i requires 0 <= i < |s| => Xor8(s[i], t[i]))
  }

  lemma {:induction false} FrontOfXor(s: seq<bv8>, t: seq<bv8>, n: nat)
    requires n <= |s| == |t|
    ensures Xor(s, t)[..n] == Xor(s[..n], t[..n])
  {
  }

  lemma {:induction false} LastOfXor(s: seq<bv8>, t: seq<bv8>, u: seq<bv8>, n: nat, signedChar: bool)
    requires n < |s| == |t| == |u|
    ensures Widen(Xor(Xor(s, t), u)[n], signedChar)
            == Xor3(Widen(s[n], signedChar), Widen(t[n], signedChar), Widen(u[n], signedChar))
  {
    hide Widen, Xor32, Xor8;
    WidenLinear(s[n], t[n], signedChar);
    WidenLinear(Xor(s, t)[n], u[n], signedChar);
  }

  /** The raw AP hash is affine over exclusive or: three strings combine as their three hashes do. */
  lemma {:induction false} ApIsAffine(s: seq<bv8>, t: seq<bv8>, u: seq<bv8>, signedChar: bool)
    requires |s| == |t| == |u|
    ensures ApRaw(Xor(Xor(s, t), u), signedChar)
            == Xor3(ApRaw(s, signedChar), ApRaw(t, signedChar), ApRaw(u, signedChar))
    decreases |s|
  {
    hide Widen, ApStep, Xor, Xor32;
    SelfInverse(0);
    if s == [] {
    } else {
      var n := |s| - 1;
      ApIsAffine(s[..n], t[..n], u[..n], signedChar);
      FrontOfXor(s, t, n);
      FrontOfXor(Xor(s, t), u, n);
      LastOfXor(s, t, u, n, signedChar);
      StepAffine(ApRaw(s[..n], signedChar), ApRaw(t[..n], signedChar), ApRaw(u[..n], signedChar), n % 2 == 0,
                 Widen(s[n], signedChar), Widen(t[n], signedChar), Widen(u[n], signedChar));
    }
  }

  /** Whether a difference collides depends on the difference alone: if it does for one string, it does for all. */
  lemma {:induction false} ApCollisionsTransfer(s: seq<bv8>, t: seq<bv8>, d: seq<bv8>, signedChar: bool)
    requires |s| == |t| == |d|
    ensures ApRaw(s, signedChar) == ApRaw(Xor(s, d), signedChar) <==>
            ApRaw(t, signedChar) == ApRaw(Xor(t, d), signedChar)
  {
    hide ApRaw, Xor, Xor32;
    ApIsAffine(s, t, Xor(t, d), signedChar);
    XorThroughMiddle(s, t, d);
    ThirdEqualsFirst(ApRaw(s, signedChar), ApRaw(t, signedChar), ApRaw(Xor(t, d), signedChar));
  }

  lemma {:induction false} XorThroughMiddle(s: seq<bv8>, t: seq<bv8>, d: seq<bv8>)
    requires |s| == |t| == |d|
    ensures Xor(Xor(s, t), Xor(t, d)) == Xor(s, d)
  {
    hide Xor8;
    forall i | 0 <= i < |s| ensures Xor(Xor(s, t), Xor(t, d))[i] == Xor(s, d)[i] {
      ByteThroughMiddle(s[i], t[i], d[i]);
    }
  }

  lemma ByteThroughMiddle(a: bv8, b: bv8, c: bv8)
    ensures Xor8(Xor8(a, b), Xor8(b, c)) == Xor8(a, c)
  {
  }

  lemma ThirdEqualsFirst(a: bv32, b: bv32, c: bv32)
    ensures a == Xor3(a, b, c) <==> b == c
  {
    hide Xor32;
    Associates(a, b, c);
    Associates(a, a, Xor32(b, c));
    SelfInverse(a);
    SelfInverse(b);
    SelfInverse(c);
    Commutes(0, Xor32(b, c));
    SelfInverse(Xor32(b, c));
    Associates(b, c, c);
    Commutes(0, c);
  }

  // ----- Single characters

  lemma EvenKernel(x: bv32, l: bv32, r: bv32)
    requires l == x << 7 && r == x >> 3
    ensures x ^ (l ^ r) == 0 ==> x == 0
  {
  }

  lemma OddKernel(x: bv32, l: bv32, r: bv32)
    requires l == x << 11 && r == x >> 5
    ensures x ^ (l ^ r) == 0 ==> x == 0
  {
  }

  /** The mixing of neither kind of step loses anything. */
  lemma MixKernel(x: bv32)
    ensures Xor32(x, Xor32(Left7(x), Right3(x))) == 0 ==> x == 0
    ensures Xor32(x, Xor32(Left11(x), Right5(x))) == 0 ==> x == 0
  {
    EvenKernel(x, Left7(x), Right3(x));
    OddKernel(x, Left11(x), Right5(x));
  }

  lemma ShiftsOfZero()
    ensures Left7(0) == 0 && Right3(0) == 0 && Left11(0) == 0 && Right5(0) == 0
  {
  }

  lemma XorIsZero(a: bv32, b: bv32)
    ensures Xor32(a, b) == 0 <==> a == b
  {
    hide Xor32;
    SelfInverse(a);
    SelfInverse(b);
    Associates(a, b, b);
    Commutes(0, b);
  }

  /** A step with everything but the complement of the odd kind. */
  function MixStep(hash: bv32, even: bool, c: bv32): bv32 {
    if even then ApEven(hash, c) else Xor32(hash, Xor32(Xor32(Left11(hash), c), Right5(hash)))
  }

  /** Two steps give the same state exactly when the mixed differences vanish. */
  lemma StepsAgree(g: bv32, h: bv32, even: bool, b: bv32, c: bv32)
    ensures ApStep(g, even, b) == ApStep(h, even, c) <==> MixStep(Xor32(g, h), even, Xor32(b, c)) == 0
  {
    hide Xor32, Left7, Right3, Left11, Right5, Not32;
    XorIsZero(ApStep(g, even, b), ApStep(h, even, c));
    var x, y := Xor32(g, h), Xor32(b, c);
    if even {
      EvenStepLinear(g, h, b, c);
    } else {
      OddStepAlmostLinear(g, h, b, c);
      NotMovesOutRight(x, Xor32(Xor32(Left11(x), y), Right5(x)));
      NotTwice(MixStep(x, even, y));
    }
  }

  lemma MixOfState(x: bv32, even: bool)
    ensures MixStep(x, even, 0) == 0 <==> x == 0
  {
    hide Xor32, Left7, Right3, Left11, Right5;
    SelfInverse(Left7(x));
    SelfInverse(Left11(x));
    MixKernel(x);
    ShiftsOfZero();
    SelfInverse(0);
  }

  lemma MixOfCharacter(y: bv32, even: bool)
    ensures MixStep(0, even, y) == y
  {
    hide Xor32, Left7, Right3, Left11, Right5;
    ShiftsOfZero();
    Commutes(0, y);
    SelfInverse(y);
  }

  /** A step keeps distinct states distinct, and separates distinct characters. */
  lemma StepInjective(g: bv32, h: bv32, even: bool, b: bv32, c: bv32)
    ensures ApStep(g, even, c) == ApStep(h, even, c) <==> g == h
    ensures ApStep(h, even, b) == ApStep(h, even, c) <==> b == c
  {
    hide Xor32, ApStep, MixStep;
    StepsAgree(g, h, even, c, c);
    StepsAgree(h, h, even, b, c);
    XorIsZero(c, c);
    XorIsZero(h, h);
    XorIsZero(g, h);
    XorIsZero(b, c);
    MixOfState(Xor32(g, h), even);
    MixOfCharacter(Xor32(b, c), even);
  }

  /** A common tail keeps distinct raw states of equal-length strings distinct. */
  lemma {:induction false} ApCommonTail(s: seq<bv8>, t: seq<bv8>, u: seq<bv8>, signedChar: bool)
    requires |s| == |t|
    ensures ApRaw(s + u, signedChar) == ApRaw(t + u, signedChar) <==> ApRaw(s, signedChar) == ApRaw(t, signedChar)
    decreases |u|
  {
    hide Widen, ApStep;
    if u == [] {
      assert s + u == s && t + u == t;
    } else {
      var n := |u| - 1;
      assert (s + u)[..|s| + n] == s + u[..n] && (t + u)[..|t| + n] == t + u[..n];
      ApCommonTail(s, t, u[..n], signedChar);
      var c := Widen(u[n], signedChar);
      StepInjective(ApRaw(s + u[..n], signedChar), ApRaw(t + u[..n], signedChar), (|s| + n) % 2 == 0, c, c);
    }
  }

  lemma ExtendedInjective(a: bv8, b: bv8)
    ensures Extended(a) == Extended(b) ==> a == b
    ensures a as bv32 == b as bv32 ==> a == b
    ensures Extended(a) != b as bv32
  {
  }

  lemma WidenInjective(a: bv8, b: bv8, signedChar: bool)
    ensures Widen(a, signedChar) == Widen(b, signedChar) <==> a == b
  {
    hide Widen, Extended, SignSet;
    WidenValue(a, signedChar);
    WidenValue(b, signedChar);
    ExtendedInjective(a, b);
    ExtendedInjective(b, a);
  }

  /** Strings that differ in exactly one character never share a raw AP state. */
  lemma {:induction false} ApOneCharacterChanges(s: seq<bv8>, i: nat, c: bv8, signedChar: bool)
    requires i < |s| && c != s[i]
    ensures ApRaw(s, signedChar) != ApRaw(s[i := c], signedChar)
  {
    hide Widen, ApStep;
    var before, after := s[..i], s[i + 1..];
    var p, q := before + [s[i]], before + [c];
    assert s == p + after && s[i := c] == q + after;
    assert p[..i] == before && q[..i] == before;
    WidenInjective(s[i], c, signedChar);
    var h := ApRaw(before, signedChar);
    StepInjective(h, h, i % 2 == 0, Widen(s[i], signedChar), Widen(c, signedChar));
    ApCommonTail(p, q, after, signedChar);
  }

  // ----- Known strings

  lemma FirstSteps(c: bv32)
    requires c < 0x80
    ensures PjwStep(0, c) == c && ApStep(0, true, c) == c
  {
  }

  lemma ByteReduced(c: bv8)
    ensures (c as bv32) as int % TABLE_SIZE == c as int
  {
  }

  /** A string of one ASCII character hashes to the character. */
  lemma {:induction false} OneCharacter(str: seq<bv8>, signedChar: bool)
    ensures IsOneAscii(str) ==> PjwRaw(str, signedChar) as int % TABLE_SIZE == str[0] as int
    ensures IsOneAscii(str) ==> ApRaw(str, signedChar) as int % TABLE_SIZE == str[0] as int
  {
    if IsOneAscii(str) {
      hide PjwStep, ApStep, Widen;
      var c := str[0];
      WidenMeaning(c);
      FirstSteps(c as bv32);
      assert str[..0] == [];
      assert PjwRaw(str, signedChar) == c as bv32 && ApRaw(str, signedChar) == c as bv32;
      ByteReduced(c);
    }
  }

  lemma {:induction false} NextStates(s: seq<bv8>, c: bv8, signedChar: bool)
    requires c < 0x80
    ensures PjwRaw(s + [c], signedChar) == PjwStep(PjwRaw(s, signedChar), c as bv32)
    ensures ApRaw(s + [c], signedChar) == ApStep(ApRaw(s, signedChar), |s| % 2 == 0, c as bv32)
  {
    hide PjwStep, ApStep, Widen;
    WidenMeaning(c);
    assert (s + [c])[..|s|] == s;
  }

  lemma {:induction false} FourPjwStates(s: seq<bv8>, a: bv8, b: bv8, c: bv8, d: bv8, signedChar: bool)
    requires a < 0x80 && b < 0x80 && c < 0x80 && d < 0x80
    ensures PjwRaw(s + [a, b, c, d], signedChar)
            == PjwStep(PjwStep(PjwStep(PjwStep(PjwRaw(s, signedChar),
                 a as bv32), b as bv32), c as bv32), d as bv32)
  {
    hide PjwStep, ApStep, PjwRaw, ApRaw;
    NextStates(s, a, signedChar);
    NextStates(s + [a], b, signedChar);
    NextStates(s + [a] + [b], c, signedChar);
    NextStates(s + [a] + [b] + [c], d, signedChar);
    assert s + [a] + [b] + [c] + [d] == s + [a, b, c, d];
  }

  lemma {:induction false} FourApStates(s: seq<bv8>, a: bv8, b: bv8, c: bv8, d: bv8, signedChar: bool)
    requires a < 0x80 && b < 0x80 && c < 0x80 && d < 0x80 && |s| % 2 == 0
    ensures ApRaw(s + [a, b, c, d], signedChar)
            == ApStep(ApStep(ApStep(ApStep(ApRaw(s, signedChar),
                 true, a as bv32), false, b as bv32), true, c as bv32), false, d as bv32)
  {
    hide PjwStep, ApStep, PjwRaw, ApRaw;
    NextStates(s, a, signedChar);
    NextStates(s + [a], b, signedChar);
    NextStates(s + [a] + [b], c, signedChar);
    NextStates(s + [a] + [b] + [c], d, signedChar);
    assert s + [a] + [b] + [c] + [d] == s + [a, b, c, d];
  }

  lemma PjwStepsOfEight()
    ensures PjwStep(PjwStep(PjwStep(PjwStep(0, 0x61), 0x62), 0x63), 0x64) == 424084
    ensures PjwStep(PjwStep(PjwStep(PjwStep(424084, 0x65), 0x66), 0x67), 0x68) == 144358056
  {
  }

  lemma ApStepsOfEight()
    ensures ApStep(ApStep(ApStep(ApStep(0, true, 0x61), false, 0x62), true, 0x63), false, 0x64) == 633583055
    ensures ApStep(ApStep(ApStep(ApStep(633583055, true, 0x65), false, 0x66), true, 0x67), false, 0x68) == 1539606075
  {
  }

  lemma {:induction false} PjwOfEight(str: seq<bv8>, signedChar: bool)
    requires str == [0x61, 0x62, 0x63, 0x64, 0x65, 0x66, 0x67, 0x68]
    ensures PjwRaw(str, signedChar) == 144358056
  {
    var four: seq<bv8> := [0x61, 0x62, 0x63, 0x64];
    assert PjwRaw([], signedChar) == 0;
    hide PjwRaw, PjwStep;
    FourPjwStates([], 0x61, 0x62, 0x63, 0x64, signedChar);
    assert [] + four == four;
    FourPjwStates(four, 0x65, 0x66, 0x67, 0x68, signedChar);
    assert str == four + [0x65, 0x66, 0x67, 0x68];
    PjwStepsOfEight();
  }

  lemma {:induction false} ApOfEight(str: seq<bv8>, signedChar: bool)
    requires str == [0x61, 0x62, 0x63, 0x64, 0x65, 0x66, 0x67, 0x68]
    ensures ApRaw(str, signedChar) == 1539606075
  {
    var four: seq<bv8> := [0x61, 0x62, 0x63, 0x64];
    assert ApRaw([], signedChar) == 0;
    hide ApRaw, ApStep;
    FourApStates([], 0x61, 0x62, 0x63, 0x64, signedChar);
    assert [] + four == four;
    FourApStates(four, 0x65, 0x66, 0x67, 0x68, signedChar);
    assert str == four + [0x65, 0x66, 0x67, 0x68];
    ApStepsOfEight();
  }

  /** What the three functions return for "abcdefgh": the states run over the top bits of the word. */
  lemma {:induction false} HashesOfEight(str: seq<bv8>, signedChar: bool)
    requires str == [0x61, 0x62, 0x63, 0x64, 0x65, 0x66, 0x67, 0x68]
    ensures PjwRaw(str, signedChar) as int % TABLE_SIZE == 109787
    ensures ApRaw(str, signedChar) as int % TABLE_SIZE == 124549
  {
    hide PjwRaw, ApRaw;
    PjwOfEight(str, signedChar);
    ApOfEight(str, signedChar);
  }
}
