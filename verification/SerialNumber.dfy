/**
 Serial number comparison for 32-bit TSNs and 16-bit SSNs, in the older form that tests the sign bit
 of the difference and the newer form that casts it to a signed type.
 */
module SerialNumber {
  import opened Bytes

  // ----- The comparisons as written. A C `int` result counts as true when it is not zero.

  predicate Truth(c: int) {
    c != 0
  }

  /** Unsigned 32-bit subtraction. */
  function Sub32(s: uint32, t: uint32): uint32 {
    Wrap32(s - t)
  }

  /** `x & TSN_SIGN_BIT`, the mask being bit 31. */
  function SignBit32(x: uint32): uint32 {
    (x / 0x8000_0000) % 2 * 0x8000_0000
  }

  /** The masked bit, returned through `int`, is the most negative one. */
  function TsnLt(s: uint32, t: uint32): int {
    AsInt32(SignBit32(Sub32(s, t)))
  }

  function TsnLte(s: uint32, t: uint32): int {
    if s == t || SignBit32(Sub32(s, t)) != 0 then 1 else 0
  }

  function TsnLt2(s: uint32, t: uint32): int {
    if AsInt32(Sub32(s, t)) < 0 then 1 else 0
  }

  function TsnLte2(s: uint32, t: uint32): int {
    if AsInt32(Sub32(s, t)) <= 0 then 1 else 0
  }

  /** `x & SSN_SIGN_BIT` on an `int`: bit 15 of the two's complement form of a possibly negative number. */
  function SignBit16(x: int): int {
    (x % 0x1_0000_0000 / 0x8000) % 2 * 0x8000
  }

  /** `(int16_t)x` */
  function AsInt16(x: int): int {
    var low := x % 0x1_0000;
    if low < 0x8000 then low else low - 0x1_0000
  }

  /** The operands are promoted to `int`, so the difference is not reduced modulo 2^16. */
  function SsnLt(s: uint16, t: uint16): int {
    SignBit16(s - t)
  }

  function SsnLte(s: uint16, t: uint16): int {
    if s == t || SignBit16(s - t) != 0 then 1 else 0
  }

  function SsnLt2(s: uint16, t: uint16): int {
    if AsInt16(s - t) < 0 then 1 else 0
  }

  function SsnLte2(s: uint16, t: uint16): int {
    if AsInt16(s - t) <= 0 then 1 else 0
  }

  // ----- Reference definitions, for a number space of size 2 * half

  /** How far `t` lies ahead of `s` on the circle of `2 * half` numbers. */
  function Ahead(half: nat, s: int, t: int): nat
    requires half > 0
  {
    (t - s) % (2 * half)
  }

  /** "Less than" of section 3.2 of RFC 1982. */
  predicate RfcLess(half: nat, s: int, t: int) {
    s != t && ((s < t && t - s < half) || (s > t && s - t > half))
  }

  const TSN_HALF: nat := 0x8000_0000
  const SSN_HALF: nat := 0x8000

  // ----- What every form computes

  /** All four TSN forms, on all inputs: strictly ahead by at most half the range, or not behind. */
  lemma TsnMeaning(s: uint32, t: uint32)
    ensures var d := Ahead(TSN_HALF, s, t);
            && (Truth(TsnLt(s, t)) <==> 1 <= d <= TSN_HALF)
            && (Truth(TsnLt2(s, t)) <==> 1 <= d <= TSN_HALF)
            && (Truth(TsnLte(s, t)) <==> d <= TSN_HALF)
            && (Truth(TsnLte2(s, t)) <==> d <= TSN_HALF)
  {
    Complementary(TSN_HALF, s, t);
    var x := Sub32(s, t);
    assert x / 0x8000_0000 == if x < 0x8000_0000 then 0 else 1;
  }

  /** All four SSN forms, despite the promotion to `int`. */
  lemma SsnMeaning(s: uint16, t: uint16)
    ensures var d := Ahead(SSN_HALF, s, t);
            && (Truth(SsnLt(s, t)) <==> 1 <= d <= SSN_HALF)
            && (Truth(SsnLt2(s, t)) <==> 1 <= d <= SSN_HALF)
            && (Truth(SsnLte(s, t)) <==> d <= SSN_HALF)
            && (Truth(SsnLte2(s, t)) <==> d <= SSN_HALF)
  {
    Complementary(SSN_HALF, s, t);
    Bit15(s - t);
  }

  /** What the functions return: the older strict forms the masked bit, all others 0 or 1. */
  lemma ReturnValues(s: uint32, t: uint32, x: uint16, y: uint16)
    ensures TsnLt(s, t) == 0 || TsnLt(s, t) == -0x8000_0000
    ensures SsnLt(x, y) == 0 || SsnLt(x, y) == 0x8000
    ensures TsnLte(s, t) in {0, 1} && TsnLt2(s, t) in {0, 1} && TsnLte2(s, t) in {0, 1}
    ensures SsnLte(x, y) in {0, 1} && SsnLt2(x, y) in {0, 1} && SsnLte2(x, y) in {0, 1}
    ensures -0x8000 <= AsInt16(x - y) < 0x8000
  {
    assert x - y >= 0 || (x - y) % 0x1_0000_0000 == x - y + 0x1_0000_0000;
  }

  lemma Bit15(x: int)
    requires -0x1_0000 < x < 0x1_0000
    ensures SignBit16(x) != 0 <==> x % 0x1_0000 >= 0x8000
  {
    var y := x % 0x1_0000_0000;
    if x >= 0 {
      assert y == x;
    } else {
      assert y == x + 0x1_0000_0000;
      assert x % 0x1_0000 == x + 0x1_0000;
      assert y / 0x8000 == 0x1_FFFE + (x + 0x1_0000) / 0x8000;
    }
  }

  /** The distances there and back add up to the whole range. */
  lemma Complementary(half: nat, s: int, t: int)
    requires half == TSN_HALF || half == SSN_HALF
    ensures var d := Ahead(half, s, t);
            (s - t) % (2 * half) == if d == 0 then 0 else 2 * half - d
  {
    if half == TSN_HALF {
      var k := (s - t) / 0x1_0000_0000 + (t - s) / 0x1_0000_0000;
      assert (s - t) % 0x1_0000_0000 + (t - s) % 0x1_0000_0000 == -0x1_0000_0000 * k;
    } else {
      var k := (s - t) / 0x1_0000 + (t - s) / 0x1_0000;
      assert (s - t) % 0x1_0000 + (t - s) % 0x1_0000 == -0x1_0000 * k;
    }
  }

  /** Old and new forms agree as truth values on all inputs, at both widths. */
  lemma OldAndNewAgree(s: uint32, t: uint32, p: uint16, q: uint16)
    ensures Truth(TsnLt(s, t)) == Truth(TsnLt2(s, t)) && Truth(TsnLte(s, t)) == Truth(TsnLte2(s, t))
    ensures Truth(SsnLt(p, q)) == Truth(SsnLt2(p, q)) && Truth(SsnLte(p, q)) == Truth(SsnLte2(p, q))
  {
    TsnMeaning(s, t);
    SsnMeaning(p, q);
  }

  // ----- Against RFC 1982

  lemma RfcMeaning(half: nat, s: nat, t: nat)
    requires half == TSN_HALF || half == SSN_HALF
    requires s < 2 * half && t < 2 * half
    ensures RfcLess(half, s, t) <==> 1 <= Ahead(half, s, t) < half
    ensures Ahead(half, s, t) == if s <= t then t - s else 2 * half + t - s
  {
    if half == TSN_HALF {
      assert s <= t ==> (t - s) % 0x1_0000_0000 == t - s;
      assert s > t ==> (t - s) % 0x1_0000_0000 == 0x1_0000_0000 + t - s;
    } else {
      assert s <= t ==> (t - s) % 0x1_0000 == t - s;
      assert s > t ==> (t - s) % 0x1_0000 == 0x1_0000 + t - s;
    }
  }

  /**
   The comparison is that of section 3.2 of RFC 1982 except at distance exactly half the range, where
   the standard leaves both directions false and the code makes both true.
   */
  lemma TsnAgainstRfc(s: uint32, t: uint32)
    ensures Truth(TsnLt(s, t)) <==> RfcLess(TSN_HALF, s, t) || s - t == TSN_HALF || t - s == TSN_HALF
    ensures Truth(TsnLt(s, t)) && Truth(TsnLt(t, s)) <==> s - t == TSN_HALF || t - s == TSN_HALF
  {
    TsnMeaning(s, t);
    TsnMeaning(t, s);
    RfcMeaning(TSN_HALF, s, t);
    RfcMeaning(TSN_HALF, t, s);
  }

  lemma SsnAgainstRfc(s: uint16, t: uint16)
    ensures Truth(SsnLt(s, t)) <==> RfcLess(SSN_HALF, s, t) || s - t == SSN_HALF || t - s == SSN_HALF
    ensures Truth(SsnLt(s, t)) && Truth(SsnLt(t, s)) <==> s - t == SSN_HALF || t - s == SSN_HALF
  {
    SsnMeaning(s, t);
    SsnMeaning(t, s);
    RfcMeaning(SSN_HALF, s, t);
    RfcMeaning(SSN_HALF, t, s);
  }

  /** Half the range apart, each number is less than the other; the standard orders neither. */
  lemma HalfRangeWitness()
    ensures Truth(TsnLt(0, 0x8000_0000)) && Truth(TsnLt(0x8000_0000, 0))
    ensures !RfcLess(TSN_HALF, 0, 0x8000_0000) && !RfcLess(TSN_HALF, 0x8000_0000, 0)
    ensures Truth(SsnLt(0, 0x8000)) && Truth(SsnLt(0x8000, 0))
    ensures !RfcLess(SSN_HALF, 0, 0x8000) && !RfcLess(SSN_HALF, 0x8000, 0)
  {
    TsnAgainstRfc(0, 0x8000_0000);
    SsnAgainstRfc(0, 0x8000);
  }

  // ----- Transitivity

  /** A chain of two comparisons closes exactly when the two steps together stay within half the range. */
  lemma TsnTransitiveIff(a: uint32, b: uint32, c: uint32)
    requires Truth(TsnLt(a, b)) && Truth(TsnLt(b, c))
    ensures Truth(TsnLt(a, c)) <==> Ahead(TSN_HALF, a, b) + Ahead(TSN_HALF, b, c) <= TSN_HALF
  {
    TsnMeaning(a, b);
    TsnMeaning(b, c);
    TsnMeaning(a, c);
    RfcMeaning(TSN_HALF, a, b);
    RfcMeaning(TSN_HALF, b, c);
    RfcMeaning(TSN_HALF, a, c);
  }

  lemma SsnTransitiveIff(a: uint16, b: uint16, c: uint16)
    requires Truth(SsnLt(a, b)) && Truth(SsnLt(b, c))
    ensures Truth(SsnLt(a, c)) <==> Ahead(SSN_HALF, a, b) + Ahead(SSN_HALF, b, c) <= SSN_HALF
  {
    SsnMeaning(a, b);
    SsnMeaning(b, c);
    SsnMeaning(a, c);
    RfcMeaning(SSN_HALF, a, b);
    RfcMeaning(SSN_HALF, b, c);
    RfcMeaning(SSN_HALF, a, c);
  }

  // ----- Unwrapped counters

  /** The low 32 bits of a counter that never wraps. */
  function Tsn(counter: int): uint32 {
    Wrap32(counter)
  }

  function Ssn(counter: int): uint16 {
    counter % 0x1_0000
  }

  /** Wrapping order is true order for counters of any size less than half the range apart. */
  lemma TsnOrderIsTrueOrder(a: int, b: int)
    requires a - b < TSN_HALF && b - a < TSN_HALF
    ensures Truth(TsnLt(Tsn(a), Tsn(b))) <==> a < b
    ensures Truth(TsnLt2(Tsn(a), Tsn(b))) <==> a < b
    ensures Truth(TsnLte(Tsn(a), Tsn(b))) <==> a <= b
    ensures Truth(TsnLte2(Tsn(a), Tsn(b))) <==> a <= b
  {
    TsnMeaning(Tsn(a), Tsn(b));
    TsnDistance(a, b);
  }

  lemma TsnDistance(a: int, b: int)
    requires a - b < TSN_HALF && b - a < TSN_HALF
    ensures Ahead(TSN_HALF, Tsn(a), Tsn(b)) == if a <= b then b - a else 2 * TSN_HALF + b - a
  {
    var k := b / 0x1_0000_0000 - a / 0x1_0000_0000;
    assert Tsn(b) - Tsn(a) == b - a - 0x1_0000_0000 * k;
    RfcMeaning(TSN_HALF, Tsn(a), Tsn(b));
  }

  lemma SsnOrderIsTrueOrder(a: int, b: int)
    requires a - b < SSN_HALF && b - a < SSN_HALF
    ensures Truth(SsnLt(Ssn(a), Ssn(b))) <==> a < b
    ensures Truth(SsnLt2(Ssn(a), Ssn(b))) <==> a < b
    ensures Truth(SsnLte(Ssn(a), Ssn(b))) <==> a <= b
    ensures Truth(SsnLte2(Ssn(a), Ssn(b))) <==> a <= b
  {
    SsnMeaning(Ssn(a), Ssn(b));
    SsnDistance(a, b);
  }

  lemma SsnDistance(a: int, b: int)
    requires a - b < SSN_HALF && b - a < SSN_HALF
    ensures Ahead(SSN_HALF, Ssn(a), Ssn(b)) == if a <= b then b - a else 2 * SSN_HALF + b - a
  {
    var k := b / 0x1_0000 - a / 0x1_0000;
    assert Ssn(b) - Ssn(a) == b - a - 0x1_0000 * k;
    RfcMeaning(SSN_HALF, Ssn(a), Ssn(b));
  }

  /** A relation that is irreflexive, transitive and total on a set. */
  ghost predicate StrictTotalOrderOn<T(!new)>(xs: set<T>, less: (T, T) -> bool) {
    && (forall x :: x in xs ==> !less(x, x))
    && (forall x, y :: x in xs && y in xs && x != y ==> less(x, y) != less(y, x))
    && (forall x, y, z :: x in xs && y in xs && z in xs && less(x, y) && less(y, z) ==> less(x, z))
  }

  /** On the numbers of any counters that span less than half the range, the comparison is a strict total order. */
  lemma TsnTotalOrderOnWindow(counters: set<int>)
    requires forall a, b :: a in counters && b in counters ==> a - b < TSN_HALF
    ensures StrictTotalOrderOn(set a | a in counters :: Tsn(a), (s, t) => Truth(TsnLt(s, t)))
  {
    hide Tsn, TsnLt;
    forall a, b | a in counters && b in counters ensures Truth(TsnLt(Tsn(a), Tsn(b))) <==> a < b {
      assert a - b < TSN_HALF && b - a < TSN_HALF;
      TsnOrderIsTrueOrder(a, b);
    }
  }

  lemma SsnTotalOrderOnWindow(counters: set<int>)
    requires forall a, b :: a in counters && b in counters ==> a - b < SSN_HALF
    ensures StrictTotalOrderOn(set a | a in counters :: Ssn(a), (s, t) => Truth(SsnLt(s, t)))
  {
    hide Ssn, SsnLt;
    forall a, b | a in counters && b in counters ensures Truth(SsnLt(Ssn(a), Ssn(b))) <==> a < b {
      assert a - b < SSN_HALF && b - a < SSN_HALF;
      SsnOrderIsTrueOrder(a, b);
    }
  }
}
