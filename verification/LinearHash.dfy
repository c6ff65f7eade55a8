/**
 The string hashes whose step is "multiply by an odd number, add the character" in wrapping 32-bit
 arithmetic: RS, BKDR, DJB and SDBM. The state before the final reduction modulo `M` is the raw hash.
 */
module LinearHash {
  import opened Bytes
  import opened CStrings
  import opened Powers

  function CharValues(s: seq<bv8>, signedChar: bool): (cs: seq<int>)
    ensures |cs| == |s|
  {
    seq(|s|, i requires 0 <= i < |s| => CharValue(s[i], signedChar))
  }

  // ----- The loops, with the multiplier of each step made explicit

  /** The raw hash from state `h`, character `i` being added after multiplying by `ms[i]`. */
  function Run(h: uint32, ms: seq<nat>, cs: seq<int>): uint32
    requires |ms| == |cs|
    decreases |cs|
  {
    if cs == [] then h else Run(Wrap32(h * ms[0] + cs[0]), ms[1..], cs[1..])
  }

  function Repeat(m: nat, n: nat): (ms: seq<nat>)
    ensures |ms| == n
  {
    seq(n, _ => m)
  }

  /** The closed form for a constant multiplier: the sum of c[i] * m^(n-1-i). */
  function PowerSum(m: nat, cs: seq<int>): int {
    if cs == [] then 0 else cs[0] * Pow(m, |cs| - 1) + PowerSum(m, cs[1..])
  }

  function Prod(ms: seq<nat>): nat {
    if ms == [] then 1 else ms[0] * Prod(ms[1..])
  }

  /** The closed form in general: each character times the product of the multipliers after it. */
  function WeightedSum(ms: seq<nat>, cs: seq<int>): int
    requires |ms| == |cs|
  {
    if cs == [] then 0 else cs[0] * Prod(ms[1..]) + WeightedSum(ms[1..], cs[1..])
  }

  /** The multipliers of RS: 63689 times a power of 378551, kept modulo 2^32. */
  function RsMultipliers(a: uint32, n: nat): (ms: seq<nat>)
    ensures |ms| == n
    decreases n
  {
    if n == 0 then [] else [a] + RsMultipliers(Wrap32(a * 378551), n - 1)
  }

  // ----- Wrapping arithmetic

  lemma WrapShift(x: int, k: int)
    ensures Wrap32(x + 0x1_0000_0000 * k) == Wrap32(x)
  {
  }

  lemma WrapMulAdd(x: int, m: int, c: int)
    ensures Wrap32(Wrap32(x) * m + c) == Wrap32(x * m + c)
  {
    hide Wrap32;
    var k := Quotient(x);
    assert Wrap32(x) * m + c == x * m + c + 0x1_0000_0000 * (-k * m);
    WrapShift(x * m + c, -k * m);
  }

  lemma Quotient(x: int) returns (k: int)
    ensures x == Wrap32(x) + 0x1_0000_0000 * k
  {
    k := x / 0x1_0000_0000;
  }

  /** The loop computes its closed form modulo 2^32. */
  lemma {:induction false} ClosedForm(h: uint32, ms: seq<nat>, cs: seq<int>)
    requires |ms| == |cs|
    ensures Run(h, ms, cs) == Wrap32(h * Prod(ms) + WeightedSum(ms, cs))
    decreases |cs|
  {
    hide Wrap32;
    if cs == [] {
      WrapSmall(h);
    } else {
      ClosedForm(Wrap32(h * ms[0] + cs[0]), ms[1..], cs[1..]);
      LeadingTerm(h, ms[0], cs[0], Prod(ms[1..]), WeightedSum(ms[1..], cs[1..]));
    }
  }

  lemma LeadingTerm(h: int, m: int, c: int, p: int, w: int)
    ensures Wrap32(Wrap32(h * m + c) * p + w) == Wrap32(h * (m * p) + (c * p + w))
  {
    hide Wrap32;
    WrapMulAdd(h * m + c, p, w);
    assert (h * m + c) * p + w == h * (m * p) + (c * p + w);
  }

  lemma {:induction false} ConstantMultiplier(m: nat, cs: seq<int>)
    ensures Prod(Repeat(m, |cs|)) == Pow(m, |cs|)
    ensures WeightedSum(Repeat(m, |cs|), cs) == PowerSum(m, cs)
  {
    if cs == [] {
    } else {
      assert Repeat(m, |cs|)[1..] == Repeat(m, |cs| - 1);
      ConstantMultiplier(m, cs[1..]);
    }
  }

  /** The closed form of a loop with constant multiplier. */
  lemma {:induction false} PowerForm(h: uint32, m: nat, cs: seq<int>)
    ensures Run(h, Repeat(m, |cs|), cs) == Wrap32(h * Pow(m, |cs|) + PowerSum(m, cs))
  {
    ClosedForm(h, Repeat(m, |cs|), cs);
    ConstantMultiplier(m, cs);
  }

  lemma RunStep(h: uint32, m: nat, n: nat, cs: seq<int>, i: nat)
    requires n == |cs| && i < n
    ensures Run(h, Repeat(m, n - i), cs[i..]) == Run(Wrap32(h * m + cs[i]), Repeat(m, n - i - 1), cs[i + 1..])
  {
    assert Repeat(m, n - i)[1..] == Repeat(m, n - i - 1);
    assert cs[i..][1..] == cs[i + 1..];
  }

  // ----- The hash functions

  lemma SmallPowers(m: nat)
    ensures Pow(m, 0) == 1 && Pow(m, 1) == m && Pow(m, 2) == m * m && Pow(m, 3) == m * (m * m)
  {
    assert Pow(m, 0) == 1;
    assert Pow(m, 1) == m * Pow(m, 0);
    assert Pow(m, 2) == m * Pow(m, 1);
    assert Pow(m, 3) == m * Pow(m, 2);
  }

  lemma SumsOfOne(m: nat, k: nat, cs: seq<int>)
    requires |cs| == 1
    ensures PowerSum(m, cs) == cs[0] && RsSum(k, cs) == cs[0]
  {
    hide Pow;
    assert cs[1..] == [] && StepSum(k + 1, 0) == 0;
    SmallPowers(m);
    SmallPowers(63689);
    SmallPowers(378551);
  }

  /** The closed forms of a string of one ASCII character. */
  lemma {:induction false} OneCharacter(str: seq<bv8>, signedChar: bool)
    ensures var cs := CharValues(str, signedChar);
            IsOneAscii(str) ==>
              var c := str[0] as int;
              && Wrap32(PowerSum(131, cs)) % TABLE_SIZE == c
              && Wrap32(PowerSum(65599, cs)) % TABLE_SIZE == c
              && Wrap32(RsSum(0, cs)) % TABLE_SIZE == c
              && Wrap32(5381 * Pow(33, |str|) + PowerSum(33, cs)) % TABLE_SIZE == 177573 + c
  {
    hide PowerSum, RsSum, Pow, CharValue, Wrap32;
    if IsOneAscii(str) {
      var cs := CharValues(str, signedChar);
      CharMeaning(str[0]);
      SumsOfOne(131, 0, cs);
      SumsOfOne(65599, 0, cs);
      SumsOfOne(33, 0, cs);
      SmallPowers(33);
      WrapSmall(cs[0]);
      WrapSmall(177573 + cs[0]);
    }
  }

  method BkdrHash(str: CString, signedChar: bool) returns (r: nat)
    ensures r == Wrap32(PowerSum(131, CharValues(str, signedChar))) % TABLE_SIZE
    ensures r < TABLE_SIZE
    ensures IsOneAscii(str) ==> r == str[0] as int
  {
    hide Wrap32, CharValue, PowerSum, IsOneAscii;
    ghost var cs := CharValues(str, signedChar);
    var seed := 131;
    var hash: uint32 := 0;
    for i := 0 to |str|
      invariant Run(hash, Repeat(131, |str| - i), cs[i..]) == Run(0, Repeat(131, |str|), cs)
    {
      RunStep(hash, 131, |str|, cs, i);
      hash := Wrap32(hash * seed + CharValue(str[i], signedChar));
    }
    PowerForm(0, 131, cs);
    r := hash % TABLE_SIZE;
    OneCharacter(str, signedChar);
  }

  method DjbHash(str: CString, signedChar: bool) returns (r: nat)
    ensures r == Wrap32(5381 * Pow(33, |str|) + PowerSum(33, CharValues(str, signedChar))) % TABLE_SIZE
    ensures r < TABLE_SIZE
    ensures IsOneAscii(str) ==> r == 177573 + str[0] as int
  {
    hide Wrap32, CharValue, PowerSum, Pow, IsOneAscii;
    ghost var cs := CharValues(str, signedChar);
    var hash: uint32 := 5381;
    for i := 0 to |str|
      invariant Run(hash, Repeat(33, |str| - i), cs[i..]) == Run(5381, Repeat(33, |str|), cs)
    {
      RunStep(hash, 33, |str|, cs, i);
      ShiftedByFive(hash, CharValue(str[i], signedChar));
      hash := Wrap32(hash + Wrap32(Wrap32(hash * 32) + CharValue(str[i], signedChar)));
    }
    PowerForm(5381, 33, cs);
    r := hash % TABLE_SIZE;
    OneCharacter(str, signedChar);
  }

  /** `hash + (hash << 5) + c` is `hash * 33 + c`. */
  lemma ShiftedByFive(h: uint32, c: int)
    ensures Wrap32(h + Wrap32(Wrap32(h * 32) + c)) == Wrap32(h * 33 + c)
  {
    hide Wrap32;
    WrapMulAdd(h * 32, 1, c);
    WrapMulAdd(Wrap32(h * 32) + c, 1, h);
    WrapMulAdd(h * 32, 1, c + h);
  }

  method SdbmHash(str: CString, signedChar: bool) returns (r: nat)
    ensures r == Wrap32(PowerSum(65599, CharValues(str, signedChar))) % TABLE_SIZE
    ensures r < TABLE_SIZE
    ensures IsOneAscii(str) ==> r == str[0] as int
  {
    hide Wrap32, CharValue, PowerSum, IsOneAscii;
    ghost var cs := CharValues(str, signedChar);
    var hash: uint32 := 0;
    for i := 0 to |str|
      invariant Run(hash, Repeat(65599, |str| - i), cs[i..]) == Run(0, Repeat(65599, |str|), cs)
    {
      RunStep(hash, 65599, |str|, cs, i);
      ShiftedBySixAndSixteen(hash, CharValue(str[i], signedChar));
      hash := Wrap32(CharValue(str[i], signedChar) + Wrap32(hash * 64) + Wrap32(hash * 0x1_0000) - hash);
    }
    PowerForm(0, 65599, cs);
    r := hash % TABLE_SIZE;
    OneCharacter(str, signedChar);
  }

  /** `c + (hash << 6) + (hash << 16) - hash` is `hash * 65599 + c`. */
  lemma ShiftedBySixAndSixteen(h: uint32, c: int)
    ensures Wrap32(c + Wrap32(h * 64) + Wrap32(h * 0x1_0000) - h) == Wrap32(h * 65599 + c)
  {
    hide Wrap32;
    var j := Quotient(h * 64);
    var k := Quotient(h * 0x1_0000);
    WrapShift(h * 65599 + c, -(j + k));
  }

  lemma {:induction false} RsStep(hash: uint32, a: uint32, ms: seq<nat>, cs: seq<int>, i: nat)
    requires i < |ms| == |cs| && ms[i..] == RsMultipliers(a, |ms| - i)
    ensures ms[i + 1..] == RsMultipliers(Wrap32(a * 378551), |ms| - i - 1)
    ensures Run(hash, ms[i..], cs[i..]) == Run(Wrap32(hash * a + cs[i]), ms[i + 1..], cs[i + 1..])
  {
    hide Wrap32;
    assert ms[i..][1..] == ms[i + 1..] && cs[i..][1..] == cs[i + 1..] && ms[i..][0] == a;
  }

  lemma RunEnd(h: uint32)
    ensures Run(h, [], []) == h
  {
  }

  method RsHash(str: CString, signedChar: bool) returns (r: nat)
    ensures r == Wrap32(RsSum(0, CharValues(str, signedChar))) % TABLE_SIZE
    ensures r < TABLE_SIZE
    ensures IsOneAscii(str) ==> r == str[0] as int
  {
    hide Wrap32, CharValue, RsSum, PowerSum, Pow, IsOneAscii, RsMultipliers, Run;
    ghost var cs, ms := CharValues(str, signedChar), RsMultipliers(63689, |str|);
    var b, a: uint32, hash: uint32 := 378551, 63689, 0;
    for i := 0 to |str|
      invariant ms[i..] == RsMultipliers(a, |str| - i)
      invariant Run(hash, ms[i..], cs[i..]) == Run(0, ms, cs)
    {
      RsStep(hash, a, ms, cs, i);
      hash := Wrap32(hash * a + CharValue(str[i], signedChar));
      a := Wrap32(a * b);
    }
    RunEnd(hash);
    RsClosedForm(cs);
    r := hash % TABLE_SIZE;
    OneCharacter(str, signedChar);
  }

  /** The multiplier of RS after `i` steps. */
  lemma {:induction false} RsMultiplierAt(a: uint32, n: nat, i: nat)
    requires i < n
    ensures RsMultipliers(a, n)[i] == Wrap32(a * Pow(378551, i))
    decreases i
  {
    hide Wrap32;
    if i == 0 {
      WrapSmall(a);
    } else {
      RsMultiplierAt(Wrap32(a * 378551), n - 1, i - 1);
      WrapMulAdd(a * 378551, Pow(378551, i - 1), 0);
      assert a * 378551 * Pow(378551, i - 1) == a * Pow(378551, i);
    }
  }

  /** The sum of the `n` step numbers from `k` on. */
  function StepSum(k: nat, n: nat): nat
    decreases n
  {
    if n == 0 then 0 else k + StepSum(k + 1, n - 1)
  }

  /**
   The closed form of RS for characters added in steps `k`, `k + 1`, and so on: each is weighted by
   63689 to the number of later steps, times 378551 to the sum of the later step numbers.
   */
  function RsSum(k: nat, cs: seq<int>): int
    decreases |cs|
  {
    if cs == [] then 0
    else cs[0] * (Pow(63689, |cs| - 1) * Pow(378551, StepSum(k + 1, |cs| - 1))) + RsSum(k + 1, cs[1..])
  }

  /** The multipliers of RS from step `k` on, not reduced. */
  function PlainMultipliers(k: nat, n: nat): (ms: seq<nat>)
    ensures |ms| == n
    decreases n
  {
    if n == 0 then [] else [63689 * Pow(378551, k)] + PlainMultipliers(k + 1, n - 1)
  }

  lemma {:induction false} PlainProduct(k: nat, n: nat)
    ensures Prod(PlainMultipliers(k, n)) == Pow(63689, n) * Pow(378551, StepSum(k, n))
    decreases n
  {
    if n == 0 {
      assert Prod([]) == 1;
    } else {
      PlainProduct(k + 1, n - 1);
      PowAdd(378551, k, StepSum(k + 1, n - 1));
      assert PlainMultipliers(k, n)[1..] == PlainMultipliers(k + 1, n - 1);
      Regroup(Pow(378551, k), Pow(63689, n - 1), Pow(378551, StepSum(k + 1, n - 1)));
    }
  }

  lemma Regroup(x: int, y: int, z: int)
    ensures (63689 * x) * (y * z) == (63689 * y) * (x * z)
  {
    assert x * (y * z) == y * (x * z);
  }

  lemma {:induction false} PlainWeights(k: nat, cs: seq<int>)
    ensures WeightedSum(PlainMultipliers(k, |cs|), cs) == RsSum(k, cs)
    decreases |cs|
  {
    if cs == [] {
      assert RsSum(k, cs) == 0;
    } else {
      assert PlainMultipliers(k, |cs|)[1..] == PlainMultipliers(k + 1, |cs| - 1);
      PlainProduct(k + 1, |cs| - 1);
      PlainWeights(k + 1, cs[1..]);
    }
  }

  /** Reducing the multipliers as the loop does changes no state. */
  lemma {:induction false} ReducedMultipliers(h: uint32, a: uint32, k: nat, cs: seq<int>)
    requires a == Wrap32(63689 * Pow(378551, k))
    ensures Run(h, RsMultipliers(a, |cs|), cs) == Run(h, PlainMultipliers(k, |cs|), cs)
    decreases |cs|
  {
    hide Wrap32, Pow;
    if cs == [] {
      assert RsMultipliers(a, 0) == PlainMultipliers(k, 0);
    } else {
      var m := 63689 * Pow(378551, k);
      NextMultiplier(k);
      WrapMulAdd(m, 378551, 0);
      WrapMulAdd(m, h, cs[0]);
      assert RsMultipliers(a, |cs|)[1..] == RsMultipliers(Wrap32(a * 378551), |cs| - 1);
      assert PlainMultipliers(k, |cs|)[1..] == PlainMultipliers(k + 1, |cs| - 1);
      ReducedMultipliers(Wrap32(h * a + cs[0]), Wrap32(a * 378551), k + 1, cs[1..]);
    }
  }

  lemma NextMultiplier(k: nat)
    ensures 63689 * Pow(378551, k) * 378551 == 63689 * Pow(378551, k + 1)
  {
    assert Pow(378551, k + 1) == 378551 * Pow(378551, k);
  }

  /** The RS loop computes the sum in plain powers of its two constants, modulo 2^32. */
  lemma {:induction false} RsClosedForm(cs: seq<int>)
    ensures Run(0, RsMultipliers(63689, |cs|), cs) == Wrap32(RsSum(0, cs))
  {
    hide Run, WeightedSum, RsSum;
    assert Pow(378551, 0) == 1;
    WrapSmall(63689);
    ReducedMultipliers(0, 63689, 0, cs);
    ClosedForm(0, PlainMultipliers(0, |cs|), cs);
    PlainWeights(0, cs);
  }

  // ----- A known string

  lemma SumsOfThree(m: nat, cs: seq<int>)
    requires |cs| == 3
    ensures PowerSum(m, cs) == cs[0] * (m * m) + cs[1] * m + cs[2]
    ensures RsSum(0, cs) == cs[0] * (63689 * 63689 * (378551 * (378551 * 378551)))
                            + cs[1] * (63689 * (378551 * 378551)) + cs[2]
  {
    hide Pow;
    var ds, es := cs[1..], cs[2..];
    assert ds[1..] == es && ds[0] == cs[1] && es[0] == cs[2];
    SumsOfOne(m, 2, es);
    assert StepSum(3, 0) == 0 && StepSum(2, 1) == 2 && StepSum(1, 2) == 3;
    SmallPowers(m);
    SmallPowers(63689);
    SmallPowers(378551);
    assert PowerSum(m, ds) == ds[0] * m + es[0];
    assert RsSum(1, ds) == ds[0] * (63689 * (378551 * 378551)) + es[0];
  }

  lemma {:induction false} AsciiValues(str: seq<bv8>, signedChar: bool)
    requires str == [0x61, 0x62, 0x63]
    ensures CharValues(str, signedChar) == [97, 98, 99]
  {
    hide CharValue;
    CharMeaning(0x61);
    CharMeaning(0x62);
    CharMeaning(0x63);
  }

  /** What the four functions return for "abc". */
  lemma HashesOfAbc(str: seq<bv8>, signedChar: bool)
    requires str == [0x61, 0x62, 0x63]
    ensures Wrap32(PowerSum(131, CharValues(str, signedChar))) % TABLE_SIZE == 177572
    ensures Wrap32(5381 * Pow(33, |str|) + PowerSum(33, CharValues(str, signedChar))) % TABLE_SIZE == 238282
    ensures Wrap32(PowerSum(65599, CharValues(str, signedChar))) % TABLE_SIZE == 54479
    ensures Wrap32(RsSum(0, CharValues(str, signedChar))) % TABLE_SIZE == 179326
  {
    hide PowerSum, RsSum, Pow, CharValues, Wrap32;
    var cs := CharValues(str, signedChar);
    AsciiValues(str, signedChar);
    SumsOfThree(131, cs);
    WrapSmall(1677554);
    SumsOfThree(33, cs);
    SmallPowers(33);
    WrapSmall(193485963);
    SumsOfThree(65599, cs);
    WrapShift(807794786, 97);
    WrapSmall(807794786);
    WrapShift(2969643692, 4969514089791990421);
    WrapSmall(2969643692);
  }

  // ----- Injectivity

  predicate AllOdd(ms: seq<nat>) {
    forall i :: 0 <= i < |ms| ==> ms[i] % 2 == 1
  }

  lemma {:induction false} RsMultipliersOdd(a: uint32, n: nat)
    requires a % 2 == 1
    ensures AllOdd(RsMultipliers(a, n))
    decreases n
  {
    if n == 0 {
    } else {
      OddTimesOdd(a);
      RsMultipliersOdd(Wrap32(a * 378551), n - 1);
    }
  }

  lemma OddTimesOdd(a: uint32)
    requires a % 2 == 1
    ensures Wrap32(a * 378551) % 2 == 1
  {
    hide Wrap32;
    var k := Quotient(a * 378551);
    var j := a / 2;
    IsOdd(Wrap32(a * 378551), j * 378551 + 189275 - 0x8000_0000 * k);
  }

  lemma IsOdd(x: int, j: int)
    requires x == 2 * j + 1
    ensures x % 2 == 1
  {
  }

  /** If 2^k divides an odd multiple of z then it divides z. */
  lemma {:induction false} OddCancels(k: nat, z: int, m: int, q: int) returns (r: int)
    requires m % 2 == 1 && z * m == q * Pow(2, k)
    ensures z == r * Pow(2, k)
    decreases k
  {
    if k == 0 {
      r := z;
    } else {
      var half := z / 2;
      assert z * m == 2 * (q * Pow(2, k - 1));
      EvenFactor(z, m, q * Pow(2, k - 1));
      assert half * m == q * Pow(2, k - 1);
      r := OddCancels(k - 1, half, m, q);
      assert z == 2 * (r * Pow(2, k - 1)) == r * (2 * Pow(2, k - 1));
    }
  }

  lemma EvenFactor(z: int, m: int, x: int)
    requires m % 2 == 1 && z * m == 2 * x
    ensures z % 2 == 0 && z / 2 * m == x
  {
    var j := m / 2;
    assert m == 2 * j + 1;
    assert z * m == 2 * (z * j) + z;
    assert z == 2 * (x - z * j);
    assert z == 2 * (z / 2);
    assert 2 * (z / 2) * m == 2 * x;
    assert 2 * (z / 2 * m) == 2 * x;
  }

  /** One step with an odd multiplier loses nothing: equal results need congruent inputs. */
  lemma StepInjective(x: int, y: int, m: nat)
    requires m % 2 == 1 && Wrap32(x * m) == Wrap32(y * m)
    ensures Wrap32(x) == Wrap32(y)
  {
    hide Wrap32;
    var j := Quotient(x * m);
    var k := Quotient(y * m);
    PowersOfTwo();
    assert (x - y) * m == (j - k) * 0x1_0000_0000;
    var r := OddCancels(32, x - y, m, j - k);
    WrapShift(y, r);
  }

  lemma WrapAddCancel(x: int, y: int, c: int)
    ensures Wrap32(x + c) == Wrap32(y + c) <==> Wrap32(x) == Wrap32(y)
  {
    hide Wrap32;
    if Wrap32(x) == Wrap32(y) {
      WrapMulAdd(x, 1, c);
      WrapMulAdd(y, 1, c);
    }
    if Wrap32(x + c) == Wrap32(y + c) {
      WrapMulAdd(x + c, 1, -c);
      WrapMulAdd(y + c, 1, -c);
    }
  }

  /** A common tail keeps distinct states distinct: two runs over it agree only if they started alike. */
  lemma {:induction false} CommonTail(g: uint32, h: uint32, ms: seq<nat>, cs: seq<int>)
    requires |ms| == |cs| && AllOdd(ms)
    ensures Run(g, ms, cs) == Run(h, ms, cs) <==> g == h
    decreases |cs|
  {
    hide Wrap32;
    if cs == [] {
    } else {
      var g', h' := Wrap32(g * ms[0] + cs[0]), Wrap32(h * ms[0] + cs[0]);
      CommonTail(g', h', ms[1..], cs[1..]);
      if g' == h' {
        WrapAddCancel(g * ms[0], h * ms[0], cs[0]);
        StepInjective(g, h, ms[0]);
        WrapSmall(g);
        WrapSmall(h);
      }
    }
  }

  lemma {:induction false} RunSplit(h: uint32, ms: seq<nat>, cs: seq<int>, i: nat)
    requires |ms| == |cs| && i <= |cs|
    ensures Run(h, ms, cs) == Run(Run(h, ms[..i], cs[..i]), ms[i..], cs[i..])
    decreases i
  {
    if i > 0 {
      RunSplit(Wrap32(h * ms[0] + cs[0]), ms[1..], cs[1..], i - 1);
      assert ms[..i][1..] == ms[1..][..i - 1] && cs[..i][1..] == cs[1..][..i - 1];
      assert ms[i..] == ms[1..][i - 1..] && cs[i..] == cs[1..][i - 1..];
    } else {
      assert ms[0..] == ms && cs[0..] == cs;
    }
  }

  lemma CharsDistinct(c: bv8, d: bv8, signedChar: bool, x: int)
    ensures Wrap32(x + CharValue(c, signedChar)) == Wrap32(x + CharValue(d, signedChar)) <==> c == d
  {
    hide Wrap32, CharValue;
    var a, b := CharValue(c, signedChar), CharValue(d, signedChar);
    WrapAddCancel(a, b, x);
    CharsNear(c, d, signedChar);
    CharInjective(c, d, signedChar);
    SmallWrapsEqual(a, b);
  }

  /** Strings that differ in exactly one character never share a raw state, whatever the odd multipliers. */
  lemma {:induction false} OneCharacterChanges(h: uint32, ms: seq<nat>, s: seq<bv8>, i: nat, c: bv8, signedChar: bool)
    requires |ms| == |s| && AllOdd(ms) && i < |s| && c != s[i]
    ensures Run(h, ms, CharValues(s, signedChar)) != Run(h, ms, CharValues(s[i := c], signedChar))
  {
    hide Wrap32, CharValue;
    var xs, ys := CharValues(s, signedChar), CharValues(s[i := c], signedChar);
    RunSplit(h, ms, xs, i);
    RunSplit(h, ms, ys, i);
    assert xs[..i] == ys[..i];
    var g := Run(h, ms[..i], xs[..i]);
    assert xs[i..][1..] == xs[i + 1..] == ys[i + 1..] == ys[i..][1..];
    assert ms[i..][1..] == ms[i + 1..] && ms[i..][0] == ms[i];
    CharsDistinct(s[i], c, signedChar, g * ms[i]);
    CommonTail(Wrap32(g * ms[i] + xs[i]), Wrap32(g * ms[i] + ys[i]), ms[i + 1..], xs[i + 1..]);
  }

  /** The four functions at once: one changed character always changes the raw hash. */
  lemma {:induction false} OneCharacterChangesAll(s: seq<bv8>, i: nat, c: bv8, signedChar: bool)
    requires i < |s| && c != s[i]
    ensures var xs, ys := CharValues(s, signedChar), CharValues(s[i := c], signedChar);
            && Wrap32(PowerSum(131, xs)) != Wrap32(PowerSum(131, ys))
            && Wrap32(5381 * Pow(33, |s|) + PowerSum(33, xs)) != Wrap32(5381 * Pow(33, |s|) + PowerSum(33, ys))
            && Wrap32(PowerSum(65599, xs)) != Wrap32(PowerSum(65599, ys))
            && Wrap32(RsSum(0, xs)) != Wrap32(RsSum(0, ys))
  {
    hide Wrap32, CharValue, PowerSum, Pow, RsSum, RsMultipliers;
    OneCharacterChangesPower(0, 131, s, i, c, signedChar);
    OneCharacterChangesPower(5381, 33, s, i, c, signedChar);
    OneCharacterChangesPower(0, 65599, s, i, c, signedChar);
    var ms := RsMultipliers(63689, |s|);
    RsMultipliersOdd(63689, |s|);
    OneCharacterChanges(0, ms, s, i, c, signedChar);
    RsClosedForm(CharValues(s, signedChar));
    RsClosedForm(CharValues(s[i := c], signedChar));
  }

  lemma {:induction false} OneCharacterChangesPower(h: uint32, m: nat, s: seq<bv8>, i: nat, c: bv8, signedChar: bool)
    requires m % 2 == 1 && i < |s| && c != s[i]
    ensures Wrap32(h * Pow(m, |s|) + PowerSum(m, CharValues(s, signedChar)))
            != Wrap32(h * Pow(m, |s|) + PowerSum(m, CharValues(s[i := c], signedChar)))
  {
    hide Wrap32, CharValue, PowerSum, Pow, CharValues;
    OneCharacterChanges(h, Repeat(m, |s|), s, i, c, signedChar);
    PowerForm(h, m, CharValues(s, signedChar));
    PowerForm(h, m, CharValues(s[i := c], signedChar));
  }

  // ----- Two neighbouring characters

  lemma TwoSteps(g: uint32, m: nat, a: int, b: int)
    ensures Wrap32(Wrap32(g * m + a) * m + b) == Wrap32(g * m * m + (a * m + b))
  {
    WrapMulAdd(g * m + a, m, b);
    assert (g * m + a) * m + b == g * m * m + (a * m + b);
  }

  lemma SmallWrapsEqual(x: int, y: int)
    requires -0x1_0000_0000 < x - y < 0x1_0000_0000
    ensures Wrap32(x) == Wrap32(y) <==> x == y
  {
  }

  /** The raw hash after two known characters at `i`, in terms of the state before them. */
  lemma {:induction false} RunThroughPair(h: uint32, m: nat, cs: seq<int>, i: nat)
    requires i + 2 <= |cs|
    ensures var g := Run(h, Repeat(m, i), cs[..i]);
            Run(h, Repeat(m, |cs|), cs)
            == Run(Wrap32(Wrap32(g * m + cs[i]) * m + cs[i + 1]), Repeat(m, |cs| - i - 2), cs[i + 2..])
  {
    hide Wrap32, Run;
    var ms := Repeat(m, |cs|);
    RunSplit(h, ms, cs, i);
    assert ms[..i] == Repeat(m, i) && ms[i..] == Repeat(m, |cs| - i);
    var g := Run(h, Repeat(m, i), cs[..i]);
    RunStep(g, m, |cs|, cs, i);
    RunStep(Wrap32(g * m + cs[i]), m, |cs|, cs, i + 1);
  }

  /**
   Exactly when two neighbouring replaced characters collide: when the change in the first, multiplied,
   is undone by the change in the second.
   */
  lemma {:induction false} NeighboursCollideIff(
    h: uint32, m: nat, s: seq<bv8>, i: nat, c: bv8, d: bv8, signedChar: bool)
    requires m % 2 == 1 && m <= 65599 && i + 2 <= |s|
    ensures Run(h, Repeat(m, |s|), CharValues(s, signedChar))
            == Run(h, Repeat(m, |s|), CharValues(s[i := c][i + 1 := d], signedChar))
            <==>
            CharValue(s[i], signedChar) * m + CharValue(s[i + 1], signedChar)
            == CharValue(c, signedChar) * m + CharValue(d, signedChar)
  {
    var xs, ys := CharValues(s, signedChar), CharValues(s[i := c][i + 1 := d], signedChar);
    assert xs[..i] == ys[..i] && xs[i + 2..] == ys[i + 2..];
    hide CharValue;
    CharsNear(s[i], c, signedChar);
    CharsNear(s[i + 1], d, signedChar);
    PairsCollideIff(h, m, xs, ys, i);
  }

  lemma {:induction false} PairsCollideIff(h: uint32, m: nat, xs: seq<int>, ys: seq<int>, i: nat)
    requires m % 2 == 1 && m <= 65599 && i + 2 <= |xs| == |ys|
    requires xs[..i] == ys[..i] && xs[i + 2..] == ys[i + 2..]
    requires -256 < xs[i] - ys[i] < 256 && -256 < xs[i + 1] - ys[i + 1] < 256
    ensures Run(h, Repeat(m, |xs|), xs) == Run(h, Repeat(m, |ys|), ys) <==>
            xs[i] * m + xs[i + 1] == ys[i] * m + ys[i + 1]
  {
    hide Wrap32, Run;
    var x, y := xs[i] * m + xs[i + 1], ys[i] * m + ys[i + 1];
    PairBound(m, xs[i], xs[i + 1], ys[i], ys[i + 1]);
    var g := Run(h, Repeat(m, i), xs[..i]);
    RunThroughPair(h, m, xs, i);
    RunThroughPair(h, m, ys, i);
    CommonTail(Wrap32(Wrap32(g * m + xs[i]) * m + xs[i + 1]), Wrap32(Wrap32(g * m + ys[i]) * m + ys[i + 1]),
               Repeat(m, |xs| - i - 2), xs[i + 2..]);
    TwoSteps(g, m, xs[i], xs[i + 1]);
    TwoSteps(g, m, ys[i], ys[i + 1]);
    WrapAddCancel(x, y, g * m * m);
    SmallWrapsEqual(x, y);
  }

  lemma PairBound(m: nat, a: int, b: int, c: int, d: int)
    requires m <= 65599 && -256 < a - c < 256 && -256 < b - d < 256
    ensures -0x1_0000_0000 < (a * m + b) - (c * m + d) < 0x1_0000_0000
  {
    assert (a * m + b) - (c * m + d) == (a - c) * m + (b - d);
    MulMonotone(a - c, 256, m);
    MulMonotone(-256, a - c, m);
  }

  /** SDBM separates every change of two neighbouring characters, and all odd multipliers separate a swap. */
  lemma {:induction false} NeighbourChangesDetected(
    h: uint32, m: nat, s: seq<bv8>, i: nat, c: bv8, d: bv8, signedChar: bool)
    requires m % 2 == 1 && 1 < m <= 65599 && i + 2 <= |s| && (c != s[i] || d != s[i + 1])
    requires m == 65599 || (c == s[i + 1] && d == s[i])
    ensures Run(h, Repeat(m, |s|), CharValues(s, signedChar))
            != Run(h, Repeat(m, |s|), CharValues(s[i := c][i + 1 := d], signedChar))
  {
    NeighboursCollideIff(h, m, s, i, c, d, signedChar);
    hide Run, CharValues, CharValue;
    CharsNear(s[i], c, signedChar);
    CharsNear(s[i + 1], d, signedChar);
    CharInjective(s[i], c, signedChar);
    CharInjective(s[i + 1], d, signedChar);
    NothingCancels(m, CharValue(s[i], signedChar), CharValue(s[i + 1], signedChar),
                   CharValue(c, signedChar), CharValue(d, signedChar));
  }

  lemma NothingCancels(m: nat, a: int, b: int, c: int, d: int)
    requires -256 < a - c < 256 && -256 < b - d < 256 && m > 1
    requires m == 65599 || (c == b && d == a)
    ensures a * m + b == c * m + d ==> a == c && b == d
  {
    if a * m + b == c * m + d {
      assert (a - c) * m == d - b;
      if m == 65599 {
        SmallMultiple(a - c, d - b);
      } else {
        ZeroProduct(a - b, m - 1);
      }
    }
  }

  lemma SmallMultiple(x: int, y: int)
    requires x * 65599 == y && -256 < y < 256
    ensures x == 0 && y == 0
  {
  }
}
