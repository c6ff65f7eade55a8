/** C strings as the hash functions see them. */
module CStrings {

  /** The bytes of a C string before its terminator. */
  type CString = s: seq<bv8> | forall i :: 0 <= i < |s| ==> s[i] != 0

  predicate IsOneAscii(str: seq<bv8>) {
    |str| == 1 && str[0] < 0x80
  }

  /** `M` of the hash file. */
  const TABLE_SIZE: nat := 249997

  /** A `char` promoted to `int`, on platforms where `char` is signed and where it is not. */
  function CharValue(c: bv8, signedChar: bool): int {
    if signedChar && c >= 0x80 then c as int - 0x100 else c as int
  }

  /** A plain `char` is its byte; a signed one is the number from -128 to 127 congruent to it modulo 256. */
  lemma CharMeaning(c: bv8)
    ensures CharValue(c, false) == c as int
    ensures -0x80 <= CharValue(c, true) < 0x80
    ensures (CharValue(c, true) - c as int) % 0x100 == 0
    ensures c < 0x80 ==> CharValue(c, true) == c as int
  {
  }

  lemma CharsNear(c: bv8, d: bv8, signedChar: bool)
    ensures -0x100 < CharValue(c, signedChar) - CharValue(d, signedChar) < 0x100
  {
  }

  lemma CharInjective(c: bv8, d: bv8, signedChar: bool)
    ensures CharValue(c, signedChar) == CharValue(d, signedChar) <==> c == d
  {
  }
}
