/**
 The routines that fill in IPv4 header and UDP checksums in place. Memory is one byte array and a
 pointer is an offset into it; the structures are packed, so fields sit at fixed offsets.
 */
module Headers {
  import opened Bytes
  import opened OnesComplement
  import opened InternetChecksum

  const IPV4_HEADER_SIZE: nat := 20
  const IPV4_PROTOCOL: nat := 9
  const IPV4_CHECKSUM: nat := 10
  const IPV4_SOURCE: nat := 12
  const IPV4_DESTINATION: nat := 16

  const IPV6_HEADER_SIZE: nat := 40
  const IPV6_NEXT_HEADER: nat := 6
  const IPV6_SOURCE: nat := 8
  const IPV6_DESTINATION: nat := 24

  const UDP_HEADER_SIZE: nat := 8
  const UDP_LENGTH: nat := 4
  const UDP_CHECKSUM: nat := 6

  /** `field = htons(v)` at offset `off`. */
  method Store16(mem: array<byte>, off: nat, v: uint16)
    requires off + 2 <= mem.Length
    modifies mem
    ensures mem[..] == Put16(old(mem[..]), off, v)
  {
    mem[off] := v / 0x100;
    mem[off + 1] := v % 0x100;
  }

  /** `(uint16_t)(~sum)` */
  function LowComplement(sum: uint32): (r: uint16)
    ensures sum < 0x1_0000 ==> r == Complement(sum)
  {
    Complement(sum % 0x1_0000)
  }

  // ----- Sealing: zero a checksum field, sum, store the complement

  /** What is stored for a text summed with a zero checksum field. */
  function SealOf(text: seq<byte>): uint16 {
    Complement(ChecksumOf(0, text))
  }

  /** Memory after the field is filled in from the sum of `prefix` and the bytes `lo..hi` with a zero field. */
  function Sealed(m: seq<byte>, field: nat, lo: nat, hi: nat, prefix: seq<byte>): (r: seq<byte>)
    requires field + 2 <= |m| && lo <= hi <= |m|
    ensures |r| == |m|
  {
    var zeroed := Put16(m, field, 0);
    Put16(zeroed, field, SealOf(prefix + zeroed[lo..hi]))
  }

  lemma SealedSteps(m: seq<byte>, field: nat, lo: nat, hi: nat, prefix: seq<byte>)
    requires field + 2 <= |m| && lo <= hi <= |m|
    ensures var zeroed := Put16(m, field, 0);
            Sealed(m, field, lo, hi, prefix)
            == Put16(zeroed, field, LowComplement(ChecksumOf(0, prefix + zeroed[lo..hi])))
  {
    hide ChecksumOf, Put16;
  }

  /** Storing the complement of a sum into a zero word of the summed bytes makes them fold to all ones. */
  lemma {:induction false} StoredComplementVerifies(s: seq<byte>, i: nat, v: uint16)
    requires i % 2 == 0 && i + 2 <= |s| && s[i] == 0 && s[i + 1] == 0
    requires |s| <= 0x1_0100
    requires v == SealOf(s)
    ensures ChecksumOf(0, Put16(s, i, v)) == 0xFFFF
  {
    hide ChecksumOf, WordSum, Fold, Put16;
    var t := Put16(s, i, v);
    LengthBoundIsSafe(0, s);
    LengthBoundIsSafe(0, t);
    ChecksumNoWrap(0, s);
    ChecksumNoWrap(0, t);
    WordSumPut(s, i, v);
    FoldWithComplement(WordSum(s));
  }

  lemma {:induction false} PutInside(m: seq<byte>, field: nat, v: uint16, lo: nat, hi: nat, prefix: seq<byte>)
    requires lo <= field && field + 2 <= hi <= |m|
    ensures prefix + Put16(m, field, v)[lo..hi] == Put16(prefix + m[lo..hi], |prefix| + field - lo, v)
  {
  }

  lemma {:induction false} SealVerifies(m: seq<byte>, field: nat, lo: nat, hi: nat, prefix: seq<byte>)
    requires lo <= field && field + 2 <= hi <= |m| && (|prefix| + field - lo) % 2 == 0
    requires |prefix| + hi - lo <= 0x1_0100
    ensures ChecksumOf(0, prefix + Sealed(m, field, lo, hi, prefix)[lo..hi]) == 0xFFFF
  {
    hide ChecksumOf, SealOf, Put16;
    PutReadsBack(m, field, 0);
    var zeroed := Put16(m, field, 0);
    SealedTextVerifies(zeroed, field, lo, hi, prefix, SealOf(prefix + zeroed[lo..hi]));
  }

  lemma {:induction false} SealedTextVerifies(
    zeroed: seq<byte>, field: nat, lo: nat, hi: nat, prefix: seq<byte>, v: uint16)
    requires lo <= field && field + 2 <= hi <= |zeroed| && (|prefix| + field - lo) % 2 == 0
    requires |prefix| + hi - lo <= 0x1_0100
    requires zeroed[field] == 0 && zeroed[field + 1] == 0
    requires v == SealOf(prefix + zeroed[lo..hi])
    ensures ChecksumOf(0, prefix + Put16(zeroed, field, v)[lo..hi]) == 0xFFFF
  {
    hide ChecksumOf, Put16, SealOf;
    PutInside(zeroed, field, v, lo, hi, prefix);
    StoredComplementVerifies(prefix + zeroed[lo..hi], |prefix| + field - lo, v);
  }

  lemma {:induction false} SealIsLocal(m: seq<byte>, field: nat, lo: nat, hi: nat, prefix: seq<byte>)
    requires field + 2 <= |m| && lo <= hi <= |m|
    ensures Sealed(m, field, lo, hi, prefix)[..field] == m[..field]
    ensures Sealed(m, field, lo, hi, prefix)[field + 2..] == m[field + 2..]
  {
    hide SealOf;
  }

  lemma {:induction false} SealIsIdempotent(m: seq<byte>, field: nat, lo: nat, hi: nat, prefix: seq<byte>)
    requires field + 2 <= |m| && lo <= hi <= |m|
    ensures Sealed(Sealed(m, field, lo, hi, prefix), field, lo, hi, prefix) == Sealed(m, field, lo, hi, prefix)
  {
    hide SealOf, Put16;
    var zeroed := Put16(m, field, 0);
    var v := SealOf(prefix + zeroed[lo..hi]);
    PutTwice(zeroed, field, v, 0);
    PutTwice(m, field, 0, 0);
  }

  // ----- IPv4 header checksum

  /** The header length in bytes, from the low four bits of the first byte. */
  function HeaderLength(versionAndLength: byte): (n: nat)
    ensures n <= 60
  {
    (versionAndLength % 0x10) * 4
  }

  /** The version in the high four bits does not matter: 0x45 is twenty bytes. */
  lemma HeaderLengthIgnoresVersion(version: nat, length: nat)
    requires version < 16 && length < 16
    ensures HeaderLength(0x10 * version + length) == 4 * length
  {
  }

  /** Memory after the header checksum at `ip` is filled in. */
  function Ipv4Filled(m: seq<byte>, ip: nat): (r: seq<byte>)
    requires ip + IPV4_HEADER_SIZE <= |m| && ip + HeaderLength(m[ip]) <= |m|
    ensures |r| == |m|
  {
    Sealed(m, ip + IPV4_CHECKSUM, ip, ip + HeaderLength(m[ip]), [])
  }

  method Ipv4HeaderChecksum(mem: array<byte>, ip: nat)
    requires ip + IPV4_HEADER_SIZE <= mem.Length && ip + HeaderLength(mem[ip]) <= mem.Length
    modifies mem
    ensures mem[..] == Ipv4Filled(old(mem[..]), ip)
    ensures mem[..ip + 10] == old(mem[..ip + 10]) && mem[ip + 12..] == old(mem[ip + 12..])
    ensures var length := mem[ip] % 0x10;
            length >= 3 ==> ChecksumOf(0, mem[ip..ip + 4 * length]) == 0xFFFF
  {
    hide ChecksumOf, Put16, Sealed, WordSum, Ipv4Filled;
    ghost var m := mem[..];
    var headLen := HeaderLength(mem[ip]);
    Store16(mem, ip + IPV4_CHECKSUM, 0);
    var sum := Checksum(0, mem, ip, headLen);
    Store16(mem, ip + IPV4_CHECKSUM, LowComplement(sum));
    Ipv4Steps(m, ip);
    Ipv4FillFacts(m, mem[..], ip);
    assert mem[ip..ip + HeaderLength(mem[ip])] == mem[..][ip..ip + HeaderLength(mem[ip])];
  }

  lemma {:induction false} Ipv4Steps(m: seq<byte>, ip: nat)
    requires ip + IPV4_HEADER_SIZE <= |m| && ip + HeaderLength(m[ip]) <= |m|
    ensures var zeroed := Put16(m, ip + IPV4_CHECKSUM, 0);
            Ipv4Filled(m, ip)
            == Put16(zeroed, ip + IPV4_CHECKSUM, LowComplement(ChecksumOf(0, zeroed[ip..ip + HeaderLength(m[ip])])))
  {
    hide ChecksumOf, HeaderLength, Put16, Sealed, LowComplement;
    var zeroed := Put16(m, ip + IPV4_CHECKSUM, 0);
    SealedSteps(m, ip + IPV4_CHECKSUM, ip, ip + HeaderLength(m[ip]), []);
    assert [] + zeroed[ip..ip + HeaderLength(m[ip])] == zeroed[ip..ip + HeaderLength(m[ip])];
  }

  lemma {:induction false} Ipv4FillFacts(m: seq<byte>, r: seq<byte>, ip: nat)
    requires ip + IPV4_HEADER_SIZE <= |m| && ip + HeaderLength(m[ip]) <= |m| && r == Ipv4Filled(m, ip)
    ensures r[..ip + IPV4_CHECKSUM] == m[..ip + IPV4_CHECKSUM]
    ensures r[ip + IPV4_CHECKSUM + 2..] == m[ip + IPV4_CHECKSUM + 2..]
    ensures r[ip] == m[ip]
    ensures HeaderLength(m[ip]) >= IPV4_CHECKSUM + 2 ==> ChecksumOf(0, r[ip..ip + HeaderLength(m[ip])]) == 0xFFFF
  {
    hide ChecksumOf, HeaderLength, WordSum, Ipv4Filled;
    Ipv4FillIsLocalAndIdempotent(m, ip);
    Ipv4FillVerifies(m, ip);
  }

  /** Only the two checksum bytes change, and filling in again changes nothing. */
  lemma {:induction false} Ipv4FillIsLocalAndIdempotent(m: seq<byte>, ip: nat)
    requires ip + IPV4_HEADER_SIZE <= |m| && ip + HeaderLength(m[ip]) <= |m|
    ensures var r := Ipv4Filled(m, ip);
            && r[..ip + IPV4_CHECKSUM] == m[..ip + IPV4_CHECKSUM]
            && r[ip + IPV4_CHECKSUM + 2..] == m[ip + IPV4_CHECKSUM + 2..]
            && r[ip] == m[ip]
            && Ipv4Filled(r, ip) == r
  {
    hide Sealed, HeaderLength;
    var r := Ipv4Filled(m, ip);
    SealIsLocal(m, ip + IPV4_CHECKSUM, ip, ip + HeaderLength(m[ip]), []);
    SealIsIdempotent(m, ip + IPV4_CHECKSUM, ip, ip + HeaderLength(m[ip]), []);
    assert r[..ip + IPV4_CHECKSUM][ip] == m[..ip + IPV4_CHECKSUM][ip];
  }

  /**
   The filled header verifies: summing it gives exactly 0xFFFF if and only if the length field
   covers the checksum field, or the few bytes it does cover already sum to a nonzero multiple of 65535.
   */
  lemma {:induction false} Ipv4FillVerifies(m: seq<byte>, ip: nat)
    requires ip + IPV4_HEADER_SIZE <= |m| && ip + HeaderLength(m[ip]) <= |m|
    ensures var n := HeaderLength(m[ip]);
            ChecksumOf(0, Ipv4Filled(m, ip)[ip..ip + n]) == 0xFFFF <==>
            || n >= IPV4_CHECKSUM + 2
            || (WordSum(m[ip..ip + n]) > 0 && WordSum(m[ip..ip + n]) % 0xFFFF == 0)
  {
    hide ChecksumOf, WordSum;
    var n := HeaderLength(m[ip]);
    var r := Ipv4Filled(m, ip);
    if n >= IPV4_CHECKSUM + 2 {
      SealVerifies(m, ip + IPV4_CHECKSUM, ip, ip + n, []);
      assert [] + r[ip..ip + n] == r[ip..ip + n];
    } else {
      assert n <= 8;
      SealIsLocal(m, ip + IPV4_CHECKSUM, ip, ip + n, []);
      assert r[ip..ip + n] == r[..ip + IPV4_CHECKSUM][ip..ip + n];
      assert m[ip..ip + n] == m[..ip + IPV4_CHECKSUM][ip..ip + n];
      ShortSumIsAllOnes(m[ip..ip + n]);
    }
  }

  lemma {:induction false} ShortSumIsAllOnes(s: seq<byte>)
    requires |s| <= 8
    ensures ChecksumOf(0, s) == 0xFFFF <==> WordSum(s) > 0 && WordSum(s) % 0xFFFF == 0
  {
    hide WordSum, Fold;
    LengthBoundIsSafe(0, s);
    if s == [] {
      WordSumHead(s);
    } else {
      ChecksumNoWrap(0, s);
      FoldNormalForm(WordSum(s));
      if WordSum(s) != 0 { ResidueIsCongruent(WordSum(s)); }
    }
  }

  /** For every version and every length that covers the field, the bytes the header counts sum to all ones. */
  lemma {:induction false} Ipv4FilledSumsToOnes(m: seq<byte>, ip: nat, version: nat, length: nat)
    requires ip + IPV4_HEADER_SIZE <= |m| && ip + 4 * length <= |m|
    requires version < 16 && 3 <= length < 16 && m[ip] == 0x10 * version + length
    ensures HeaderLength(m[ip]) == 4 * length
    ensures var r := Ipv4Filled(m, ip);
            && ChecksumOf(0, r[ip..ip + 4 * length]) == 0xFFFF
            && r[..ip + 10] == m[..ip + 10] && r[ip + 12..] == m[ip + 12..]
  {
    hide ChecksumOf, WordSum, Ipv4Filled;
    HeaderLengthIgnoresVersion(version, length);
    Ipv4FillFacts(m, Ipv4Filled(m, ip), ip);
  }

  /** A header with a zero checksum field, from 192.168.0.1 to 192.168.0.199. */
  function ExampleHeader(): (m: seq<byte>)
    ensures |m| == 20
  {
    [0x45, 0, 0, 0x73, 0, 0, 0x40, 0, 0x40, 0x11, 0, 0, 0xC0, 0xA8, 0, 1, 0xC0, 0xA8, 0, 0xC7]
  }

  lemma ExampleSum()
    ensures WordSum(ExampleHeader()) == 0x2_479C
  {
    hide WordSum;
    var a, b, c := [0x45, 0, 0, 0x73], [0, 0, 0x40, 0], [0x40, 0x11, 0, 0];
    var d, e := [0xC0, 0xA8, 0, 1], [0xC0, 0xA8, 0, 0xC7];
    WordSumOfFour(0x45, 0, 0, 0x73);
    WordSumOfFour(0, 0, 0x40, 0);
    WordSumOfFour(0x40, 0x11, 0, 0);
    WordSumOfFour(0xC0, 0xA8, 0, 1);
    WordSumOfFour(0xC0, 0xA8, 0, 0xC7);
    WordSumAppend(a, b);
    WordSumAppend(a + b, c);
    WordSumAppend(a + b + c, d);
    WordSumAppend(a + b + c + d, e);
    assert ExampleHeader() == a + b + c + d + e;
  }

  /** Its checksum is 0xB861. */
  lemma Ipv4FillExample()
    ensures Ipv4Filled(ExampleHeader(), 0) == ExampleHeader()[10 := 0xB8][11 := 0x61]
  {
    var m := ExampleHeader();
    assert HeaderLength(m[0]) == 20;
    assert Put16(m, 10, 0) == m && [] + m[0..20] == m;
    hide WordSum, ChecksumOf, ExampleHeader, HeaderLength;
    ExampleSum();
    LengthBoundIsSafe(0, m);
    ChecksumNoWrap(0, m);
    FoldNormalForm(0x2_479C);
    assert SealOf(m) == 0xB861;
  }

  /** An all-zero header claims no length at all, and its filled form does not verify. */
  lemma Ipv4FillWitness()
    ensures var m: seq<byte> := seq(IPV4_HEADER_SIZE, _ => 0);
            ChecksumOf(0, Ipv4Filled(m, 0)[..HeaderLength(m[0])]) != 0xFFFF
  {
  }

  // ----- UDP checksum

  /** The pseudo-header of RFC 768: source, destination, zero, protocol, UDP length. */
  function PseudoHeader4(source: seq<byte>, destination: seq<byte>, protocol: byte, udpLen: uint16): seq<byte> {
    source + destination + [0, protocol] + Network16(udpLen)
  }

  /** The pseudo-header of section 8.1 of RFC 8200: source, destination, 32-bit length, zero, next header. */
  function PseudoHeader6(source: seq<byte>, destination: seq<byte>, nextHeader: byte, udpLen: uint16): seq<byte> {
    source + destination + [0, 0] + Network16(udpLen) + [0, 0, 0, nextHeader]
  }

  /**
   Memory after a datagram at `udp` is completed: the length is stored, and the checksum is the
   complement of one `Checksum` over the pseudo-header followed by the datagram with a zero field.
   */
  function UdpFilled(m: seq<byte>, udp: nat, udpLen: uint16, pseudo: seq<byte>): (r: seq<byte>)
    requires UDP_HEADER_SIZE <= udpLen && udp + udpLen <= |m|
    ensures |r| == |m|
  {
    Sealed(Put16(m, udp + UDP_LENGTH, udpLen), udp + UDP_CHECKSUM, udp, udp + udpLen, pseudo)
  }

  /** The sum built in stages is one fold of everything added together. */
  lemma {:induction false} StagedSum(
    udpLen: uint16, source: seq<byte>, destination: seq<byte>, protocol: byte, data: seq<byte>)
    requires |source| == |destination| && (|source| == 4 || |source| == 16)
    requires 0 < |data| <= 0xFFFF
    ensures var pseudo := ChecksumOf(ChecksumOf(udpLen, source), destination);
            ChecksumOf(pseudo + protocol, data) ==
            Fold(udpLen + WordSum(source) + WordSum(destination) + protocol + WordSum(data))
  {
    hide ChecksumOf, WordSum, Fold;
    var a, b, d := WordSum(source), WordSum(destination), WordSum(data);
    LengthBoundIsSafe(udpLen, source);
    ChecksumNoWrap(udpLen, source);
    var first := ChecksumOf(udpLen, source);
    LengthBoundIsSafe(first, destination);
    ChecksumNoWrap(first, destination);
    FoldAbsorbs(udpLen + a, b);
    var second := ChecksumOf(first, destination);
    assert second == Fold(udpLen + a + b);
    LengthBoundIsSafe(second + protocol, data);
    ChecksumNoWrap(second + protocol, data);
    FoldAbsorbs(udpLen + a + b, protocol + d);
  }

  lemma {:induction false} PseudoHeaderSums(source: seq<byte>, destination: seq<byte>, protocol: byte, udpLen: uint16)
    requires |source| % 2 == 0 && |destination| % 2 == 0
    ensures WordSum(PseudoHeader4(source, destination, protocol, udpLen))
            == WordSum(source) + WordSum(destination) + protocol as nat + udpLen as nat
    ensures WordSum(PseudoHeader6(source, destination, protocol, udpLen))
            == WordSum(source) + WordSum(destination) + protocol as nat + udpLen as nat
  {
    hide WordSum;
    WordSumAppend(source, destination);
    WordSumOfWord(0, protocol);
    WordSumOfWord(udpLen / 0x100, udpLen % 0x100);
    WordSumOfWord(0, 0);
    var ends, len := source + destination, Network16(udpLen);
    WordSumOfThree(ends, [0, protocol], len);
    WordSumOfThree(ends, [0, 0], len);
    WordSumAppend([0, 0], [0, protocol]);
    assert [0, 0] + [0, protocol] == [0, 0, 0, protocol];
    WordSumAppend(ends + [0, 0] + len, [0, 0, 0, protocol]);
  }

  lemma {:induction false} WordSumOfThree(a: seq<byte>, b: seq<byte>, c: seq<byte>)
    requires |a| % 2 == 0 && |b| == 2
    ensures WordSum(a + b + c) == WordSum(a) + WordSum(b) + WordSum(c)
  {
    hide WordSum;
    WordSumAppend(a, b);
    WordSumAppend(a + b, c);
  }

  /**
   Staged equals one-shot, for both address families: length, source, destination and protocol added
   with folds in between give one `Checksum` over the standard's pseudo-header and the datagram.
   */
  lemma {:induction false} StagedIsOneShot(
    udpLen: uint16, source: seq<byte>, destination: seq<byte>, protocol: byte, data: seq<byte>)
    requires |source| == |destination| && (|source| == 4 || |source| == 16)
    requires 0 < |data| <= 0xFFFF
    ensures var staged := ChecksumOf(ChecksumOf(ChecksumOf(udpLen, source), destination) + protocol, data);
            && staged == ChecksumOf(0, PseudoHeader4(source, destination, protocol, udpLen) + data)
            && staged == ChecksumOf(0, PseudoHeader6(source, destination, protocol, udpLen) + data)
  {
    hide ChecksumOf, WordSum, Fold;
    StagedSum(udpLen, source, destination, protocol, data);
    PseudoHeaderSums(source, destination, protocol, udpLen);
    OneShotSum(PseudoHeader4(source, destination, protocol, udpLen), data);
    OneShotSum(PseudoHeader6(source, destination, protocol, udpLen), data);
  }

  lemma {:induction false} OneShotSum(pseudo: seq<byte>, data: seq<byte>)
    requires |pseudo| % 2 == 0 && |pseudo| <= 40 && 0 < |data| <= 0xFFFF
    ensures ChecksumOf(0, pseudo + data) == Fold(WordSum(pseudo) + WordSum(data))
  {
    hide ChecksumOf, WordSum, Fold;
    WordSumAppend(pseudo, data);
    LengthBoundIsSafe(0, pseudo + data);
    ChecksumNoWrap(0, pseudo + data);
  }

  // ----- The routines in memory

  /** Where an IP header keeps its addresses and its protocol number. */
  datatype Layout = Layout(source: nat, destination: nat, addrLen: nat, protocol: nat)

  function Layout4(ip: nat): Layout {
    Layout(ip + IPV4_SOURCE, ip + IPV4_DESTINATION, 4, ip + IPV4_PROTOCOL)
  }

  function Layout6(ip: nat): Layout {
    Layout(ip + IPV6_SOURCE, ip + IPV6_DESTINATION, 16, ip + IPV6_NEXT_HEADER)
  }

  predicate Within(at: Layout, size: nat) {
    && (at.addrLen == 4 || at.addrLen == 16)
    && at.source + at.addrLen <= size && at.destination + at.addrLen <= size && at.protocol < size
  }

  /** The length field written first is none of the bytes read from the IP header. */
  predicate Apart(at: Layout, udp: nat) {
    && (at.source + at.addrLen <= udp + UDP_LENGTH || udp + UDP_CHECKSUM <= at.source)
    && (at.destination + at.addrLen <= udp + UDP_LENGTH || udp + UDP_CHECKSUM <= at.destination)
    && (at.protocol < udp + UDP_LENGTH || udp + UDP_CHECKSUM <= at.protocol)
  }

  function Pseudo4(m: seq<byte>, at: Layout, udpLen: uint16): seq<byte>
    requires Within(at, |m|)
  {
    PseudoHeader4(m[at.source..at.source + at.addrLen], m[at.destination..at.destination + at.addrLen],
                  m[at.protocol], udpLen)
  }

  function Pseudo6(m: seq<byte>, at: Layout, udpLen: uint16): seq<byte>
    requires Within(at, |m|)
  {
    PseudoHeader6(m[at.source..at.source + at.addrLen], m[at.destination..at.destination + at.addrLen],
                  m[at.protocol], udpLen)
  }

  /** The sum of the pseudo-header as the stages form it. */
  function StagedPseudoSum(m: seq<byte>, at: Layout, udpLen: nat): uint32
    requires Within(at, |m|)
  {
    ChecksumOf(ChecksumOf(Wrap32(udpLen), m[at.source..at.source + at.addrLen]),
               m[at.destination..at.destination + at.addrLen]) + m[at.protocol]
  }

  /** Memory after the stages, for any length: the length is truncated to its field and to 32 bits. */
  function StagedFill(m: seq<byte>, at: Layout, udp: nat, udpLen: nat): (r: seq<byte>)
    requires Within(at, |m|) && udp + UDP_HEADER_SIZE <= |m| && udp + udpLen <= |m|
    ensures |r| == |m|
  {
    var sized := Put16(m, udp + UDP_LENGTH, udpLen % 0x1_0000);
    var zeroed := Put16(sized, udp + UDP_CHECKSUM, 0);
    SizeFits(udpLen);
    var sum := ChecksumOf(StagedPseudoSum(sized, at, udpLen), zeroed[udp..udp + Wrap32(udpLen)]);
    Put16(zeroed, udp + UDP_CHECKSUM, LowComplement(sum))
  }

  lemma SizeFits(udpLen: nat)
    ensures Wrap32(udpLen) <= udpLen
    ensures udpLen <= 0xFFFF ==> Wrap32(udpLen) == udpLen && udpLen % 0x1_0000 == udpLen
  {
  }

  /** Whatever the length, its low sixteen bits are stored and no byte but those of length and checksum changes. */
  lemma {:induction false} StagedFillIsLocal(m: seq<byte>, at: Layout, udp: nat, udpLen: nat)
    requires Within(at, |m|) && udp + UDP_HEADER_SIZE <= |m| && udp + udpLen <= |m|
    ensures var r := StagedFill(m, at, udp, udpLen);
            && r[..udp + 4] == m[..udp + 4] && r[udp + 8..] == m[udp + 8..]
            && Word16(Big, r[udp + 4], r[udp + 5]) == udpLen % 0x1_0000
  {
    hide ChecksumOf, StagedPseudoSum, Wrap32, LowComplement;
    PutReadsBack(m, udp + UDP_LENGTH, udpLen % 0x1_0000);
  }

  /** For the lengths and placements the routines are meant for, the stages are the one-shot sum of either standard. */
  lemma {:induction false} StagedFillIsOneShot(m: seq<byte>, at: Layout, udp: nat, udpLen: uint16)
    requires Within(at, |m|) && udp + udpLen <= |m|
    requires UDP_HEADER_SIZE <= udpLen && Apart(at, udp)
    ensures StagedFill(m, at, udp, udpLen) == UdpFilled(m, udp, udpLen, Pseudo4(m, at, udpLen))
    ensures StagedFill(m, at, udp, udpLen) == UdpFilled(m, udp, udpLen, Pseudo6(m, at, udpLen))
  {
    hide ChecksumOf, PseudoHeader4, PseudoHeader6, Put16, Sealed, Wrap32, LowComplement;
    SizeFits(udpLen);
    var sized := Put16(m, udp + UDP_LENGTH, udpLen);
    PutLeaves(m, udp + UDP_LENGTH, udpLen, at.source, at.addrLen);
    PutLeaves(m, udp + UDP_LENGTH, udpLen, at.destination, at.addrLen);
    SealedSteps(sized, udp + UDP_CHECKSUM, udp, udp + udpLen, Pseudo4(m, at, udpLen));
    SealedSteps(sized, udp + UDP_CHECKSUM, udp, udp + udpLen, Pseudo6(m, at, udpLen));
    var zeroed := Put16(sized, udp + UDP_CHECKSUM, 0);
    StagedIsOneShot(udpLen, m[at.source..at.source + at.addrLen], m[at.destination..at.destination + at.addrLen],
                    m[at.protocol], zeroed[udp..udp + udpLen]);
  }

  lemma PutLeaves(m: seq<byte>, off: nat, v: uint16, lo: nat, n: nat)
    requires off + 2 <= |m| && lo + n <= |m| && (lo + n <= off || off + 2 <= lo)
    ensures Put16(m, off, v)[lo..lo + n] == m[lo..lo + n]
  {
  }

  /** Length, source, destination and protocol, each sum folded before the next is added. */
  method SumPseudoHeader(mem: array<byte>, at: Layout, udpLen: nat) returns (sum: uint32)
    requires Within(at, mem.Length)
    ensures sum == StagedPseudoSum(mem[..], at, udpLen)
  {
    hide ChecksumOf, Wrap32;
    assert mem[at.source..at.source + at.addrLen] == mem[..][at.source..at.source + at.addrLen];
    assert mem[at.destination..at.destination + at.addrLen] == mem[..][at.destination..at.destination + at.addrLen];
    sum := Wrap32(udpLen);
    sum := Checksum(sum, mem, at.source, at.addrLen);
    sum := Checksum(sum, mem, at.destination, at.addrLen);
    sum := sum + mem[at.protocol];
  }

  /** The statements the two routines share; they differ only in where the IP header keeps its fields. */
  method FillInStages(mem: array<byte>, at: Layout, udp: nat, udpLen: nat)
    requires Within(at, mem.Length) && udp + UDP_HEADER_SIZE <= mem.Length && udp + udpLen <= mem.Length
    modifies mem
    ensures mem[..] == StagedFill(old(mem[..]), at, udp, udpLen)
  {
    hide ChecksumOf, Put16, LowComplement, Wrap32, StagedPseudoSum;
    Store16(mem, udp + UDP_LENGTH, udpLen % 0x1_0000);
    var sum := SumPseudoHeader(mem, at, udpLen);
    Store16(mem, udp + UDP_CHECKSUM, 0);
    SizeFits(udpLen);
    assert mem[udp..udp + Wrap32(udpLen)] == mem[..][udp..udp + Wrap32(udpLen)];
    sum := Checksum(sum, mem, udp, Wrap32(udpLen));
    Store16(mem, udp + UDP_CHECKSUM, LowComplement(sum));
  }

  /**
   Any length and any placement in memory: what the stages leave. For a length that counts the header and
   fits its field, and an IP header the length field does not fall into, that is the one-shot result.
   */
  method Udp4HeaderChecksum(mem: array<byte>, ip: nat, udp: nat, udpLen: nat)
    requires ip + IPV4_HEADER_SIZE <= mem.Length
    requires udp + UDP_HEADER_SIZE <= mem.Length && udp + udpLen <= mem.Length
    modifies mem
    ensures mem[..] == StagedFill(old(mem[..]), Layout4(ip), udp, udpLen)
    ensures mem[..udp + 4] == old(mem[..udp + 4]) && mem[udp + 8..] == old(mem[udp + 8..])
    ensures Word16(Big, mem[udp + 4], mem[udp + 5]) == udpLen % 0x1_0000
    ensures UDP_HEADER_SIZE <= udpLen <= 0xFFFF && Apart(Layout4(ip), udp) ==>
              mem[..] == UdpFilled(old(mem[..]), udp, udpLen, Pseudo4(old(mem[..]), Layout4(ip), udpLen))
  {
    hide StagedFill, UdpFilled, Apart, Pseudo4, Pseudo6;
    ghost var m := mem[..];
    FillInStages(mem, Layout4(ip), udp, udpLen);
    StagedFillIsLocal(m, Layout4(ip), udp, udpLen);
    if UDP_HEADER_SIZE <= udpLen <= 0xFFFF && Apart(Layout4(ip), udp) {
      StagedFillIsOneShot(m, Layout4(ip), udp, udpLen);
    }
  }

  method Udp6HeaderChecksum(mem: array<byte>, ip: nat, udp: nat, udpLen: nat)
    requires ip + IPV6_HEADER_SIZE <= mem.Length
    requires udp + UDP_HEADER_SIZE <= mem.Length && udp + udpLen <= mem.Length
    modifies mem
    ensures mem[..] == StagedFill(old(mem[..]), Layout6(ip), udp, udpLen)
    ensures mem[..udp + 4] == old(mem[..udp + 4]) && mem[udp + 8..] == old(mem[udp + 8..])
    ensures Word16(Big, mem[udp + 4], mem[udp + 5]) == udpLen % 0x1_0000
    ensures UDP_HEADER_SIZE <= udpLen <= 0xFFFF && Apart(Layout6(ip), udp) ==>
              mem[..] == UdpFilled(old(mem[..]), udp, udpLen, Pseudo6(old(mem[..]), Layout6(ip), udpLen))
  {
    hide StagedFill, UdpFilled, Apart, Pseudo4, Pseudo6;
    ghost var m := mem[..];
    FillInStages(mem, Layout6(ip), udp, udpLen);
    StagedFillIsLocal(m, Layout6(ip), udp, udpLen);
    if UDP_HEADER_SIZE <= udpLen <= 0xFFFF && Apart(Layout6(ip), udp) {
      StagedFillIsOneShot(m, Layout6(ip), udp, udpLen);
    }
  }

  /**
   A completed datagram differs from the original only in its length and checksum fields, carries its
   own length, and is accepted: pseudo-header and datagram together sum to exactly 0xFFFF.
   */
  lemma {:induction false} UdpFillVerifies(m: seq<byte>, udp: nat, udpLen: uint16, pseudo: seq<byte>)
    requires UDP_HEADER_SIZE <= udpLen && udp + udpLen <= |m|
    requires |pseudo| % 2 == 0 && |pseudo| <= 40
    ensures var r := UdpFilled(m, udp, udpLen, pseudo);
            && r[..udp + UDP_LENGTH] == m[..udp + UDP_LENGTH]
            && r[udp + UDP_HEADER_SIZE..] == m[udp + UDP_HEADER_SIZE..]
            && Word16(Big, r[udp + UDP_LENGTH], r[udp + UDP_LENGTH + 1]) == udpLen
            && ChecksumOf(0, pseudo + r[udp..udp + udpLen]) == 0xFFFF
  {
    hide ChecksumOf, Sealed;
    PutReadsBack(m, udp + UDP_LENGTH, udpLen);
    var sized := Put16(m, udp + UDP_LENGTH, udpLen);
    SealIsLocal(sized, udp + UDP_CHECKSUM, udp, udp + udpLen, pseudo);
    SealVerifies(sized, udp + UDP_CHECKSUM, udp, udp + udpLen, pseudo);
    var r := UdpFilled(m, udp, udpLen, pseudo);
    assert r[..udp + UDP_CHECKSUM][udp + UDP_LENGTH..] == sized[udp + UDP_LENGTH..udp + UDP_CHECKSUM];
    assert r[..udp + UDP_LENGTH] == r[..udp + UDP_CHECKSUM][..udp + UDP_LENGTH] == m[..udp + UDP_LENGTH];
    assert r[udp + UDP_HEADER_SIZE..] == sized[udp + UDP_HEADER_SIZE..] == m[udp + UDP_HEADER_SIZE..];
  }

  /**
   The routine never replaces a computed zero by all ones as RFC 768 and section 8.1 of RFC 8200 ask:
   the stored field is zero, which those standards read as "no checksum", if and only if the words
   summed are a multiple of 65535.
   */
  lemma {:induction false} UdpStoresZeroIff(m: seq<byte>, udp: nat, udpLen: uint16, pseudo: seq<byte>)
    requires UDP_HEADER_SIZE <= udpLen && udp + udpLen <= |m|
    requires |pseudo| % 2 == 0 && |pseudo| <= 40
    ensures var r := UdpFilled(m, udp, udpLen, pseudo);
            var zeroed := Put16(Put16(m, udp + UDP_LENGTH, udpLen), udp + UDP_CHECKSUM, 0);
            Word16(Big, r[udp + UDP_CHECKSUM], r[udp + UDP_CHECKSUM + 1]) == 0 <==>
            (WordSum(pseudo) + WordSum(zeroed[udp..udp + udpLen])) % 0xFFFF == 0
  {
    hide WordSum, ChecksumOf, Put16, Fold;
    var sized := Put16(m, udp + UDP_LENGTH, udpLen);
    var zeroed := Put16(sized, udp + UDP_CHECKSUM, 0);
    var data := zeroed[udp..udp + udpLen];
    PutReadsBack(zeroed, udp + UDP_CHECKSUM, SealOf(pseudo + data));
    PutReadsBack(m, udp + UDP_LENGTH, udpLen);
    OneShotSum(pseudo, data);
    assert WordSum(data) > 0 by {
      assert data[UDP_LENGTH] == sized[udp + UDP_LENGTH] && data[UDP_LENGTH + 1] == sized[udp + UDP_LENGTH + 1];
      WordSumPositive(data, UDP_LENGTH);
    }
    FoldIsAllOnes(WordSum(pseudo) + WordSum(data));
  }

  lemma {:induction false} WordSumPositive(s: seq<byte>, i: nat)
    requires i % 2 == 0 && i + 2 <= |s| && Word16(Big, s[i], s[i + 1]) > 0
    ensures WordSum(s) > 0
  {
    hide WordSum;
    assert s == s[..i] + s[i..];
    WordSumAppend(s[..i], s[i..]);
    WordSumHead(s[i..]);
  }

  /** A datagram for which that happens: no content, from 0.0.0.0 to 0.0.117.30 with the senders' ports. */
  lemma UdpStoresZeroWitness()
    ensures var m := [0x31, 0xD8, 0x58, 0xE8, 0, 8, 0, 0];
            UdpFilled(m, 0, 8, PseudoHeader4([0, 0, 0, 0], [0, 0, 117, 30], 17, 8)) == m
  {
    hide WordSum, ChecksumOf;
    var m := [0x31, 0xD8, 0x58, 0xE8, 0, 8, 0, 0];
    var source, destination := [0, 0, 0, 0], [0, 0, 117, 30];
    var pseudo := PseudoHeader4(source, destination, 17, 8);
    PseudoHeaderSums(source, destination, 17, 8);
    WordSumOfFour(0, 0, 0, 0);
    WordSumOfFour(0, 0, 117, 30);
    WordSumOfFour(0x31, 0xD8, 0x58, 0xE8);
    WordSumOfFour(0, 8, 0, 0);
    WordSumAppend(m[..4], m[4..]);
    assert m == m[..4] + m[4..] && m[..4] == [0x31, 0xD8, 0x58, 0xE8] && m[4..] == [0, 8, 0, 0];
    OneShotSum(pseudo, m);
    FoldIsAllOnes(0xFFFF);
    assert Put16(Put16(m, UDP_LENGTH, 8), UDP_CHECKSUM, 0) == m && m[0..8] == m;
    assert SealOf(pseudo + m) == 0;
  }
}
