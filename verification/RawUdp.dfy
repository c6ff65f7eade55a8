/**
 The raw UDP senders: they lay an IP header and a UDP header out in one static buffer, complete the
 checksum in place and hand the datagram (without the IP header) to the socket.
 */
module RawUdp {
  import opened Bytes
  import opened OnesComplement
  import opened InternetChecksum
  import opened ErrorDetection
  import opened Headers

  const BUFFER_SIZE: nat := 4096

  /** Where the content of a datagram starts in the buffer, behind either pair of headers. */
  const CONTENT6: nat := IPV6_HEADER_SIZE + UDP_HEADER_SIZE
  const CONTENT4: nat := IPV4_HEADER_SIZE + UDP_HEADER_SIZE

  const IPPROTO_UDP: byte := 17
  const SOURCE_PORT: uint16 := 12760
  const DESTINATION_PORT: uint16 := 22760

  /** A receiver's check: pseudo-header and datagram, with the length that arrived, fold to all ones. */
  predicate Accepts4(from: seq<byte>, to: seq<byte>, datagram: seq<byte>)
    requires |datagram| <= 0xFFFF
  {
    ChecksumOf(0, PseudoHeader4(from, to, IPPROTO_UDP, |datagram|) + datagram) == 0xFFFF
  }

  predicate Accepts6(from: seq<byte>, to: seq<byte>, datagram: seq<byte>)
    requires |datagram| <= 0xFFFF
  {
    ChecksumOf(0, PseudoHeader6(from, to, IPPROTO_UDP, |datagram|) + datagram) == 0xFFFF
  }

  /** The fixed fields of a datagram that is well formed and carries its own true length. */
  predicate WellFormed(datagram: seq<byte>, content: seq<byte>) {
    && |datagram| == UDP_HEADER_SIZE + |content|
    && Word16(Big, datagram[0], datagram[1]) == SOURCE_PORT
    && Word16(Big, datagram[2], datagram[3]) == DESTINATION_PORT
    && Word16(Big, datagram[4], datagram[5]) == |datagram|
    && datagram[UDP_HEADER_SIZE..] == content
  }

  /** The IPv6 header as laid out in the buffer (section 3 of RFC 8200). */
  function Ipv6Header(from: seq<byte>, to: seq<byte>, payloadLen: uint16): seq<byte> {
    [0x60, 0, 0, 0] + Network16(payloadLen) + [IPPROTO_UDP, 128] + from + to
  }

  /** The IPv4 header as laid out in the buffer; its own checksum field stays zero. */
  function Ipv4Header(from: seq<byte>, to: seq<byte>, totalLen: uint16): seq<byte> {
    [0x45, 0] + Network16(totalLen) + [0, 0, 0, 0, 128, IPPROTO_UDP, 0, 0] + from + to
  }

  /** `memset(p, 0, n)` at the start of the buffer. */
  method Clear(pkt: array<byte>, n: nat)
    requires n <= pkt.Length
    modifies pkt
    ensures pkt[..n] == seq(n, _ => 0) && pkt[n..] == old(pkt[n..])
  {
    forall i | 0 <= i < n {
      pkt[i] := 0;
    }
  }

  /** `memcpy(pkt + at, src, |src|)` */
  method Copy(pkt: array<byte>, at: nat, src: seq<byte>)
    requires at + |src| <= pkt.Length
    modifies pkt
    ensures pkt[..] == old(pkt[..at]) + src + old(pkt[at + |src|..])
  {
    forall i | 0 <= i < |src| {
      pkt[at + i] := src[i];
    }
  }

  /** A UDP header with the given length and a zero checksum. */
  function UdpHeader(reqLen: uint16): (h: seq<byte>)
    ensures |h| == UDP_HEADER_SIZE
  {
    Network16(SOURCE_PORT) + Network16(DESTINATION_PORT) + Network16(reqLen) + [0, 0]
  }

  /** The UDP header's ports, length and zero checksum, stored at `udp`. */
  method StartDatagram(pkt: array<byte>, udp: nat, reqLen: uint16)
    requires udp + UDP_HEADER_SIZE <= pkt.Length
    modifies pkt
    ensures pkt[..] == old(pkt[..udp]) + UdpHeader(reqLen) + old(pkt[udp + UDP_HEADER_SIZE..])
  {
    Store16(pkt, udp, SOURCE_PORT);
    Store16(pkt, udp + 2, DESTINATION_PORT);
    Store16(pkt, udp + UDP_LENGTH, reqLen);
    Store16(pkt, udp + UDP_CHECKSUM, 0);
  }

  /** Completing a started datagram behind any header leaves a sound one, and nothing else changes. */
  lemma {:induction false} CompletedIsSound(
    header: seq<byte>, content: seq<byte>, rest: seq<byte>, reqLen: uint16, pseudo: seq<byte>)
    requires reqLen == UDP_HEADER_SIZE + |content|
    requires |pseudo| % 2 == 0 && |pseudo| <= 40
    ensures var r := UdpFilled(header + UdpHeader(reqLen) + content + rest, |header|, reqLen, pseudo);
            var sent := r[|header|..|header| + reqLen];
            && r == header + sent + rest
            && WellFormed(sent, content)
            && ChecksumOf(0, pseudo + sent) == 0xFFFF
  {
    hide UdpFilled, ChecksumOf, UdpHeader, Word16;
    var m, udp := header + UdpHeader(reqLen) + content + rest, |header|;
    var r := UdpFilled(m, udp, reqLen, pseudo);
    UdpFillVerifies(m, udp, reqLen, pseudo);
    UdpHeaderFields(reqLen);
    DatagramSlices(r, header, UdpHeader(reqLen), content, rest);
  }

  /** If only the last four bytes of the UDP header change, everything around them is where it was. */
  lemma {:induction false} DatagramSlices(
    r: seq<byte>, header: seq<byte>, udpHeader: seq<byte>, content: seq<byte>, rest: seq<byte>)
    requires |udpHeader| == UDP_HEADER_SIZE && |r| == |header + udpHeader + content + rest|
    requires r[..|header| + UDP_LENGTH] == (header + udpHeader + content + rest)[..|header| + UDP_LENGTH]
    requires r[|header| + UDP_HEADER_SIZE..] == (header + udpHeader + content + rest)[|header| + UDP_HEADER_SIZE..]
    ensures var sent := r[|header|..|header| + UDP_HEADER_SIZE + |content|];
            && r == header + sent + rest
            && sent[UDP_HEADER_SIZE..] == content
            && forall i :: 0 <= i < UDP_LENGTH ==> sent[i] == udpHeader[..UDP_LENGTH][i]
  {
    var n := |header|;
    AfterHead(header, udpHeader, content, rest);
    HeadSlice(r, header, udpHeader, content + rest);
    InnerSlices(r, n, UDP_HEADER_SIZE, |content|);
    assert (content + rest)[..|content|] == content && (content + rest)[|content|..] == rest;
  }

  lemma {:induction false} AfterHead(header: seq<byte>, udpHeader: seq<byte>, content: seq<byte>, rest: seq<byte>)
    requires |udpHeader| == UDP_HEADER_SIZE
    ensures header + udpHeader + content + rest == header + udpHeader + (content + rest)
    ensures (header + udpHeader + content + rest)[|header| + UDP_HEADER_SIZE..] == content + rest
  {
  }

  lemma InnerSlices(r: seq<byte>, n: nat, k: nat, len: nat)
    requires n + k + len <= |r|
    ensures r[n..n + k + len][k..] == r[n + k..][..len]
    ensures r[n + k + len..] == r[n + k..][len..]
    ensures r == r[..n] + r[n..n + k + len] + r[n + k + len..]
  {
  }

  lemma {:induction false} HeadSlice(r: seq<byte>, header: seq<byte>, udpHeader: seq<byte>, after: seq<byte>)
    requires |udpHeader| == UDP_HEADER_SIZE && |r| == |header + udpHeader + after|
    requires r[..|header| + UDP_LENGTH] == (header + udpHeader + after)[..|header| + UDP_LENGTH]
    ensures r[..|header|] == header
    ensures forall i :: 0 <= i < UDP_LENGTH ==> r[|header| + i] == udpHeader[..UDP_LENGTH][i]
  {
    var k := |header| + UDP_LENGTH;
    assert forall i :: 0 <= i < k ==> r[..k][i] == r[i];
  }

  lemma UdpHeaderFields(reqLen: uint16)
    ensures var h := UdpHeader(reqLen)[..UDP_LENGTH];
            Word16(Big, h[0], h[1]) == SOURCE_PORT && Word16(Big, h[2], h[3]) == DESTINATION_PORT
  {
  }

  lemma SplitBody(m: seq<byte>, header: nat, n: nat)
    requires header + UDP_HEADER_SIZE + n <= |m|
    ensures m[header..][UDP_HEADER_SIZE..UDP_HEADER_SIZE + n]
            == m[header + UDP_HEADER_SIZE..header + UDP_HEADER_SIZE + n]
    ensures m[header..][UDP_HEADER_SIZE + n..] == m[header + UDP_HEADER_SIZE + n..]
  {
  }

  lemma {:induction false} StartedLayout(header: seq<byte>, body: seq<byte>, udpHeader: seq<byte>, n: nat)
    requires |udpHeader| == UDP_HEADER_SIZE && UDP_HEADER_SIZE + n <= |body|
    ensures var m := header + body;
            m[..|header|] + udpHeader + m[|header| + UDP_HEADER_SIZE..]
            == header + udpHeader + body[UDP_HEADER_SIZE..UDP_HEADER_SIZE + n] + body[UDP_HEADER_SIZE + n..]
  {
  }

  /** The laid-out header yields the pseudo-header of the given addresses, and lies apart from the datagram. */
  lemma {:induction false} Ipv6HeaderFields(m: seq<byte>, from: seq<byte>, to: seq<byte>, len: uint16, udpLen: uint16)
    requires |from| == 16 && |to| == 16 && Ipv6Header(from, to, len) <= m
    ensures |Ipv6Header(from, to, len)| == IPV6_HEADER_SIZE
    ensures Pseudo6(m, Layout6(0), udpLen) == PseudoHeader6(from, to, IPPROTO_UDP, udpLen)
    ensures Apart(Layout6(0), IPV6_HEADER_SIZE)
    ensures |PseudoHeader6(from, to, IPPROTO_UDP, udpLen)| % 2 == 0
    ensures |PseudoHeader6(from, to, IPPROTO_UDP, udpLen)| <= 40
  {
    hide PseudoHeader6;
    var header := Ipv6Header(from, to, len);
    assert m[IPV6_SOURCE..IPV6_SOURCE + 16] == header[IPV6_SOURCE..IPV6_SOURCE + 16] == from;
    assert m[IPV6_DESTINATION..IPV6_DESTINATION + 16] == header[IPV6_DESTINATION..] == to;
    assert m[IPV6_NEXT_HEADER] == header[IPV6_NEXT_HEADER] == IPPROTO_UDP;
    PseudoSize6(from, to, udpLen);
  }

  lemma PseudoSize6(from: seq<byte>, to: seq<byte>, udpLen: uint16)
    ensures |PseudoHeader6(from, to, IPPROTO_UDP, udpLen)| == |from| + |to| + 8
  {
  }

  /** The laid-out header yields the pseudo-header of the given addresses, and lies apart from the datagram. */
  lemma {:induction false} Ipv4HeaderFields(m: seq<byte>, from: seq<byte>, to: seq<byte>, len: uint16, udpLen: uint16)
    requires |from| == 4 && |to| == 4 && Ipv4Header(from, to, len) <= m
    ensures |Ipv4Header(from, to, len)| == IPV4_HEADER_SIZE
    ensures Pseudo4(m, Layout4(0), udpLen) == PseudoHeader4(from, to, IPPROTO_UDP, udpLen)
    ensures Apart(Layout4(0), IPV4_HEADER_SIZE)
    ensures |PseudoHeader4(from, to, IPPROTO_UDP, udpLen)| % 2 == 0
    ensures |PseudoHeader4(from, to, IPPROTO_UDP, udpLen)| <= 40
  {
    hide PseudoHeader4;
    var header := Ipv4Header(from, to, len);
    assert m[IPV4_SOURCE..IPV4_SOURCE + 4] == header[IPV4_SOURCE..IPV4_SOURCE + 4] == from;
    assert m[IPV4_DESTINATION..IPV4_DESTINATION + 4] == header[IPV4_DESTINATION..] == to;
    assert m[IPV4_PROTOCOL] == header[IPV4_PROTOCOL] == IPPROTO_UDP;
    PseudoSize4(from, to, udpLen);
  }

  lemma PseudoSize4(from: seq<byte>, to: seq<byte>, udpLen: uint16)
    ensures |PseudoHeader4(from, to, IPPROTO_UDP, udpLen)| == |from| + |to| + 4
  {
  }

  method LayIpv6Header(pkt: array<byte>, from: seq<byte>, to: seq<byte>, reqLen: uint16)
    requires pkt.Length == BUFFER_SIZE && |from| == 16 && |to| == 16
    modifies pkt
    ensures pkt[..] == Ipv6Header(from, to, reqLen) + old(pkt[IPV6_HEADER_SIZE..])
  {
    Clear(pkt, IPV6_HEADER_SIZE);
    pkt[0] := 0x60;
    Store16(pkt, 4, reqLen);
    pkt[IPV6_NEXT_HEADER] := IPPROTO_UDP;
    pkt[7] := 128;
    ghost var fixed, rest := pkt[..8], pkt[IPV6_HEADER_SIZE..];
    assert fixed == [0x60, 0, 0, 0] + Network16(reqLen) + [IPPROTO_UDP, 128];
    Copy(pkt, IPV6_SOURCE, from);
    assert pkt[..IPV6_DESTINATION] == fixed + from && pkt[IPV6_HEADER_SIZE..] == rest;
    Copy(pkt, IPV6_DESTINATION, to);
    assert pkt[..] == fixed + from + to + rest;
  }

  method LayIpv4Header(pkt: array<byte>, from: seq<byte>, to: seq<byte>, totalLen: uint16)
    requires pkt.Length == BUFFER_SIZE && |from| == 4 && |to| == 4
    modifies pkt
    ensures pkt[..] == Ipv4Header(from, to, totalLen) + old(pkt[IPV4_HEADER_SIZE..])
  {
    Clear(pkt, IPV4_HEADER_SIZE);
    pkt[0] := 0x45;
    Store16(pkt, 2, totalLen);
    pkt[IPV4_PROTOCOL] := IPPROTO_UDP;
    pkt[8] := 128;
    ghost var fixed, rest := pkt[..12], pkt[IPV4_HEADER_SIZE..];
    assert fixed == [0x45, 0] + Network16(totalLen) + [0, 0, 0, 0, 128, IPPROTO_UDP, 0, 0];
    Copy(pkt, IPV4_SOURCE, from);
    assert pkt[..IPV4_DESTINATION] == fixed + from && pkt[IPV4_HEADER_SIZE..] == rest;
    Copy(pkt, IPV4_DESTINATION, to);
    assert pkt[..] == fixed + from + to + rest;
  }

  // ----- The same in numbers

  /** Acceptance by the receiver, in the numbers of RFC 768 and section 8.1 of RFC 8200: UDP is protocol 17. */
  lemma {:induction false} AcceptedIff(from: seq<byte>, to: seq<byte>, datagram: seq<byte>)
    requires |from| == |to| && (|from| == 4 || |from| == 16) && |datagram| <= 0xFFFF
    ensures var total := WordSum(from) + WordSum(to) + 17 + |datagram| + WordSum(datagram);
            && (Accepts4(from, to, datagram) <==> total % 0xFFFF == 0)
            && (Accepts6(from, to, datagram) <==> total % 0xFFFF == 0)
  {
    hide ChecksumOf, WordSum, PseudoHeader4, PseudoHeader6;
    PseudoHeaderSums(from, to, IPPROTO_UDP, |datagram|);
    PseudoSize4(from, to, |datagram|);
    PseudoSize6(from, to, |datagram|);
    AllOnesIff(PseudoHeader4(from, to, IPPROTO_UDP, |datagram|), datagram);
    AllOnesIff(PseudoHeader6(from, to, IPPROTO_UDP, |datagram|), datagram);
  }

  lemma {:induction false} AllOnesIff(pseudo: seq<byte>, data: seq<byte>)
    requires |pseudo| % 2 == 0 && 0 < |pseudo| <= 40 && |data| <= 0xFFFF && WordSum(pseudo) > 0
    ensures ChecksumOf(0, pseudo + data) == 0xFFFF <==> (WordSum(pseudo) + WordSum(data)) % 0xFFFF == 0
  {
    hide WordSum, ChecksumOf, Fold;
    WordSumAppend(pseudo, data);
    LengthBoundIsSafe(0, pseudo + data);
    ChecksumNoWrap(0, pseudo + data);
    FoldIsAllOnes(WordSum(pseudo) + WordSum(data));
  }

  /** The fixed bytes of both IP headers: version, header length, payload or total length, hop limit, protocol. */
  lemma HeaderBytes(from: seq<byte>, to: seq<byte>, len: uint16)
    ensures |Ipv6Header(from, to, len)| == 8 + |from| + |to| && |Ipv4Header(from, to, len)| == 12 + |from| + |to|
    ensures Ipv6Header(from, to, len)[..8] == [0x60, 0, 0, 0] + Network16(len) + [17, 128]
    ensures Ipv6Header(from, to, len)[8..] == from + to && Ipv4Header(from, to, len)[12..] == from + to
    ensures Ipv4Header(from, to, len)[..12] == [0x45, 0] + Network16(len) + [0, 0, 0, 0, 128, 17, 0, 0]
  {
  }

  /** From port 12760 to port 22760, with the length of the datagram. */
  lemma {:induction false} SentBytes(sent: seq<byte>, content: seq<byte>)
    requires WellFormed(sent, content) && |sent| <= 0xFFFF
    ensures sent[..6] == [0x31, 0xD8, 0x58, 0xE8] + Network16(|sent|)
    ensures sent[8..] == content
  {
    BytesOfWord(sent[0], sent[1]);
    BytesOfWord(sent[2], sent[3]);
    BytesOfWord(sent[4], sent[5]);
  }

  lemma StartOfLayout(m: seq<byte>, header: seq<byte>, sent: seq<byte>, rest: seq<byte>, n: nat)
    requires m == header + sent + rest && n <= |header|
    ensures m[..n] == header[..n] && m[n..|header|] == header[n..]
  {
  }

  lemma TwoAddresses(m: seq<byte>, n: nat, from: seq<byte>, to: seq<byte>)
    requires n + |from| + |to| <= |m| && m[n..n + |from| + |to|] == from + to
    ensures m[n..n + |from|] == from && m[n + |from|..n + |from| + |to|] == to
  {
    var both := m[n..n + |from| + |to|];
    assert both[..|from|] == from && both[|from|..] == to;
  }

  lemma BytesOfWord(hi: byte, lo: byte)
    ensures var w := Word16(Big, hi, lo); hi == w / 0x100 && lo == w % 0x100
  {
  }

  lemma {:induction false} Sent6InNumbers(
    m: seq<byte>, from: seq<byte>, to: seq<byte>, sent: seq<byte>, content: seq<byte>, rest: seq<byte>)
    requires |from| == 16 && |to| == 16 && WellFormed(sent, content) && |sent| <= 0xFFFF
    requires m == Ipv6Header(from, to, |sent|) + sent + rest && Accepts6(from, to, sent)
    ensures |m| >= 40 && m[..8] == [0x60, 0, 0, 0] + Network16(8 + |content|) + [17, 128]
    ensures m[8..24] == from && m[24..40] == to
    ensures sent[..6] == [0x31, 0xD8, 0x58, 0xE8] + Network16(8 + |content|)
    ensures (WordSum(from) + WordSum(to) + 17 + |sent| + WordSum(sent)) % 0xFFFF == 0
  {
    hide Ipv6Header, Accepts6, WordSum, Network16;
    SentBytes(sent, content);
    HeaderBytes(from, to, |sent|);
    StartOfLayout(m, Ipv6Header(from, to, |sent|), sent, rest, 8);
    TwoAddresses(m, 8, from, to);
    AcceptedIff(from, to, sent);
  }

  lemma {:induction false} Sent4InNumbers(
    m: seq<byte>, from: seq<byte>, to: seq<byte>, sent: seq<byte>, content: seq<byte>, rest: seq<byte>)
    requires |from| == 4 && |to| == 4 && WellFormed(sent, content) && 20 + |sent| <= 0xFFFF
    requires m == Ipv4Header(from, to, 20 + |sent|) + sent + rest && Accepts4(from, to, sent)
    ensures |m| >= 20 && m[..12] == [0x45, 0] + Network16(28 + |content|) + [0, 0, 0, 0, 128, 17, 0, 0]
    ensures m[12..16] == from && m[16..20] == to
    ensures sent[..6] == [0x31, 0xD8, 0x58, 0xE8] + Network16(8 + |content|)
    ensures (WordSum(from) + WordSum(to) + 17 + |sent| + WordSum(sent)) % 0xFFFF == 0
  {
    hide Ipv4Header, Accepts4, WordSum, Network16;
    SentBytes(sent, content);
    HeaderBytes(from, to, 20 + |sent|);
    StartOfLayout(m, Ipv4Header(from, to, 20 + |sent|), sent, rest, 12);
    TwoAddresses(m, 12, from, to);
    AcceptedIff(from, to, sent);
  }

  /**
   The contiguous branch of the IPv6 sender. `sent` is what is handed to `sendto`; its content is
   whatever the static buffer held past the headers.
   */
  method SendV6(pkt: array<byte>, from: seq<byte>, to: seq<byte>, contentLen: uint16) returns (sent: seq<byte>)
    requires pkt.Length == BUFFER_SIZE
    requires |from| == 16 && |to| == 16
    requires CONTENT6 + contentLen <= BUFFER_SIZE
    modifies pkt
    ensures WellFormed(sent, old(pkt[CONTENT6..CONTENT6 + contentLen]))
    ensures Accepts6(from, to, sent)
    ensures pkt[..] == Ipv6Header(from, to, UDP_HEADER_SIZE + contentLen) + sent + old(pkt[CONTENT6 + contentLen..])
    ensures pkt[..8] == [0x60, 0, 0, 0] + Network16(8 + contentLen) + [17, 128]
    ensures pkt[8..24] == from && pkt[24..40] == to
    ensures sent[..6] == [0x31, 0xD8, 0x58, 0xE8] + Network16(8 + contentLen)
    ensures (WordSum(from) + WordSum(to) + 17 + |sent| + WordSum(sent)) % 0xFFFF == 0
  {
    hide ChecksumOf, UdpFilled, UdpHeader, StagedFill, Pseudo6, PseudoHeader6, Apart, Ipv6Header, WordSum,
      WellFormed, Network16;
    var reqLen: nat := UDP_HEADER_SIZE + contentLen;
    ghost var header := Ipv6Header(from, to, reqLen);
    ghost var body := pkt[IPV6_HEADER_SIZE..];
    ghost var content, rest := pkt[CONTENT6..CONTENT6 + contentLen], pkt[CONTENT6 + contentLen..];
    SplitBody(pkt[..], IPV6_HEADER_SIZE, contentLen);
    LayIpv6Header(pkt, from, to, reqLen);
    Ipv6HeaderFields(pkt[..], from, to, reqLen, reqLen);
    StartDatagram(pkt, IPV6_HEADER_SIZE, reqLen);
    StartedLayout(header, body, UdpHeader(reqLen), contentLen);
    assert pkt[..] == header + UdpHeader(reqLen) + content + rest;
    Ipv6HeaderFields(pkt[..], from, to, reqLen, reqLen);
    Udp6HeaderChecksum(pkt, 0, IPV6_HEADER_SIZE, reqLen);
    CompletedIsSound(header, content, rest, reqLen, PseudoHeader6(from, to, IPPROTO_UDP, reqLen));
    sent := pkt[IPV6_HEADER_SIZE..IPV6_HEADER_SIZE + reqLen];
    Sent6InNumbers(pkt[..], from, to, sent, content, rest);
  }

  /** The contiguous branch of the IPv4 sender. */
  method SendV4(pkt: array<byte>, from: seq<byte>, to: seq<byte>, contentLen: uint16) returns (sent: seq<byte>)
    requires pkt.Length == BUFFER_SIZE
    requires |from| == 4 && |to| == 4
    requires CONTENT4 + contentLen <= BUFFER_SIZE
    modifies pkt
    ensures WellFormed(sent, old(pkt[CONTENT4..CONTENT4 + contentLen]))
    ensures Accepts4(from, to, sent)
    ensures pkt[..] == Ipv4Header(from, to, CONTENT4 + contentLen) + sent + old(pkt[CONTENT4 + contentLen..])
    ensures pkt[..12] == [0x45, 0] + Network16(28 + contentLen) + [0, 0, 0, 0, 128, 17, 0, 0]
    ensures pkt[12..16] == from && pkt[16..20] == to
    ensures sent[..6] == [0x31, 0xD8, 0x58, 0xE8] + Network16(8 + contentLen)
    ensures (WordSum(from) + WordSum(to) + 17 + |sent| + WordSum(sent)) % 0xFFFF == 0
  {
    hide ChecksumOf, UdpFilled, UdpHeader, StagedFill, Pseudo4, PseudoHeader4, Apart, Ipv4Header, WordSum,
      WellFormed, Network16;
    var reqLen: nat := UDP_HEADER_SIZE + contentLen;
    ghost var header := Ipv4Header(from, to, IPV4_HEADER_SIZE + reqLen);
    ghost var body := pkt[IPV4_HEADER_SIZE..];
    ghost var content, rest := pkt[CONTENT4..CONTENT4 + contentLen], pkt[CONTENT4 + contentLen..];
    SplitBody(pkt[..], IPV4_HEADER_SIZE, contentLen);
    LayIpv4Header(pkt, from, to, IPV4_HEADER_SIZE + reqLen);
    Ipv4HeaderFields(pkt[..], from, to, IPV4_HEADER_SIZE + reqLen, reqLen);
    StartDatagram(pkt, IPV4_HEADER_SIZE, reqLen);
    StartedLayout(header, body, UdpHeader(reqLen), contentLen);
    assert pkt[..] == header + UdpHeader(reqLen) + content + rest;
    Ipv4HeaderFields(pkt[..], from, to, IPV4_HEADER_SIZE + reqLen, reqLen);
    Udp4HeaderChecksum(pkt, 0, IPV4_HEADER_SIZE, reqLen);
    CompletedIsSound(header, content, rest, reqLen, PseudoHeader4(from, to, IPPROTO_UDP, reqLen));
    sent := pkt[IPV4_HEADER_SIZE..IPV4_HEADER_SIZE + reqLen];
    Sent4InNumbers(pkt[..], from, to, sent, content, rest);
  }

  /** A datagram damaged in flight within fifteen consecutive bits is rejected by the receiver. */
  lemma {:induction false} DamagedDatagramRejected(
    from: seq<byte>, to: seq<byte>, sent: seq<byte>, got: seq<byte>, p: nat, w: nat)
    requires |from| == |to| && (|from| == 4 || |from| == 16)
    requires |sent| <= 0xFFFF && Burst(sent, got, p, w) && w <= 15
    ensures Accepts4(from, to, sent) ==> !Accepts4(from, to, got)
    ensures Accepts6(from, to, sent) ==> !Accepts6(from, to, got)
  {
    hide ChecksumOf, Burst;
    assert |got| == |sent| by { BurstLength(sent, got, p, w); }
    BurstBehindPrefix(PseudoHeader4(from, to, IPPROTO_UDP, |sent|), sent, got, p, w);
    BurstBehindPrefix(PseudoHeader6(from, to, IPPROTO_UDP, |sent|), sent, got, p, w);
  }

  lemma {:induction false} BurstLength(s: seq<byte>, t: seq<byte>, p: nat, w: nat)
    requires Burst(s, t, p, w)
    ensures |s| == |t|
  {
  }

  lemma {:induction false} BitsAppend(a: seq<byte>, b: seq<byte>)
    ensures Bits(a + b) == Bits(a) + Bits(b)
  {
    if a == [] {
      assert a + b == b;
    } else {
      assert (a + b)[1..] == a[1..] + b;
      BitsAppend(a[1..], b);
    }
  }

  lemma {:induction false} BitsBehindPrefix(pseudo: seq<byte>, s: seq<byte>, p: nat, w: nat)
    requires p + w <= 8 * |s|
    ensures var q := 8 * |pseudo| + p;
            && Bits(pseudo + s)[..q] == Bits(pseudo) + Bits(s)[..p]
            && Bits(pseudo + s)[q + w..] == Bits(s)[p + w..]
  {
    hide Bits;
    BitsAppend(pseudo, s);
  }

  lemma {:induction false} BurstBehindPrefix(pseudo: seq<byte>, s: seq<byte>, t: seq<byte>, p: nat, w: nat)
    requires Burst(s, t, p, w) && w <= 15
    ensures ChecksumOf(0, pseudo + s) != ChecksumOf(0, pseudo + t)
  {
    hide ChecksumOf, WordSum, Bits;
    BitsBehindPrefix(pseudo, s, p, w);
    BitsBehindPrefix(pseudo, t, p, w);
    assert (pseudo + s)[|pseudo|..] == s && (pseudo + t)[|pseudo|..] == t;
    FifteenBitBurstDetected(0, pseudo + s, pseudo + t, 8 * |pseudo| + p, w);
  }
}
