# Verified models of the studyTips algorithms

This Dafny project models the five files of the repository that hold real algorithms and proves what they
compute: the Internet checksum library (`c/common/header.h`), the raw UDP packet builders
(`c/raw6/rawudp.c`), the parser of routing replies (`c/netlink/getroute.c`), the string hashes
(`java/hash.java`, which is C code) and serial number comparison (`c/tsn/main.c`).
`dafny verify dfyconfig.toml` checks everything.

| file | models |
|---|---|
| `Bytes.dfy` | bytes, fixed-width integers, the two byte orders, 16-bit stores |
| `Powers.dfy` | powers and products |
| `OnesComplement.dfy` | the end-around-carry fold and its normal form modulo 65535 |
| `InternetChecksum.dfy` | `csum` and `Checksum`, overflow, grouping, word order, byte order |
| `ErrorDetection.dfy` | exactly which changes `Checksum` notices |
| `Headers.dfy` | the routines that fill in IPv4 and UDP checksums in place |
| `RawUdp.dfy` | `sendV6` and `sendV4`, and the receiver's check |
| `Netlink.dfy` | the message and attribute format, and what walking it means |
| `NetlinkWalk.dfy` | the attribute loop and the response loop |
| `CStrings.dfy` | C strings, promoted characters and the table size of the hashes |
| `LinearHash.dfy` | RS, BKDR, DJB and SDBM hashes |
| `XorHash.dfy` | PJW, ELF and AP hashes |
| `PjwCharacters.dfy` | which changes of a string the PJW and ELF hashes notice |
| `SerialNumber.dfy` | TSN and SSN comparisons |

## How the C code is represented

- A pointer is an array and an offset; the IP and UDP headers live in one byte array, as they do in the static buffer.
- `uint32_t`, `unsigned int` and `unsigned long` arithmetic wraps explicitly; `x >> 16` and `x & 0xFFFF` on
  sums are division and remainder. `Checksum` keeps its accumulator modulo 2^32.
- The two UDP routines consist of the same statements on headers laid out differently; they share one body, given
  the offsets of the addresses and the protocol.
- Loops are methods with loops. Each is proved against a specification function, and the lemmas are about that function.
- Native integers of netlink messages are little-endian. For `csum` the host's byte order is a parameter, because
  the code's own remark says the result depends on it.
- `RTA_MAX` and the process id are parameters, so the results hold for every version of the Linux headers.
- Whether `char` is signed is a parameter of every hash. The raw hash is the state before the final `% M`.

## Results that differ from what one might expect

- `Checksum` returns the fold of the true sum exactly when the sum fits 32 bits; from a zero start 131074 bytes
  always do, and 131075 bytes of 0xFF do not.
- On a little-endian host `csum` agrees with `Checksum` exactly when `Checksum` does not overflow, odd lengths
  included. On a big-endian host it adds an odd last byte at the wrong end: while the sum fits 32 bits it agrees
  only if the length is even or the last byte is zero, and beyond that exactly when the wraps `Checksum` loses happen
  to make up for that byte. `InternetChecksum.BigEndianCsumWitness` is a one-byte failure.
- No burst of fifteen bits or fewer is ever missed, even when the accumulator overflows.
- `Checksum` may be carried from one piece to the next only at even boundaries; at an odd one it is right exactly
  when the second piece sums to a multiple of 257. `InternetChecksum.ChecksumInPiecesOddWitness` fails with two single bytes.
- The UDP routines never replace a computed zero checksum by 0xFFFF, as RFC 768 and section 8.1 of RFC 8200
  ask. `Headers.UdpStoresZeroIff` says exactly when a zero is stored, and `Headers.UdpStoresZeroWitness` gives a datagram.
- A header length field too small to cover the checksum field defeats `ipv4_header_checksum`;
  `Headers.Ipv4FillVerifies` gives the exact condition and `Headers.Ipv4FillWitness` a header.
- PJW and ELF separate strings that differ in one character, but two changed characters can cancel;
  `PjwCharacters.TwoCharactersWitness` gives the strings.
- At distance exactly half the range the serial number comparisons hold in both directions, unlike section 3.2 of
  RFC 1982; `SerialNumber.HalfRangeWitness` gives the numbers.

## Model

| member | source | states |
|---|---|---|
| `OnesComplement.FoldCarries` | c/common/header.h:171-174 | the fold loop computes `Fold` for a number of any size |
| `OnesComplement.FoldNormalForm` | c/common/header.h:171-174 | the fold of x is 0 for 0 and otherwise the residue of x in 1..65535 |
| `OnesComplement.FoldTwoRounds` | c/common/header.h:171-174 | two rounds suffice for every 32-bit sum, and one does not |
| `OnesComplement.FoldCongruence` | c/common/header.h:171-174 | two sums fold alike if and only if they are congruent modulo 65535 and agree on being zero |
| `OnesComplement.FoldAbsorbs` | c/common/header.h:171-176 | folding early does not change a later fold |
| `InternetChecksum.Checksum` | c/common/header.h:147-177 | null or empty input returns the carried-in sum; otherwise the result is the fold of the 32-bit sum of the big-endian words |
| `InternetChecksum.Csum` | c/common/header.h:83-98 | for every `int` length, negative ones included, the complement of the fold of the unbounded sum of native words and an odd last byte |
| `InternetChecksum.ChecksumIsExactIffNoOverflow` | c/common/header.h:158-176 | for every start value and every 32-bit size, the result is the normal form of the true sum if and only if the accumulator does not overflow |
| `InternetChecksum.LengthBoundIsSafe` | c/common/header.h:158-176 | c + 65535 * ceil(n / 2) below 2^32 rules overflow out |
| `InternetChecksum.LengthBoundIsTight` | c/common/header.h:158-176 | every buffer of up to 131074 bytes is safe and 131075 bytes of 0xFF fold wrongly |
| `InternetChecksum.ChecksumInPieces` | c/common/header.h:147-177 | section 2(A) of RFC 1071: while the sum fits 32 bits, an even-length first piece may be folded before the second is added |
| `InternetChecksum.ChecksumInPiecesOdd` | c/common/header.h:165-176 | while the sums fit 32 bits, an odd-length first piece folded on its own gives the right result if and only if the second piece sums to a multiple of 257 |
| `InternetChecksum.ChecksumInPiecesOddWitness` | c/common/header.h:165-176 | two single bytes summed one after the other give a wrong result |
| `InternetChecksum.ChecksumIgnoresWordOrder` | c/common/header.h:158-176 | the result depends only on the start value and the multiset of words, overflow or not |
| `InternetChecksum.LittleEndianCsum` | c/common/header.h:83-98 | section 2(B) of RFC 1071: on a little-endian host `csum` is the byte swap of the complement of `Checksum`, odd lengths included, if and only if `Checksum` does not overflow |
| `InternetChecksum.BigEndianCsum` | c/common/header.h:83-98 | on a big-endian host, for every `int` length, `csum` is the complement of `Checksum` if and only if the wraps `Checksum` loses equal the shortfall of an odd last byte and no wrap leaves a zero accumulator |
| `InternetChecksum.BigEndianCsumInRange` | c/common/header.h:91-93 | while the sum fits 32 bits, that means an even length or a last byte of zero |
| `InternetChecksum.BigEndianCsumWitness` | c/common/header.h:91-93 | the single byte 1 gives different results |
| `InternetChecksum.Rfc1071Example` | c/common/header.h:83-177 | the eight bytes of the example in section 3 of RFC 1071 sum to 0xDDF2, and `csum` of them is the byte swap of 0x220D |
| `ErrorDetection.SingleWordDetection` | c/common/header.h:158-176 | for every start value and buffer, replacing one word is missed if and only if nothing changed, or 0 and 0xFFFF were exchanged without another wrap and with neither accumulator zero |
| `ErrorDetection.SingleWordDetectionInRange` | c/common/header.h:158-176 | while the sums fit 32 bits, the last condition is that the starting sum and the other words are not all zero |
| `ErrorDetection.WordSumIsBitSum` | c/common/header.h:158-169 | the word sum is the sum of 2^(15 - k mod 16) over the set bits k of the buffer |
| `ErrorDetection.WordSumIsValue` | c/common/header.h:158-169 | modulo 65535 the word sum is the whole buffer read as one binary number, an odd byte padded |
| `ErrorDetection.ChecksumIsNumberModulo` | c/common/header.h:147-177 | while the sum fits 32 bits, the checksum is that number's normal form modulo 65535 |
| `ErrorDetection.BurstDetection` | c/common/header.h:147-177 | for every start value and buffer, a change within sixteen consecutive bits, aligned or straddling words, is missed if and only if it turns sixteen zeros into ones or back, without another wrap and with neither accumulator zero |
| `ErrorDetection.FifteenBitBurstDetected` | c/common/header.h:147-177 | for every start value and buffer, every change within fifteen consecutive bits changes the result, overflow or not |
| `Headers.Ipv4HeaderChecksum` | c/common/header.h:179-188 | in place, for every header length: the field becomes the complement of the sum taken with a zero field, every byte but 10 and 11 of the header stays, and if the low four bits of the first byte are w >= 3 the 4w bytes of the header then sum to 0xFFFF |
| `Headers.Ipv4FilledSumsToOnes` | c/common/header.h:181-187 | the same for every version and every length that covers the field, the first byte being 16 * version + length |
| `Headers.Ipv4FillExample` | c/common/header.h:179-188 | a header from 192.168.0.1 to 192.168.0.199 is given the checksum 0xB861 |
| `Headers.Ipv4FillIsLocalAndIdempotent` | c/common/header.h:179-188 | only the two checksum bytes change and a second call changes nothing |
| `Headers.Ipv4FillVerifies` | c/common/header.h:181-187 | summing the filled header gives 0xFFFF if and only if the length covers the field or the covered bytes already sum to a nonzero multiple of 65535 |
| `Headers.Ipv4FillWitness` | c/common/header.h:181-187 | an all-zero header does not verify once filled |
| `Headers.StagedIsOneShot` | c/common/header.h:193-208 | length, source, destination, protocol and datagram added in stages with folds equal one `Checksum` over the RFC 768 and the RFC 8200 pseudo-header followed by the datagram |
| `Headers.Udp4HeaderChecksum` | c/common/header.h:190-211 | in place, for every length and placement: what the stages leave, the length truncated to its field and to 32 bits; for a length of 8 to 65535 apart from the fields read, the one-shot sum with the RFC 768 pseudo-header |
| `Headers.StagedFillIsLocal` | c/common/header.h:190-233 | for every length and placement the low sixteen bits of the length are stored and only the length and checksum bytes change |
| `Headers.StagedFillIsOneShot` | c/common/header.h:190-233 | for those lengths and placements the memory the stages leave is the one-shot result of either standard |
| `Headers.Udp6HeaderChecksum` | c/common/header.h:213-233 | the same with the pseudo-header of section 8.1 of RFC 8200 |
| `Headers.UdpFillVerifies` | c/common/header.h:196-210 | only length and checksum change, the datagram carries its length, and with its pseudo-header it sums to 0xFFFF |
| `Headers.UdpStoresZeroIff` | c/common/header.h:207-210 | the stored checksum is zero if and only if the summed words are a multiple of 65535 |
| `Headers.UdpStoresZeroWitness` | c/common/header.h:207-210 | a concrete datagram with a stored checksum of zero |
| `RawUdp.SendV6` | c/raw6/rawudp.c:151-219 | the IPv6 header laid out, the bytes handed to `sendto` well formed with their own true length and the buffer's content, and accepted by the receiver; the rest of the buffer unchanged; in numbers: version, length, next header 17, hop limit 128, ports 12760 and 22760, and addresses, 17, length and datagram sum to a multiple of 65535 |
| `RawUdp.SendV4` | c/raw6/rawudp.c:233-301 | the same for IPv4 |
| `RawUdp.AcceptedIff` | c/common/header.h:196-208 | over IPv4 and IPv6 a receiver accepts a datagram if and only if the words of both addresses and of the datagram, its length and 17 sum to a multiple of 65535 |
| `RawUdp.CompletedIsSound` | c/raw6/rawudp.c:171-176 | completing a started datagram behind any header gives a well-formed, accepted one and touches nothing else |
| `RawUdp.DamagedDatagramRejected` | c/common/header.h:147-177 | an accepted datagram damaged within fifteen consecutive bits is rejected, over IPv4 and IPv6 |
| `Netlink.AttrWalkInside` | c/netlink/getroute.c:61-70 | on any bytes, every visited attribute lies inside its message and after the end of the one before |
| `Netlink.AttrRoundTrip` | c/netlink/getroute.c:61-70 | the region holds a list of attributes if and only if the walk visits exactly that list in order and leaves no positive remainder |
| `Netlink.EncodedAttrsHeld` | c/netlink/getroute.c:61-70 | attributes laid out with 4-byte padding anywhere in a buffer are held there |
| `Netlink.LastOfKindIsLastAttr` | c/netlink/getroute.c:65-68 | the last visited pointer of a type is to the last attribute of that type, and is null if there is none |
| `NetlinkWalk.FilterRoute` | c/netlink/getroute.c:43-70 | -1 exactly for another type or a message too short; otherwise `tb` has for each type up to the maximum the last visited attribute |
| `NetlinkWalk.TableInsideMessage` | c/netlink/getroute.c:51-70 | every pointer in `tb` is to an attribute of that type wholly inside its message, inside the received bytes |
| `NetlinkWalk.TableOfHeldAttrs` | c/netlink/getroute.c:59-70 | for a message holding a list of attributes, `tb[t]` is null or points at the list's last attribute of type t |
| `NetlinkWalk.BuiltRouteHoldsAttrs` | c/netlink/getroute.c:43-61 | a message built from a route header and encoded attributes holds them where the walk looks |
| `NetlinkWalk.WalkResponse` | c/netlink/getroute.c:224-303 | exit 0 if and only if whole messages consume the received bytes and none accepted by the pid filter is an end marker, a truncated error or a nonzero error; every route message reached is shown, in order, with its table, and on any bytes both lie inside the received ones; on encoded route messages it exits 0 and shows each accepted reply's last attribute of every type; for fewer than 16 bytes and for a reply of one message the exit code and how much is shown are given in numbers |
| `NetlinkWalk.OneMessageReply` | c/netlink/getroute.c:231-293 | any bytes that are one message: failure exactly for an end marker (type 3) or a truncated or nonzero error (type 2), one table exactly for a new route (type 24) of 28 bytes or more, and only if its pid is not 0 and is that of the request or of the process |
| `NetlinkWalk.ForUsKeepsOurs` | c/netlink/getroute.c:233-242 | replies carrying the pid of the request or of the process are all shown |
| `NetlinkWalk.ForUsDropsOthers` | c/netlink/getroute.c:233-242 | replies carrying no pid or another one are all skipped |
| `NetlinkWalk.ForUsAppend` | c/netlink/getroute.c:231-290 | what is kept of two lists of replies is what is kept of each |
| `NetlinkWalk.ExampleTable` | c/netlink/getroute.c:51-70 | the table of a reply of 36 given bytes |
| `NetlinkWalk.RoutesShownInside` | c/netlink/getroute.c:43-70 | on any bytes whatever, every shown message lies inside the received bytes, and every pointer in its table is to an attribute of its type wholly inside that message |
| `NetlinkWalk.EncodedRoutesShown` | c/netlink/getroute.c:51-70 | end to end: route messages laid out from attribute lists are a clean response, and each shown entry is the last attribute of its type of the reply it belongs to |
| `Netlink.SucceedsIffClean` | c/netlink/getroute.c:231-293 | the loop ends without remainder on exactly the clean responses |
| `Netlink.EncodedMsgsHeld` | c/netlink/getroute.c:231-290 | messages laid out with 4-byte padding are held there |
| `Netlink.EncodedResponseClean` | c/netlink/getroute.c:231-293 | a response laid out from messages is clean if and only if none of them ends the walk |
| `Netlink.MsgsUnique` | c/netlink/getroute.c:231-290 | received bytes hold at most one list of messages |
| `Netlink.CleanRoutesReached` | c/netlink/getroute.c:231-290 | in a clean response the route messages shown are exactly those of the list, in order |
| `LinearHash.RsHash` | java/hash.java:12-25 | the sum of c[i] * 63689^(n-1-i) * 378551^((i+1) + ... + (n-1)) modulo 2^32, then modulo M; one ASCII character hashes to itself |
| `LinearHash.HashesOfAbc` | java/hash.java:12-119 | the values the four functions return for "abc" |
| `CStrings.CharMeaning` | java/hash.java:20 | a plain char is its byte, a signed one the number from -128 to 127 congruent to it modulo 256 |
| `LinearHash.RsClosedForm` | java/hash.java:14-22 | reducing the multiplier in every step, as the loop does, computes that sum modulo 2^32 |
| `LinearHash.BkdrHash` | java/hash.java:82-93 | the sum of c[i] * 131^(n-1-i) modulo 2^32, then modulo M; one ASCII character hashes to itself |
| `LinearHash.DjbHash` | java/hash.java:96-106 | the shift form computes 5381 * 33^n plus the sum of c[i] * 33^(n-1-i) modulo 2^32, then modulo M; one ASCII character c hashes to 177573 + c |
| `LinearHash.SdbmHash` | java/hash.java:109-119 | the shift form computes the sum of c[i] * 65599^(n-1-i) modulo 2^32, then modulo M; one ASCII character hashes to itself |
| `LinearHash.RsMultiplierAt` | java/hash.java:14-21 | after i steps the multiplier is 63689 * 378551^i modulo 2^32 |
| `LinearHash.CommonTail` | java/hash.java:82-119 | a common tail keeps distinct raw states distinct |
| `LinearHash.OneCharacterChangesAll` | java/hash.java:12-119 | strings differing in exactly one character never share a raw state, for all four functions |
| `LinearHash.NeighboursCollideIff` | java/hash.java:82-119 | two replaced neighbouring characters collide if and only if their weighted values agree as integers |
| `LinearHash.NeighbourChangesDetected` | java/hash.java:82-119 | SDBM separates every change of two neighbours; BKDR, DJB and SDBM separate every swap |
| `XorHash.PjwHash` | java/hash.java:41-60 | the raw PJW state, its top four bits clear, modulo M; one ASCII character hashes to itself |
| `XorHash.ElfHash` | java/hash.java:63-79 | the value `PJWHash` returns, for every string and either kind of char |
| `XorHash.HashesOfEight` | java/hash.java:41-140 | the values PJW, ELF and AP return for "abcdefgh" |
| `XorHash.WidenMeaning` | java/hash.java:52 | a char converted to `unsigned int`: its byte, or 256 less around the word if negative |
| `XorHash.TopBitsClear` | java/hash.java:50-57 | the top four bits of the state are zero after every character |
| `PjwCharacters.OneCharacterChanges` | java/hash.java:41-79 | strings differing in exactly one character never share a raw PJW and ELF state, whichever kind of char |
| `PjwCharacters.StepsSeparate` | java/hash.java:50-57 | distinct characters lead from one state to distinct states, and one common character keeps these distinct |
| `PjwCharacters.CommonTail` | java/hash.java:48-58 | a common tail keeps states with the same low four bits distinct, and those bits the same |
| `PjwCharacters.TwoCharactersWitness` | java/hash.java:50-57 | two strings of seven characters that differ in two and share a raw state |
| `XorHash.ApHash` | java/hash.java:122-140 | the raw AP state modulo M, a value below M; one ASCII character hashes to itself |
| `XorHash.ApIsAffine` | java/hash.java:122-140 | the raw hash of the exclusive or of three equal-length strings is the exclusive or of their raw hashes |
| `XorHash.ApCollisionsTransfer` | java/hash.java:122-140 | whether a difference collides does not depend on the string it is applied to |
| `XorHash.ApCommonTail` | java/hash.java:122-140 | a common tail keeps distinct raw states of equal-length strings distinct |
| `XorHash.ApOneCharacterChanges` | java/hash.java:122-140 | strings differing in exactly one character never share a raw state |
| `SerialNumber.TsnMeaning` | c/tsn/main.c:41-60 | all four TSN forms, on all inputs, in terms of the distance ahead |
| `SerialNumber.SsnMeaning` | c/tsn/main.c:75-92 | all four SSN forms likewise, despite the promotion to int |
| `SerialNumber.ReturnValues` | c/tsn/main.c:41-92 | the older strict forms return 0 or the sign bit, all others 0 or 1 |
| `SerialNumber.OldAndNewAgree` | c/tsn/main.c:41-92 | old and new forms agree as truth values on all inputs |
| `SerialNumber.TsnAgainstRfc` | c/tsn/main.c:8-44 | section 3.2 of RFC 1982 except at exactly half the range, where alone both directions hold |
| `SerialNumber.SsnAgainstRfc` | c/tsn/main.c:62-78 | the same at 16 bits |
| `SerialNumber.HalfRangeWitness` | c/tsn/main.c:41-78 | 0 and 2^31, and 0 and 2^15, each compare less than the other, which the standard leaves false |
| `SerialNumber.TsnTransitiveIff` | c/tsn/main.c:41-44 | a chain of two comparisons closes if and only if the distances sum to at most half the range |
| `SerialNumber.SsnTransitiveIff` | c/tsn/main.c:75-78 | the same at 16 bits |
| `SerialNumber.TsnOrderIsTrueOrder` | c/tsn/main.c:41-60 | for counters of any size less than 2^31 apart the four comparisons of their low 32 bits are integer < and <= |
| `SerialNumber.SsnOrderIsTrueOrder` | c/tsn/main.c:75-92 | the same at 2^15 |
| `SerialNumber.TsnTotalOrderOnWindow` | c/tsn/main.c:41-44 | a strict total order on the numbers of any set of counters spanning less than 2^31 |
| `SerialNumber.SsnTotalOrderOnWindow` | c/tsn/main.c:75-78 | the same at 2^15 |

## Left out

- `udp4_header_checksum2` and `udp6_header_checksum2` (c/common/header.h:100-145): they overwrite the running sum, so the pseudo-header never reaches the result; the modelled programs do not call them.
- The scatter/gather branches of the senders (c/raw6/rawudp.c:183-216, 265-298): the checksum is taken over the static buffer while other memory is sent.
- SendV6: requires content that fits the 4096-byte buffer; larger contents run past the buffer in the original.
- SendV4: the same.
- WalkResponse: printing is represented by the list of tables shown; values printed from attribute payloads are not modelled.
- FilterRoute: attribute offsets stand for pointers; reading fields of `struct rtmsg` for printing is not modelled.
- The request built and sent by the netlink client (c/netlink/getroute.c:150-199), sockets, polling, option parsing and address conversion.
- `JSHash` (java/hash.java:28-38): it mixes addition, shifts and exclusive or and has no simple law.
- Distribution quality of the hashes and anything about `% M` beyond the value: not implied by the code.
- 32-bit hosts, where `unsigned long` in `csum` is 32 bits wide.
- The ACE, signal, scheduling, capability, libssh2 and other demonstrations, and the small loops of `c/register`, `c/bits` and `python`: they would only add easy members.
