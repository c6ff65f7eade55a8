/**
 The netlink wire format and what walking it means. Headers are in the byte order of a
 little-endian host; the `NLMSG_*` and `RTA_*` macros of the Linux headers are the small functions here.
 */
module Netlink {
  import opened Bytes

  datatype Option<+T> = None | Some(value: T)

  const NLMSG_HDRLEN: nat := 16
  const RTMSG_SIZE: nat := 12
  const NLMSGERR_SIZE: nat := 20
  const RTATTR_SIZE: nat := 4

  const NLMSG_ERROR: uint16 := 2
  const NLMSG_DONE: uint16 := 3
  const RTM_NEWROUTE: uint16 := 24

  /** `NLMSG_ALIGN` and `RTA_ALIGN` */
  function Align4(n: nat): (r: nat)
    ensures n <= r < n + 4 && r % 4 == 0
  {
    if n % 4 == 0 then n else n + 4 - n % 4
  }

  // ----- Host byte order

  function Host16(v: uint16): (r: seq<byte>)
    ensures |r| == 2 && LittleEndian16(r, 0) == v
  {
    [v % 0x100, v / 0x100]
  }

  function Host32(v: uint32): (r: seq<byte>)
    ensures |r| == 4 && LittleEndian32(r, 0) == v
  {
    Host16(v % 0x1_0000) + Host16(v / 0x1_0000)
  }

  lemma Read16(b: seq<byte>, pos: nat, v: uint16)
    requires pos + 2 <= |b| && b[pos..pos + 2] == Host16(v)
    ensures LittleEndian16(b, pos) == v
  {
    hide Host16;
    assert b[pos] == b[pos..pos + 2][0] && b[pos + 1] == b[pos..pos + 2][1];
  }

  lemma Read32(b: seq<byte>, pos: nat, v: uint32)
    requires pos + 4 <= |b| && b[pos..pos + 4] == Host32(v)
    ensures LittleEndian32(b, pos) == v
  {
    hide Host32;
    var c := b[pos..pos + 4];
    assert b[pos] == c[0] && b[pos + 1] == c[1] && b[pos + 2] == c[2] && b[pos + 3] == c[3];
  }

  lemma SubSlice(b: seq<byte>, pos: nat, e: seq<byte>, i: nat, j: nat)
    requires pos + |e| <= |b| && b[pos..pos + |e|] == e && i <= j <= |e|
    ensures b[pos + i..pos + j] == e[i..j]
  {
    forall k | 0 <= k < j - i ensures b[pos + i..pos + j][k] == e[i..j][k] {
      assert b[pos + i + k] == b[pos..pos + |e|][i + k];
    }
  }

  /** The first piece of a layout, found behind what precedes it. */
  lemma FirstPiece(before: seq<byte>, e: seq<byte>, es: seq<byte>, after: seq<byte>)
    ensures before + (e + es) + after == (before + e) + es + after
    ensures (before + (e + es) + after)[|before|..|before| + |e|] == e
  {
  }

  // ----- Route attributes

  datatype Attr = Attr(kind: uint16, payload: seq<byte>)

  /** `RTA_OK(rta, len)` with `rta` at `pos` and `len == end - pos` */
  predicate RtaOk(b: seq<byte>, pos: nat, end: nat)
    requires end <= |b|
  {
    && pos + RTATTR_SIZE <= end
    && RTATTR_SIZE <= LittleEndian16(b, pos)
    && pos + LittleEndian16(b, pos) <= end
  }

  /** The offset `RTA_NEXT` moves to. */
  function RtaNext(b: seq<byte>, pos: nat): (next: nat)
    requires pos + RTATTR_SIZE <= |b|
    ensures RTATTR_SIZE <= LittleEndian16(b, pos) ==> next >= pos + RTATTR_SIZE
  {
    pos + Align4(LittleEndian16(b, pos))
  }

  function AttrAt(b: seq<byte>, pos: nat): Attr
    requires RtaOk(b, pos, |b|)
  {
    Attr(LittleEndian16(b, pos + 2), b[pos + RTATTR_SIZE..pos + LittleEndian16(b, pos)])
  }

  /** The offsets the attribute loop visits, in order. */
  function AttrWalk(b: seq<byte>, pos: nat, end: nat): (offs: seq<nat>)
    requires end <= |b|
    decreases |b| + 4 - pos
  {
    if RtaOk(b, pos, end) then [pos] + AttrWalk(b, RtaNext(b, pos), end) else []
  }

  /** Where the attribute loop stops; the remainder it leaves is `end` less this. */
  function AttrStop(b: seq<byte>, pos: nat, end: nat): nat
    requires end <= |b|
    decreases |b| + 4 - pos
  {
    if RtaOk(b, pos, end) then AttrStop(b, RtaNext(b, pos), end) else pos
  }

  /**
   The bytes `pos..end` hold exactly these attributes, each padded to four bytes with whatever bytes;
   the padding of the last may be cut off.
   */
  predicate HoldsAttrs(b: seq<byte>, pos: nat, end: nat, attrs: seq<Attr>)
    requires end <= |b|
    decreases |attrs|
  {
    if attrs == [] then end <= pos
    else
      var n := RTATTR_SIZE + |attrs[0].payload|;
      && pos + n <= end
      && LittleEndian16(b, pos) == n
      && AttrAt(b, pos) == attrs[0]
      && HoldsAttrs(b, pos + Align4(n), end, attrs[1..])
  }

  predicate ValidOffsets(b: seq<byte>, offs: seq<nat>) {
    forall i :: 0 <= i < |offs| ==> RtaOk(b, offs[i], |b|)
  }

  /** The attributes at the given offsets. */
  function AttrsAt(b: seq<byte>, offs: seq<nat>): seq<Attr>
    requires ValidOffsets(b, offs)
  {
    seq(|offs|, i requires 0 <= i < |offs| => AttrAt(b, offs[i]))
  }

  /** Every visited attribute lies wholly inside the region, and each starts after the one before it ends. */
  lemma {:induction false} AttrWalkInside(b: seq<byte>, pos: nat, end: nat)
    requires end <= |b|
    ensures var offs := AttrWalk(b, pos, end);
            && ValidOffsets(b, offs)
            && (forall i :: 0 <= i < |offs| ==> pos <= offs[i] && RtaOk(b, offs[i], end))
            && (forall i, j :: 0 <= i < j < |offs| ==> offs[i] + LittleEndian16(b, offs[i]) as nat <= offs[j])
    decreases |b| + 4 - pos
  {
    hide LittleEndian16, Align4;
    if !RtaOk(b, pos, end) {
    } else {
      AttrWalkInside(b, RtaNext(b, pos), end);
    }
  }

  /**
   Round trip, both ways: the region holds a list of attributes if and only if the walk visits exactly
   that list, in order, and leaves no positive remainder.
   */
  lemma {:induction false} AttrRoundTrip(b: seq<byte>, pos: nat, end: nat, attrs: seq<Attr>)
    requires end <= |b|
    ensures ValidOffsets(b, AttrWalk(b, pos, end))
    ensures HoldsAttrs(b, pos, end, attrs) <==>
            AttrsAt(b, AttrWalk(b, pos, end)) == attrs && end <= AttrStop(b, pos, end)
    decreases |b| + 4 - pos
  {
    hide LittleEndian16, Align4;
    AttrWalkInside(b, pos, end);
    if !RtaOk(b, pos, end) {
    } else {
      AttrWalkHead(b, pos, end);
      if attrs != [] {
        AttrRoundTrip(b, RtaNext(b, pos), end, attrs[1..]);
        SplitList(attrs, AttrAt(b, pos), AttrsAt(b, AttrWalk(b, RtaNext(b, pos), end)));
      }
    }
  }

  lemma {:induction false} AttrWalkHead(b: seq<byte>, pos: nat, end: nat)
    requires end <= |b| && RtaOk(b, pos, end)
    ensures var next := AttrWalk(b, RtaNext(b, pos), end);
            && ValidOffsets(b, next)
            && ValidOffsets(b, [pos] + next)
            && AttrsAt(b, [pos] + next) == [AttrAt(b, pos)] + AttrsAt(b, next)
  {
    hide AttrWalk, AttrsAt, ValidOffsets, LittleEndian16, RtaNext;
    AttrWalkInside(b, RtaNext(b, pos), end);
    AttrsAtCons(b, pos, AttrWalk(b, RtaNext(b, pos), end));
  }

  lemma {:induction false} AttrsAtCons(b: seq<byte>, o: nat, offs: seq<nat>)
    requires RtaOk(b, o, |b|) && ValidOffsets(b, offs)
    ensures ValidOffsets(b, [o] + offs)
    ensures AttrsAt(b, [o] + offs) == [AttrAt(b, o)] + AttrsAt(b, offs)
  {
    hide RtaOk, AttrAt;
  }

  lemma SplitList<T>(xs: seq<T>, head: T, tail: seq<T>)
    requires xs != []
    ensures xs == [head] + tail <==> xs[0] == head && xs[1..] == tail
  {
    assert xs == [xs[0]] + xs[1..];
    assert ([head] + tail)[1..] == tail;
  }

  /** The layout of a list of attributes with zero padding. */
  function EncodeAttrs(attrs: seq<Attr>): seq<byte>
    requires forall a :: a in attrs ==> RTATTR_SIZE + |a.payload| < 0x1_0000
  {
    if attrs == [] then []
    else EncodeAttr(attrs[0]) + EncodeAttrs(attrs[1..])
  }

  function EncodeAttr(a: Attr): (e: seq<byte>)
    requires RTATTR_SIZE + |a.payload| < 0x1_0000
    ensures |e| == Align4(RTATTR_SIZE + |a.payload|)
  {
    var n := RTATTR_SIZE + |a.payload|;
    Host16(n) + Host16(a.kind) + a.payload + seq(Align4(n) - n, _ => 0)
  }

  /** Encoded attributes, anywhere in a buffer, are held there. */
  lemma {:induction false} EncodedAttrsHeld(before: seq<byte>, attrs: seq<Attr>, after: seq<byte>)
    requires forall a :: a in attrs ==> RTATTR_SIZE + |a.payload| < 0x1_0000
    ensures HoldsAttrs(before + EncodeAttrs(attrs) + after, |before|, |before| + |EncodeAttrs(attrs)|, attrs)
    decreases |attrs|
  {
    hide LittleEndian16, Align4, EncodeAttr, AttrAt;
    if attrs == [] {
    } else {
      var a, rest := attrs[0], attrs[1..];
      var e, es := EncodeAttr(a), EncodeAttrs(rest);
      var b, pos := before + EncodeAttrs(attrs) + after, |before|;
      EncodedAttrsHeld(before + e, rest, after);
      FirstPiece(before, e, es, after);
      EncodedAttrRead(b, pos, a);
    }
  }

  lemma {:induction false} EncodedAttrRead(b: seq<byte>, pos: nat, a: Attr)
    requires RTATTR_SIZE + |a.payload| < 0x1_0000
    requires pos + |EncodeAttr(a)| <= |b| && b[pos..pos + |EncodeAttr(a)|] == EncodeAttr(a)
    ensures LittleEndian16(b, pos) == RTATTR_SIZE + |a.payload|
    ensures RtaOk(b, pos, |b|) && AttrAt(b, pos) == a
  {
    hide LittleEndian16, Align4, Host16;
    var e, n := EncodeAttr(a), RTATTR_SIZE + |a.payload|;
    SubSlice(b, pos, e, 0, 2);
    assert e[0..2] == Host16(n);
    SubSlice(b, pos, e, 2, 4);
    assert e[2..4] == Host16(a.kind);
    SubSlice(b, pos, e, RTATTR_SIZE, n);
    assert e[RTATTR_SIZE..n] == a.payload;
    Read16(b, pos, n);
    Read16(b, pos + 2, a.kind);
  }

  // ----- The attribute table

  /** The last visited offset whose attribute has the given type. */
  function LastOfKind(b: seq<byte>, offs: seq<nat>, kind: nat): (r: Option<nat>)
    requires ValidOffsets(b, offs)
  {
    if offs == [] then None
    else if LittleEndian16(b, offs[|offs| - 1] + 2) == kind then Some(offs[|offs| - 1])
    else LastOfKind(b, offs[..|offs| - 1], kind)
  }

  /** The last attribute of a list with the given type. */
  function LastAttr(attrs: seq<Attr>, kind: nat): (r: Option<Attr>)
    ensures r.None? <==> forall a :: a in attrs ==> a.kind != kind
    ensures r.Some? ==> r.value in attrs && r.value.kind == kind
  {
    if attrs == [] then None
    else if attrs[|attrs| - 1].kind == kind then Some(attrs[|attrs| - 1])
    else
      assert attrs == attrs[..|attrs| - 1] + [attrs[|attrs| - 1]];
      LastAttr(attrs[..|attrs| - 1], kind)
  }

  /** A pointer in the table, followed, gives the last attribute of its type. */
  lemma {:induction false} LastOfKindIsLastAttr(b: seq<byte>, offs: seq<nat>, kind: nat)
    requires ValidOffsets(b, offs)
    ensures match LastOfKind(b, offs, kind)
            case None => LastAttr(AttrsAt(b, offs), kind) == None
            case Some(o) => o in offs && RtaOk(b, o, |b|) && LastAttr(AttrsAt(b, offs), kind) == Some(AttrAt(b, o))
  {
    hide LittleEndian16;
    if offs == [] {
    } else {
      var n := |offs| - 1;
      LastOfKindIsLastAttr(b, offs[..n], kind);
      assert AttrsAt(b, offs)[..n] == AttrsAt(b, offs[..n]);
      assert offs == offs[..n] + [offs[n]];
    }
  }

  // ----- Messages

  datatype Msg = Msg(kind: uint16, flags: uint16, seqno: uint32, pid: uint32, payload: seq<byte>)

  /** `NLMSG_OK(h, msglen)` with `h` at `pos` and `msglen == end - pos` */
  predicate NlmsgOk(b: seq<byte>, pos: nat, end: nat)
    requires end <= |b|
  {
    && pos + NLMSG_HDRLEN <= end
    && NLMSG_HDRLEN <= LittleEndian32(b, pos)
    && pos + LittleEndian32(b, pos) <= end
  }

  /** The offset `NLMSG_NEXT` moves to. */
  function NlmsgNext(b: seq<byte>, pos: nat): (next: nat)
    requires pos + NLMSG_HDRLEN <= |b|
    ensures NLMSG_HDRLEN <= LittleEndian32(b, pos) ==> next >= pos + NLMSG_HDRLEN
  {
    pos + Align4(LittleEndian32(b, pos))
  }

  function MsgAt(b: seq<byte>, pos: nat): Msg
    requires NlmsgOk(b, pos, |b|)
  {
    Msg(LittleEndian16(b, pos + 4), LittleEndian16(b, pos + 6), LittleEndian32(b, pos + 8),
        LittleEndian32(b, pos + 12), b[pos + NLMSG_HDRLEN..pos + LittleEndian32(b, pos)])
  }

  /** The bytes `pos..end` hold exactly these messages, padded to four bytes; the last padding may be cut off. */
  predicate HoldsMsgs(b: seq<byte>, pos: nat, end: nat, msgs: seq<Msg>)
    requires end <= |b|
    decreases |msgs|
  {
    if msgs == [] then end <= pos
    else
      var n := NLMSG_HDRLEN + |msgs[0].payload|;
      && pos + n <= end
      && LittleEndian32(b, pos) == n
      && MsgAt(b, pos) == msgs[0]
      && HoldsMsgs(b, pos + Align4(n), end, msgs[1..])
  }

  /** The layout of a list of messages with zero padding. */
  function EncodeMsgs(msgs: seq<Msg>): seq<byte>
    requires forall m :: m in msgs ==> NLMSG_HDRLEN + |m.payload| < 0x1_0000_0000
  {
    if msgs == [] then []
    else EncodeMsg(msgs[0]) + EncodeMsgs(msgs[1..])
  }

  function EncodeMsg(m: Msg): (e: seq<byte>)
    requires NLMSG_HDRLEN + |m.payload| < 0x1_0000_0000
    ensures |e| == Align4(NLMSG_HDRLEN + |m.payload|)
  {
    var n := NLMSG_HDRLEN + |m.payload|;
    EncodeHeader(n, m) + m.payload + seq(Align4(n) - n, _ => 0)
  }

  function EncodeHeader(n: uint32, m: Msg): (h: seq<byte>)
    ensures |h| == NLMSG_HDRLEN
  {
    Host32(n) + Host16(m.kind) + Host16(m.flags) + Host32(m.seqno) + Host32(m.pid)
  }

  /** Encoded messages, anywhere in a buffer, are held there. */
  lemma {:induction false} EncodedMsgsHeld(before: seq<byte>, msgs: seq<Msg>, after: seq<byte>)
    requires forall m :: m in msgs ==> NLMSG_HDRLEN + |m.payload| < 0x1_0000_0000
    ensures HoldsMsgs(before + EncodeMsgs(msgs) + after, |before|, |before| + |EncodeMsgs(msgs)|, msgs)
    decreases |msgs|
  {
    hide LittleEndian16, LittleEndian32, Align4, EncodeMsg, MsgAt;
    if msgs == [] {
    } else {
      var m, rest := msgs[0], msgs[1..];
      var e, es := EncodeMsg(m), EncodeMsgs(rest);
      var b, pos := before + EncodeMsgs(msgs) + after, |before|;
      EncodedMsgsHeld(before + e, rest, after);
      FirstPiece(before, e, es, after);
      EncodedMsgRead(b, pos, m);
    }
  }

  lemma {:induction false} EncodedMsgRead(b: seq<byte>, pos: nat, m: Msg)
    requires NLMSG_HDRLEN + |m.payload| < 0x1_0000_0000
    requires pos + |EncodeMsg(m)| <= |b| && b[pos..pos + |EncodeMsg(m)|] == EncodeMsg(m)
    ensures LittleEndian32(b, pos) == NLMSG_HDRLEN + |m.payload|
    ensures NlmsgOk(b, pos, |b|) && MsgAt(b, pos) == m
  {
    hide LittleEndian16, LittleEndian32, Align4, Host16, Host32;
    var e, n := EncodeMsg(m), NLMSG_HDRLEN + |m.payload|;
    SubSlice(b, pos, e, 0, 4);
    assert e[0..4] == Host32(n);
    SubSlice(b, pos, e, 4, 6);
    assert e[4..6] == Host16(m.kind);
    SubSlice(b, pos, e, 6, 8);
    assert e[6..8] == Host16(m.flags);
    SubSlice(b, pos, e, 8, 12);
    assert e[8..12] == Host32(m.seqno);
    SubSlice(b, pos, e, 12, 16);
    assert e[12..16] == Host32(m.pid);
    SubSlice(b, pos, e, NLMSG_HDRLEN, n);
    assert e[NLMSG_HDRLEN..n] == m.payload;
    Read32(b, pos, n);
    Read16(b, pos + 4, m.kind);
    Read16(b, pos + 6, m.flags);
    Read32(b, pos + 8, m.seqno);
    Read32(b, pos + 12, m.pid);
  }

  /** The pid filter: a reply must name the requester, by the pid it put in the request or its own. */
  predicate Accepted(pid: uint32, requestPid: uint32, selfPid: int) {
    pid != 0 && (pid == requestPid || AsInt32(pid) == selfPid)
  }

  /** A message that ends the walk early: end marker, truncated error, or an error that is not an ack. */
  predicate Ends(m: Msg, requestPid: uint32, selfPid: int) {
    && Accepted(m.pid, requestPid, selfPid)
    && (|| m.kind == NLMSG_DONE
        || (m.kind == NLMSG_ERROR && (|m.payload| < NLMSGERR_SIZE || LittleEndian32(m.payload, 0) != 0)))
  }

  /** A message whose attributes are collected: an accepted new-route message with a whole route header. */
  predicate IsRoute(m: Msg, requestPid: uint32, selfPid: int) {
    Accepted(m.pid, requestPid, selfPid) && m.kind == RTM_NEWROUTE && RTMSG_SIZE <= |m.payload|
  }

  /** The offsets of route messages the walk reaches, in order. */
  function RoutesReached(b: seq<byte>, pos: nat, end: nat, requestPid: uint32, selfPid: int): (offs: seq<nat>)
    requires end <= |b|
    decreases |b| + 4 - pos
  {
    if !NlmsgOk(b, pos, end) || Ends(MsgAt(b, pos), requestPid, selfPid) then []
    else (if IsRoute(MsgAt(b, pos), requestPid, selfPid) then [pos] else [])
         + RoutesReached(b, NlmsgNext(b, pos), end, requestPid, selfPid)
  }

  /** The walk leaves by the loop condition, with no positive remainder. */
  predicate WalkSucceeds(b: seq<byte>, pos: nat, end: nat, requestPid: uint32, selfPid: int)
    requires end <= |b|
    decreases |b| + 4 - pos
  {
    if !NlmsgOk(b, pos, end) then end <= pos
    else !Ends(MsgAt(b, pos), requestPid, selfPid)
         && WalkSucceeds(b, NlmsgNext(b, pos), end, requestPid, selfPid)
  }

  /** The buffer is a sequence of whole messages, none of which ends the walk early. */
  ghost predicate CleanResponse(b: seq<byte>, pos: nat, end: nat, requestPid: uint32, selfPid: int)
    requires end <= |b|
  {
    exists msgs :: HoldsMsgs(b, pos, end, msgs) && forall m :: m in msgs ==> !Ends(m, requestPid, selfPid)
  }

  lemma {:induction false} SuccessIsClean(b: seq<byte>, pos: nat, end: nat, requestPid: uint32, selfPid: int)
    returns (msgs: seq<Msg>)
    requires end <= |b| && WalkSucceeds(b, pos, end, requestPid, selfPid)
    ensures HoldsMsgs(b, pos, end, msgs) && forall m :: m in msgs ==> !Ends(m, requestPid, selfPid)
    decreases |b| + 4 - pos
  {
    hide LittleEndian16, LittleEndian32, Align4;
    if NlmsgOk(b, pos, end) {
      var rest := SuccessIsClean(b, NlmsgNext(b, pos), end, requestPid, selfPid);
      msgs := [MsgAt(b, pos)] + rest;
      assert msgs[1..] == rest;
    } else {
      msgs := [];
    }
  }

  lemma {:induction false} CleanIsSuccess(
    b: seq<byte>, pos: nat, end: nat, msgs: seq<Msg>, requestPid: uint32, selfPid: int)
    requires end <= |b| && HoldsMsgs(b, pos, end, msgs)
    requires forall m :: m in msgs ==> !Ends(m, requestPid, selfPid)
    ensures WalkSucceeds(b, pos, end, requestPid, selfPid)
    decreases |msgs|
  {
    hide LittleEndian16, LittleEndian32, Align4;
    if msgs == [] {
    } else {
      assert msgs[0] in msgs;
      CleanIsSuccess(b, NlmsgNext(b, pos), end, msgs[1..], requestPid, selfPid);
    }
  }

  /** The walk succeeds on exactly the clean responses. */
  lemma {:induction false} SucceedsIffClean(b: seq<byte>, pos: nat, end: nat, requestPid: uint32, selfPid: int)
    requires end <= |b|
    ensures WalkSucceeds(b, pos, end, requestPid, selfPid) <==> CleanResponse(b, pos, end, requestPid, selfPid)
  {
    if WalkSucceeds(b, pos, end, requestPid, selfPid) {
      var msgs := SuccessIsClean(b, pos, end, requestPid, selfPid);
    }
    if CleanResponse(b, pos, end, requestPid, selfPid) {
      var msgs :| HoldsMsgs(b, pos, end, msgs) && forall m :: m in msgs ==> !Ends(m, requestPid, selfPid);
      CleanIsSuccess(b, pos, end, msgs, requestPid, selfPid);
    }
  }

  /** A buffer holds at most one list of messages. */
  lemma {:induction false} MsgsUnique(b: seq<byte>, pos: nat, end: nat, xs: seq<Msg>, ys: seq<Msg>)
    requires end <= |b| && HoldsMsgs(b, pos, end, xs) && HoldsMsgs(b, pos, end, ys)
    ensures xs == ys
    decreases |xs|
  {
    hide LittleEndian16, LittleEndian32, Align4;
    if xs == [] || ys == [] {
    } else {
      MsgsUnique(b, NlmsgNext(b, pos), end, xs[1..], ys[1..]);
      assert xs == [xs[0]] + xs[1..] && ys == [ys[0]] + ys[1..];
    }
  }

  function Routes(msgs: seq<Msg>, requestPid: uint32, selfPid: int): seq<Msg> {
    if msgs == [] then []
    else (if IsRoute(msgs[0], requestPid, selfPid) then [msgs[0]] else []) + Routes(msgs[1..], requestPid, selfPid)
  }

  predicate ValidMessages(b: seq<byte>, offs: seq<nat>, end: nat) {
    end <= |b| && forall i :: 0 <= i < |offs| ==> NlmsgOk(b, offs[i], end)
  }

  function MsgsAt(b: seq<byte>, offs: seq<nat>, end: nat): seq<Msg>
    requires ValidMessages(b, offs, end)
  {
    seq(|offs|, i requires 0 <= i < |offs| => MsgAt(b, offs[i]))
  }

  lemma {:induction false} RoutesReachedInside(b: seq<byte>, pos: nat, end: nat, requestPid: uint32, selfPid: int)
    requires end <= |b|
    ensures var offs := RoutesReached(b, pos, end, requestPid, selfPid);
            && ValidMessages(b, offs, end)
            && forall i :: 0 <= i < |offs| ==> pos <= offs[i] && IsRoute(MsgAt(b, offs[i]), requestPid, selfPid)
    decreases |b| + 4 - pos
  {
    hide LittleEndian16, LittleEndian32, Align4;
    if NlmsgOk(b, pos, end) && !Ends(MsgAt(b, pos), requestPid, selfPid) {
      RoutesReachedInside(b, NlmsgNext(b, pos), end, requestPid, selfPid);
    }
  }

  /** In a clean response every route message is reached, in order, and nothing else is taken for one. */
  lemma {:induction false} CleanRoutesReached(
    b: seq<byte>, pos: nat, end: nat, msgs: seq<Msg>, requestPid: uint32, selfPid: int)
    requires end <= |b| && HoldsMsgs(b, pos, end, msgs)
    requires forall m :: m in msgs ==> !Ends(m, requestPid, selfPid)
    ensures ValidMessages(b, RoutesReached(b, pos, end, requestPid, selfPid), end)
    ensures MsgsAt(b, RoutesReached(b, pos, end, requestPid, selfPid), end) == Routes(msgs, requestPid, selfPid)
    decreases |msgs|
  {
    hide LittleEndian16, LittleEndian32, Align4;
    RoutesReachedInside(b, pos, end, requestPid, selfPid);
    if msgs == [] {
    } else {
      assert msgs[0] in msgs;
      var rest := RoutesReached(b, NlmsgNext(b, pos), end, requestPid, selfPid);
      CleanRoutesReached(b, NlmsgNext(b, pos), end, msgs[1..], requestPid, selfPid);
      if IsRoute(msgs[0], requestPid, selfPid) {
        assert MsgsAt(b, [pos] + rest, end) == [msgs[0]] + MsgsAt(b, rest, end);
      } else {
        assert [] + rest == rest;
      }
    }
  }

  /** A response laid out from messages is clean if and only if none of them ends the walk. */
  lemma {:induction false} EncodedResponseClean(msgs: seq<Msg>, after: seq<byte>, requestPid: uint32, selfPid: int)
    requires forall m :: m in msgs ==> NLMSG_HDRLEN + |m.payload| < 0x1_0000_0000
    ensures CleanResponse(EncodeMsgs(msgs) + after, 0, |EncodeMsgs(msgs)|, requestPid, selfPid) <==>
            forall m :: m in msgs ==> !Ends(m, requestPid, selfPid)
  {
    hide HoldsMsgs, EncodeMsgs, Ends;
    var b, end := EncodeMsgs(msgs) + after, |EncodeMsgs(msgs)|;
    EncodedMsgsHeld([], msgs, after);
    assert [] + EncodeMsgs(msgs) + after == b;
    if CleanResponse(b, 0, end, requestPid, selfPid) {
      var held :| HoldsMsgs(b, 0, end, held) && forall m :: m in held ==> !Ends(m, requestPid, selfPid);
      MsgsUnique(b, 0, end, held, msgs);
    }
  }
}
