/** The two loops that parse a routing reply: the attribute loop and the response loop of the client. */
module NetlinkWalk {
  import opened Bytes
  import opened Netlink

  /** Attribute pointers indexed by type, as offsets into the received bytes; `None` is a null pointer. */
  type Table = seq<Option<nat>>

  /** Where the attributes of a route message at `h` begin and end. */
  function AttrsStart(h: nat): nat {
    h + NLMSG_HDRLEN + RTMSG_SIZE
  }

  function MsgEnd(b: seq<byte>, h: nat): nat
    requires h + NLMSG_HDRLEN <= |b|
  {
    h + LittleEndian32(b, h)
  }

  /** The table holds, for each type up to the maximum, the last attribute of that type that the walk visits. */
  predicate IsTableOf(b: seq<byte>, h: nat, rtaMax: nat, tb: Table)
    requires NlmsgOk(b, h, |b|)
  {
    var offs := AttrWalk(b, AttrsStart(h), MsgEnd(b, h));
    ValidOffsets(b, offs) && IsTable(b, offs, rtaMax, tb)
  }

  /** For each type up to the maximum, the last of the given offsets that has that type. */
  predicate IsTable(b: seq<byte>, offs: seq<nat>, rtaMax: nat, tb: Table)
    requires ValidOffsets(b, offs)
  {
    |tb| == rtaMax + 1 && forall t :: 0 <= t <= rtaMax ==> tb[t] == LastOfKind(b, offs, t)
  }

  /** One pass of the attribute loop: the table takes the new attribute in, the walk moves on. */
  lemma {:induction false} AttrStep(
    b: seq<byte>, start: nat, rta: nat, end: nat, seen: seq<nat>, rtaMax: nat, tb: Table)
    requires end <= |b| && RtaOk(b, rta, end)
    requires ValidOffsets(b, seen) && IsTable(b, seen, rtaMax, tb)
    requires AttrWalk(b, start, end) == seen + AttrWalk(b, rta, end)
    ensures var kind := LittleEndian16(b, rta + 2);
            && ValidOffsets(b, seen + [rta])
            && IsTable(b, seen + [rta], rtaMax, if kind <= rtaMax then tb[kind := Some(rta)] else tb)
            && AttrWalk(b, start, end) == (seen + [rta]) + AttrWalk(b, RtaNext(b, rta), end)
  {
    hide LittleEndian16, Align4, LastOfKind;
    assert seen + ([rta] + AttrWalk(b, RtaNext(b, rta), end)) == (seen + [rta]) + AttrWalk(b, RtaNext(b, rta), end);
    TableTakes(b, seen, rta, rtaMax, tb);
  }

  lemma {:induction false} TableTakes(b: seq<byte>, seen: seq<nat>, rta: nat, rtaMax: nat, tb: Table)
    requires ValidOffsets(b, seen) && RtaOk(b, rta, |b|) && IsTable(b, seen, rtaMax, tb)
    ensures var kind := LittleEndian16(b, rta + 2);
            && ValidOffsets(b, seen + [rta])
            && IsTable(b, seen + [rta], rtaMax, if kind <= rtaMax then tb[kind := Some(rta)] else tb)
  {
    hide LittleEndian16, Align4, LastOfKind;
    forall t | 0 <= t <= rtaMax
      ensures LastOfKind(b, seen + [rta], t)
              == if LittleEndian16(b, rta + 2) == t then Some(rta) else LastOfKind(b, seen, t)
    {
      LastOfKindSnoc(b, seen, rta, t);
    }
  }

  lemma {:induction false} LastOfKindSnoc(b: seq<byte>, seen: seq<nat>, rta: nat, kind: nat)
    requires ValidOffsets(b, seen) && RtaOk(b, rta, |b|)
    ensures ValidOffsets(b, seen + [rta])
    ensures LastOfKind(b, seen + [rta], kind)
            == if LittleEndian16(b, rta + 2) == kind then Some(rta) else LastOfKind(b, seen, kind)
  {
    hide LittleEndian16;
    assert (seen + [rta])[..|seen|] == seen;
  }

  lemma EmptyTable(b: seq<byte>, rtaMax: nat, tb: Table)
    requires |tb| == rtaMax + 1 && forall t :: 0 <= t <= rtaMax ==> tb[t] == None
    ensures IsTable(b, [], rtaMax, tb)
  {
  }

  /**
   `nl_filter_route` up to its printing: -1 for another message type or a message too short for a
   route header, otherwise 0 with the attribute table. `rtaMax` is `RTA_MAX` of the Linux headers.
   */
  method FilterRoute(buf: array<byte>, h: nat, expected: uint16, rtaMax: nat) returns (rc: int, tb: Table)
    requires buf.Length < 0x8000_0000 && NlmsgOk(buf[..], h, buf.Length)
    ensures rc == 0 || rc == -1
    ensures rc == 0 <==> MsgAt(buf[..], h).kind == expected && RTMSG_SIZE <= |MsgAt(buf[..], h).payload|
    ensures rc == -1 ==> tb == []
    ensures rc == 0 ==> IsTableOf(buf[..], h, rtaMax, tb)
  {
    hide LittleEndian16, LittleEndian32, Align4, LastOfKind;
    var nlmsgLen := LittleEndian32(buf[..], h);
    if LittleEndian16(buf[..], h + 4) != expected {
      return -1, [];
    }
    var len: int := nlmsgLen - (NLMSG_HDRLEN + RTMSG_SIZE);
    if len < 0 {
      return -1, [];
    }
    var table := new Option<nat>[rtaMax + 1](_ => None);
    var rta := AttrsStart(h);
    ghost var b, start, end := buf[..], rta, h + nlmsgLen;
    ghost var seen: seq<nat> := [];
    EmptyTable(b, rtaMax, table[..]);
    while len >= RTATTR_SIZE
          && LittleEndian16(buf[..], rta) >= RTATTR_SIZE
          && LittleEndian16(buf[..], rta) <= len
      invariant buf[..] == b && rta + len == end
      invariant ValidOffsets(b, seen) && IsTable(b, seen, rtaMax, table[..])
      invariant AttrWalk(b, start, end) == seen + AttrWalk(b, rta, end)
      decreases len
    {
      AttrStep(b, start, rta, end, seen, rtaMax, table[..]);
      var kind, step := LittleEndian16(buf[..], rta + 2), Align4(LittleEndian16(buf[..], rta));
      if kind <= rtaMax {
        table[kind] := Some(rta);
      }
      seen := seen + [rta];
      len := len - step;
      rta := rta + step;
    }
    assert AttrWalk(b, start, end) == seen;
    rc, tb := 0, table[..];
  }

  /** Every pointer in a table is to an attribute wholly inside its message, which is inside the received bytes. */
  lemma {:induction false} TableInsideMessage(b: seq<byte>, h: nat, end: nat, rtaMax: nat, tb: Table, t: nat)
    requires end <= |b| && NlmsgOk(b, h, end) && IsTableOf(b, h, rtaMax, tb)
    requires t <= rtaMax && tb[t].Some?
    ensures var o := tb[t].value;
            && AttrsStart(h) <= o
            && RtaOk(b, o, MsgEnd(b, h))
            && LittleEndian16(b, o + 2) == t
            && MsgEnd(b, h) <= end
  {
    hide LittleEndian16, LittleEndian32, AttrAt;
    var offs := AttrWalk(b, AttrsStart(h), MsgEnd(b, h));
    AttrWalkInside(b, AttrsStart(h), MsgEnd(b, h));
    LastOfKindFound(b, offs, t);
  }

  lemma {:induction false} LastOfKindFound(b: seq<byte>, offs: seq<nat>, kind: nat)
    requires ValidOffsets(b, offs) && LastOfKind(b, offs, kind).Some?
    ensures var o := LastOfKind(b, offs, kind).value;
            o in offs && RtaOk(b, o, |b|) && LittleEndian16(b, o + 2) == kind
  {
    var n := |offs| - 1;
    if LittleEndian16(b, offs[n] + 2) != kind {
      LastOfKindFound(b, offs[..n], kind);
    }
  }

  /** Entry `t` is null if no attribute has type `t`, and otherwise points at the last that has. */
  predicate EntryIsLast(b: seq<byte>, entry: Option<nat>, attrs: seq<Attr>, t: nat) {
    match entry
    case None => forall a :: a in attrs ==> a.kind != t
    case Some(o) => RtaOk(b, o, |b|) && LastAttr(attrs, t) == Some(AttrAt(b, o))
  }

  /** The table of a message that holds a list of attributes has each type's last attribute. */
  lemma {:induction false} TableOfHeldAttrs(b: seq<byte>, h: nat, rtaMax: nat, tb: Table, attrs: seq<Attr>, t: nat)
    requires NlmsgOk(b, h, |b|) && IsTableOf(b, h, rtaMax, tb) && t <= rtaMax
    requires HoldsAttrs(b, AttrsStart(h), MsgEnd(b, h), attrs)
    ensures EntryIsLast(b, tb[t], attrs, t)
  {
    hide LittleEndian16, LittleEndian32, AttrAt;
    AttrRoundTrip(b, AttrsStart(h), MsgEnd(b, h), attrs);
    LastOfKindIsLastAttr(b, AttrWalk(b, AttrsStart(h), MsgEnd(b, h)), t);
  }

  /** A route message built from a route header and encoded attributes holds those attributes for the walk. */
  lemma {:induction false} BuiltRouteHoldsAttrs(b: seq<byte>, h: nat, routeHeader: seq<byte>, attrs: seq<Attr>)
    requires NlmsgOk(b, h, |b|) && |routeHeader| == RTMSG_SIZE
    requires forall a :: a in attrs ==> RTATTR_SIZE + |a.payload| < 0x1_0000
    requires MsgAt(b, h).payload == routeHeader + EncodeAttrs(attrs)
    ensures HoldsAttrs(b, AttrsStart(h), MsgEnd(b, h), attrs)
  {
    hide LittleEndian16, LittleEndian32, EncodeAttrs, HoldsAttrs;
    var start, end := AttrsStart(h), MsgEnd(b, h);
    assert b[start..end] == MsgAt(b, h).payload[RTMSG_SIZE..] == EncodeAttrs(attrs);
    assert b == b[..start] + EncodeAttrs(attrs) + b[end..];
    EncodedAttrsHeld(b[..start], attrs, b[end..]);
  }

  /** What the client shows for one route message. */
  datatype Shown = Shown(at: nat, tb: Table)

  /** The shown messages are those at the given offsets, in order, each with its own table. */
  predicate ShowsRoutes(b: seq<byte>, offs: seq<nat>, rtaMax: nat, shown: seq<Shown>) {
    && |shown| == |offs|
    && forall i :: 0 <= i < |offs| ==>
         shown[i].at == offs[i] && NlmsgOk(b, offs[i], |b|) && IsTableOf(b, offs[i], rtaMax, shown[i].tb)
  }

  /** What the fields the loop looks at say about a message. */
  lemma {:induction false} Classify(b: seq<byte>, h: nat, requestPid: uint32, selfPid: int)
    requires NlmsgOk(b, h, |b|)
    ensures var m, len, kind := MsgAt(b, h), LittleEndian32(b, h), LittleEndian16(b, h + 4);
            var accepted := Accepted(LittleEndian32(b, h + 12), requestPid, selfPid);
            && m.kind == kind
            && |m.payload| == len - NLMSG_HDRLEN
            && (IsRoute(m, requestPid, selfPid) <==>
                accepted && kind == RTM_NEWROUTE && NLMSG_HDRLEN + RTMSG_SIZE <= len)
            && (Ends(m, requestPid, selfPid) <==>
                accepted && (kind == NLMSG_DONE
                             || (kind == NLMSG_ERROR
                                 && (len < NLMSG_HDRLEN + NLMSGERR_SIZE || LittleEndian32(b, h + NLMSG_HDRLEN) != 0))))
  {
    if NLMSG_HDRLEN + NLMSGERR_SIZE <= LittleEndian32(b, h) {
      ErrorField(b, h);
    }
    hide LittleEndian16, LittleEndian32, Accepted;
  }

  /** The error code of an error message is the first field of its payload. */
  lemma {:induction false} ErrorField(b: seq<byte>, h: nat)
    requires NlmsgOk(b, h, |b|) && NLMSG_HDRLEN + NLMSGERR_SIZE <= LittleEndian32(b, h)
    ensures LittleEndian32(MsgAt(b, h).payload, 0) == LittleEndian32(b, h + NLMSG_HDRLEN)
  {
  }

  /** What one message does to the walk: it ends it, or is passed over, shown or not. */
  lemma {:induction false} StepOver(b: seq<byte>, h: nat, end: nat, requestPid: uint32, selfPid: int)
    requires end <= |b|
    ensures !NlmsgOk(b, h, end) ==>
              && RoutesReached(b, h, end, requestPid, selfPid) == []
              && (WalkSucceeds(b, h, end, requestPid, selfPid) <==> end <= h)
    ensures NlmsgOk(b, h, end) && Ends(MsgAt(b, h), requestPid, selfPid) ==>
              && RoutesReached(b, h, end, requestPid, selfPid) == []
              && !WalkSucceeds(b, h, end, requestPid, selfPid)
    ensures NlmsgOk(b, h, end) && !Ends(MsgAt(b, h), requestPid, selfPid) ==>
              var rest := RoutesReached(b, NlmsgNext(b, h), end, requestPid, selfPid);
              && RoutesReached(b, h, end, requestPid, selfPid)
                 == (if IsRoute(MsgAt(b, h), requestPid, selfPid) then [h] + rest else rest)
              && WalkSucceeds(b, h, end, requestPid, selfPid)
                 == WalkSucceeds(b, NlmsgNext(b, h), end, requestPid, selfPid)
  {
    hide LittleEndian16, LittleEndian32, Align4, Ends, IsRoute, MsgAt;
    if NlmsgOk(b, h, end) && !Ends(MsgAt(b, h), requestPid, selfPid) {
      var rest := RoutesReached(b, NlmsgNext(b, h), end, requestPid, selfPid);
      assert [] + rest == rest;
    }
  }

  lemma HowManyShown(b: seq<byte>, offs: seq<nat>, rtaMax: nat, shown: seq<Shown>)
    requires ShowsRoutes(b, offs, rtaMax, shown)
    ensures |shown| == |offs|
  {
  }

  lemma NothingShown(b: seq<byte>, rtaMax: nat)
    ensures ShowsRoutes(b, [], rtaMax, [])
  {
  }

  lemma {:induction false} NextRouteShown(
    b: seq<byte>, offs: seq<nat>, rtaMax: nat, shown: seq<Shown>, h: nat, tb: Table)
    requires ShowsRoutes(b, offs, rtaMax, shown)
    requires NlmsgOk(b, h, |b|) && IsTableOf(b, h, rtaMax, tb)
    ensures ShowsRoutes(b, offs + [h], rtaMax, shown + [Shown(h, tb)])
  {
    hide IsTableOf, NlmsgOk;
  }

  /** Every shown message, and every attribute its table points at, lies inside the bytes received. */
  predicate ShownInside(b: seq<byte>, end: nat, rtaMax: nat, shown: seq<Shown>) {
    && end <= |b|
    && forall i :: 0 <= i < |shown| ==>
         && NlmsgOk(b, shown[i].at, end)
         && |shown[i].tb| == rtaMax + 1
         && forall t :: 0 <= t <= rtaMax ==> EntryInside(b, shown[i].at, shown[i].tb[t], t)
  }

  /** An entry is null or points at an attribute of its type inside its message. */
  predicate EntryInside(b: seq<byte>, h: nat, entry: Option<nat>, t: nat)
    requires NlmsgOk(b, h, |b|)
  {
    match entry
    case None => true
    case Some(o) => AttrsStart(h) <= o && RtaOk(b, o, MsgEnd(b, h)) && LittleEndian16(b, o + 2) == t
  }

  /** On any bytes whatever, nothing outside the received bytes is looked at or shown. */
  lemma {:induction false} RoutesShownInside(
    b: seq<byte>, end: nat, requestPid: uint32, selfPid: int, rtaMax: nat, shown: seq<Shown>)
    requires end <= |b|
    requires ShowsRoutes(b, RoutesReached(b, 0, end, requestPid, selfPid), rtaMax, shown)
    ensures ShownInside(b, end, rtaMax, shown)
  {
    hide RoutesReached, IsRoute, MsgAt, RtaOk, LittleEndian16, LittleEndian32, LastOfKind, AttrWalk;
    RoutesReachedInside(b, 0, end, requestPid, selfPid);
    forall i, t | 0 <= i < |shown| && 0 <= t <= rtaMax ensures EntryInside(b, shown[i].at, shown[i].tb[t], t) {
      if shown[i].tb[t].Some? {
        TableInsideMessage(b, shown[i].at, end, rtaMax, shown[i].tb, t);
      }
    }
  }

  // ----- A reply made of route messages

  /** A route message before it is laid out: its header fields, its `struct rtmsg` and its attributes. */
  datatype RouteReply = RouteReply(flags: uint16, seqno: uint32, pid: uint32, header: seq<byte>, attrs: seq<Attr>)

  predicate Encodable(r: RouteReply) {
    && |r.header| == RTMSG_SIZE
    && (forall a :: a in r.attrs ==> RTATTR_SIZE + |a.payload| < 0x1_0000)
    && NLMSG_HDRLEN + RTMSG_SIZE + |EncodeAttrs(r.attrs)| < 0x1_0000_0000
  }

  function RouteMsg(r: RouteReply): Msg
    requires Encodable(r)
  {
    Msg(RTM_NEWROUTE, r.flags, r.seqno, r.pid, r.header + EncodeAttrs(r.attrs))
  }

  predicate AllEncodable(rs: seq<RouteReply>) {
    forall i :: 0 <= i < |rs| ==> Encodable(rs[i])
  }

  function RouteMsgs(rs: seq<RouteReply>): (msgs: seq<Msg>)
    requires AllEncodable(rs)
    ensures |msgs| == |rs|
    ensures forall m :: m in msgs ==> NLMSG_HDRLEN + |m.payload| < 0x1_0000_0000 && m.kind == RTM_NEWROUTE
  {
    seq(|rs|, i requires 0 <= i < |rs| => RouteMsg(rs[i]))
  }

  /** The replies that pass the pid filter. */
  function ForUs(rs: seq<RouteReply>, requestPid: uint32, selfPid: int): (r: seq<RouteReply>)
    ensures AllEncodable(rs) ==> AllEncodable(r)
  {
    if rs == [] then []
    else
      var rest := ForUs(rs[1..], requestPid, selfPid);
      if Accepted(rs[0].pid, requestPid, selfPid) then [rs[0]] + rest else rest
  }

  lemma {:induction false} RoutesOfReplies(rs: seq<RouteReply>, requestPid: uint32, selfPid: int)
    requires AllEncodable(rs)
    ensures Routes(RouteMsgs(rs), requestPid, selfPid) == RouteMsgs(ForUs(rs, requestPid, selfPid))
    decreases |rs|
  {
    hide EncodeAttrs, Encodable, Accepted;
    if rs == [] {
      assert RouteMsgs(rs) == [];
    } else {
      RoutesOfReplies(rs[1..], requestPid, selfPid);
      FirstReply(rs);
      var rest := ForUs(rs[1..], requestPid, selfPid);
      if Accepted(rs[0].pid, requestPid, selfPid) {
        FirstReply([rs[0]] + rest);
      }
    }
  }

  lemma {:induction false} FirstReply(rs: seq<RouteReply>)
    requires rs != [] && AllEncodable(rs)
    ensures AllEncodable(rs[1..])
    ensures RouteMsgs(rs) == [RouteMsg(rs[0])] + RouteMsgs(rs[1..]) && RouteMsgs(rs)[1..] == RouteMsgs(rs[1..])
    ensures RTMSG_SIZE <= |RouteMsg(rs[0]).payload|
  {
    hide EncodeAttrs;
  }

  /** The first `end` bytes are the layout of these route messages. */
  predicate EncodesRoutes(b: seq<byte>, end: nat, rs: seq<RouteReply>) {
    AllEncodable(rs) && end <= |b| && b[..end] == EncodeMsgs(RouteMsgs(rs))
  }

  lemma TooLongToEncode(b: seq<byte>, end: nat)
    requires end > |b|
    ensures forall rs: seq<RouteReply> :: !EncodesRoutes(b, end, rs)
  {
  }

  /** One table for each reply to this process, in order, every entry the reply's last attribute of its type. */
  ghost predicate ShowsReplies(b: seq<byte>, replies: seq<RouteReply>, rtaMax: nat, shown: seq<Shown>) {
    && |shown| == |replies|
    && forall i :: 0 <= i < |shown| ==>
         && |shown[i].tb| == rtaMax + 1
         && forall t :: 0 <= t <= rtaMax ==> EntryIsLast(b, shown[i].tb[t], replies[i].attrs, t)
  }

  /** End to end: route messages laid out, received and walked show exactly the attributes they were built from. */
  lemma {:induction false} EncodedRoutesShown(
    b: seq<byte>, end: nat, rs: seq<RouteReply>, requestPid: uint32, selfPid: int, rtaMax: nat, shown: seq<Shown>)
    requires EncodesRoutes(b, end, rs)
    requires ShowsRoutes(b, RoutesReached(b, 0, end, requestPid, selfPid), rtaMax, shown)
    ensures CleanResponse(b, 0, end, requestPid, selfPid)
    ensures ShowsReplies(b, ForUs(rs, requestPid, selfPid), rtaMax, shown)
  {
    hide EncodeMsgs, HoldsMsgs, RoutesReached, IsTableOf, Encodable, MsgAt, NlmsgOk, EntryIsLast;
    var msgs, replies := RouteMsgs(rs), ForUs(rs, requestPid, selfPid);
    EncodedMsgsHeld([], msgs, b[end..]);
    assert [] + EncodeMsgs(msgs) + b[end..] == b;
    assert forall m :: m in msgs ==> !Ends(m, requestPid, selfPid);
    CleanRoutesReached(b, 0, end, msgs, requestPid, selfPid);
    RoutesOfReplies(rs, requestPid, selfPid);
    var offs := RoutesReached(b, 0, end, requestPid, selfPid);
    forall i | 0 <= i < |offs|
      ensures |shown[i].tb| == rtaMax + 1
      ensures forall t :: 0 <= t <= rtaMax ==> EntryIsLast(b, shown[i].tb[t], replies[i].attrs, t)
    {
      assert MsgAt(b, offs[i]) == MsgsAt(b, offs, end)[i] == RouteMsg(replies[i]);
      ReplyShown(b, offs[i], replies[i], rtaMax, shown[i].tb);
    }
  }

  lemma {:induction false} ReplyShown(b: seq<byte>, h: nat, r: RouteReply, rtaMax: nat, tb: Table)
    requires Encodable(r) && NlmsgOk(b, h, |b|) && MsgAt(b, h) == RouteMsg(r) && IsTableOf(b, h, rtaMax, tb)
    ensures |tb| == rtaMax + 1
    ensures forall t :: 0 <= t <= rtaMax ==> EntryIsLast(b, tb[t], r.attrs, t)
  {
    hide HoldsAttrs, EncodeAttrs, MsgAt, NlmsgOk, LastOfKind;
    BuiltRouteHoldsAttrs(b, h, r.header, r.attrs);
    forall t | 0 <= t <= rtaMax ensures EntryIsLast(b, tb[t], r.attrs, t) {
      TableOfHeldAttrs(b, h, rtaMax, tb, r.attrs, t);
    }
  }

  /** Replies that carry the pid of the request or of this process are all kept. */
  lemma {:induction false} ForUsKeepsOurs(rs: seq<RouteReply>, requestPid: uint32, selfPid: int)
    requires selfPid < 0x8000_0000
    requires forall r :: r in rs ==> r.pid != 0 && (r.pid == requestPid || r.pid == selfPid)
    ensures ForUs(rs, requestPid, selfPid) == rs
    decreases |rs|
  {
    if rs == [] {
    } else {
      assert rs[0] in rs && forall r :: r in rs[1..] ==> r in rs;
      ForUsKeepsOurs(rs[1..], requestPid, selfPid);
      assert rs == [rs[0]] + rs[1..];
    }
  }

  /** Replies that carry no pid or another one are all dropped. */
  lemma {:induction false} ForUsDropsOthers(rs: seq<RouteReply>, requestPid: uint32, selfPid: int)
    requires 0 <= selfPid
    requires forall r :: r in rs ==> r.pid == 0 || (r.pid != requestPid && r.pid != selfPid)
    ensures ForUs(rs, requestPid, selfPid) == []
    decreases |rs|
  {
    if rs == [] {
    } else {
      assert rs[0] in rs && forall r :: r in rs[1..] ==> r in rs;
      ForUsDropsOthers(rs[1..], requestPid, selfPid);
    }
  }

  lemma {:induction false} ForUsAppend(rs: seq<RouteReply>, qs: seq<RouteReply>, requestPid: uint32, selfPid: int)
    ensures ForUs(rs + qs, requestPid, selfPid) == ForUs(rs, requestPid, selfPid) + ForUs(qs, requestPid, selfPid)
    decreases |rs|
  {
    hide Accepted;
    if rs == [] {
      assert rs + qs == qs;
    } else {
      assert (rs + qs)[1..] == rs[1..] + qs;
      ForUsAppend(rs[1..], qs, requestPid, selfPid);
    }
  }

  // ----- A reply of one message, in numbers

  /** Four bytes read as a number, the first counting ones. */
  function Number4(b: seq<byte>, off: nat): nat
    requires off + 4 <= |b|
  {
    b[off] as nat + 0x100 * b[off + 1] as nat + 0x1_0000 * b[off + 2] as nat + 0x100_0000 * b[off + 3] as nat
  }

  /**
   What the client makes of `n` bytes that are one message. It fails on an end marker (type 3) and on an
   error (type 2) that is truncated or not zero, and shows a new route (type 24) with a whole route header,
   but only if the message carries the pid of the request or of this process.
   */
  predicate OneMessageOutcome(b: seq<byte>, n: nat, requestPid: uint32, selfPid: int, failed: bool, count: nat)
    requires 20 <= |b|
  {
    var kind, pid := b[4] as nat + 0x100 * b[5] as nat, Number4(b, 12);
    var ours := pid != 0 && (pid == requestPid || pid == selfPid);
    && (failed <==> ours && (kind == 3 || (kind == 2 && (n < 36 || b[16..20] != [0, 0, 0, 0]))))
    && count == if ours && kind == 24 && 28 <= n then 1 else 0
  }

  lemma NumberIs(b: seq<byte>, off: nat)
    requires off + 4 <= |b|
    ensures LittleEndian32(b, off) == Number4(b, off)
    ensures LittleEndian32(b, off) == 0 <==> b[off..off + 4] == [0, 0, 0, 0]
  {
    var s := b[off..off + 4];
    assert s[0] == b[off] && s[1] == b[off + 1] && s[2] == b[off + 2] && s[3] == b[off + 3];
  }

  lemma {:induction false} OneMessageReply(b: seq<byte>, n: nat, requestPid: uint32, selfPid: int)
    requires 20 <= |b| && 16 <= n <= |b| && Number4(b, 0) == n && 0 <= selfPid < 0x8000_0000
    ensures OneMessageOutcome(b, n, requestPid, selfPid, !CleanResponse(b, 0, n, requestPid, selfPid),
                              |RoutesReached(b, 0, n, requestPid, selfPid)|)
  {
    hide CleanResponse, Ends, IsRoute, RoutesReached, WalkSucceeds, Align4, LittleEndian32, Number4;
    NumberIs(b, 0);
    NumberIs(b, 12);
    NumberIs(b, 16);
    StepOver(b, 0, n, requestPid, selfPid);
    StepOver(b, NlmsgNext(b, 0), n, requestPid, selfPid);
    Classify(b, 0, requestPid, selfPid);
    SucceedsIffClean(b, 0, n, requestPid, selfPid);
    assert NlmsgOk(b, 0, n) && !NlmsgOk(b, NlmsgNext(b, 0), n);
  }

  /** A route reply to process 4711 with one attribute, of type 4, byte by byte. */
  function ExampleReply(): (b: seq<byte>)
    ensures |b| == 36
  {
    [36, 0, 0, 0, 24, 0, 2, 0, 1, 0, 0, 0, 0x67, 0x12, 0, 0]
    + [2, 0, 0, 0, 254, 4, 0, 1, 0, 0, 0, 0]
    + [8, 0, 4, 0, 2, 0, 0, 0]
  }

  lemma ExampleAttribute()
    ensures var b := ExampleReply();
            && LittleEndian32(b, 0) == 36 && LittleEndian16(b, 28) == 8 && LittleEndian16(b, 30) == 4
            && b[32..36] == [2, 0, 0, 0]
  {
  }

  /** Its table points at the attribute, which is the four bytes from offset 32 on. */
  lemma ExampleTable(tb: Table)
    requires IsTableOf(ExampleReply(), 0, 5, tb)
    ensures tb == [None, None, None, None, Some(28), None]
    ensures AttrAt(ExampleReply(), 28) == Attr(4, [2, 0, 0, 0])
  {
    var b := ExampleReply();
    ExampleAttribute();
    hide ExampleReply, LittleEndian16, LittleEndian32;
    assert AttrWalk(b, 28, 36) == [28];
    forall t | 0 <= t <= 5 ensures tb[t] == if t == 4 then Some(28) else None {
      LastOfKindSnoc(b, [], 28, t);
      assert [] + [28] == [28];
    }
  }

  /**
   The client from the return of `recvfrom` to its exit code: 0 on success, -1 on failure. `recvlen` may
   be negative or, with truncation reported, larger than the buffer. `shown` are the tables it prints.
   */
  method WalkResponse(buf: array<byte>, recvlen: int, requestPid: uint32, selfPid: int, rtaMax: nat)
    returns (rc: int, shown: seq<Shown>)
    requires buf.Length == 4096
    ensures rc == 0 || rc == -1
    ensures rc == 0 <==> 0 <= recvlen <= buf.Length && CleanResponse(buf[..], 0, recvlen, requestPid, selfPid)
    ensures 0 <= recvlen <= buf.Length ==>
              ShowsRoutes(buf[..], RoutesReached(buf[..], 0, recvlen, requestPid, selfPid), rtaMax, shown)
    ensures 0 <= recvlen <= buf.Length ==> ShownInside(buf[..], recvlen, rtaMax, shown)
    ensures !(0 <= recvlen <= buf.Length) ==> shown == []
    ensures 0 <= recvlen < 16 ==> (rc == 0 <==> recvlen == 0) && shown == []
    ensures 16 <= recvlen <= buf.Length && Number4(buf[..], 0) == recvlen && 0 <= selfPid < 0x8000_0000 ==>
              OneMessageOutcome(buf[..], recvlen, requestPid, selfPid, rc == -1, |shown|)
    ensures forall rs: seq<RouteReply> :: 0 <= recvlen && EncodesRoutes(buf[..], recvlen, rs) ==>
              rc == 0 && ShowsReplies(buf[..], ForUs(rs, requestPid, selfPid), rtaMax, shown)
  {
    hide LittleEndian16, LittleEndian32, Align4, IsTableOf, CleanResponse, RoutesReached, WalkSucceeds, ShowsRoutes,
      MsgAt, Ends, IsRoute, EncodesRoutes, ShowsReplies, ShownInside,
      Number4, OneMessageOutcome;
    if recvlen < 0 {
      return -1, [];
    }
    if recvlen > buf.Length {
      assert forall rs :: !EncodesRoutes(buf[..], recvlen, rs) by { TooLongToEncode(buf[..], recvlen); }
      return -1, [];
    }
    shown := [];
    var h, msglen: int := 0, recvlen;
    ghost var b := buf[..];
    NothingShown(b, rtaMax);
    ghost var done: seq<nat> := [];
    SucceedsIffClean(b, 0, recvlen, requestPid, selfPid);
    while msglen >= NLMSG_HDRLEN
          && LittleEndian32(buf[..], h) >= NLMSG_HDRLEN
          && LittleEndian32(buf[..], h) <= msglen
      invariant buf[..] == b && 0 <= h && h + msglen == recvlen
      invariant ShowsRoutes(b, done, rtaMax, shown)
      invariant RoutesReached(b, 0, recvlen, requestPid, selfPid)
                == done + RoutesReached(b, h, recvlen, requestPid, selfPid)
      invariant WalkSucceeds(b, 0, recvlen, requestPid, selfPid)
                == WalkSucceeds(b, h, recvlen, requestPid, selfPid)
      decreases msglen
    {
      var nlmsgLen, kind := LittleEndian32(buf[..], h), LittleEndian16(buf[..], h + 4);
      var pid := LittleEndian32(buf[..], h + 12);
      StepOver(b, h, recvlen, requestPid, selfPid);
      Classify(b, h, requestPid, selfPid);
      if pid == 0 || (pid != 0 && pid != requestPid && AsInt32(pid) != selfPid) {
        // not for this process: skip it
      } else if kind == NLMSG_DONE {
        break;
      } else if kind == NLMSG_ERROR {
        if nlmsgLen < NLMSG_HDRLEN + NLMSGERR_SIZE {
          break;
        }
        if LittleEndian32(buf[..], h + NLMSG_HDRLEN) != 0 {
          break;
        }
        // an error of zero is an ack: skip it
      } else {
        var filtered, tb := FilterRoute(buf, h, RTM_NEWROUTE, rtaMax);
        if filtered == 0 {
          NextRouteShown(b, done, rtaMax, shown, h, tb);
          shown := shown + [Shown(h, tb)];
          done := done + [h];
        }
      }
      h, msglen := h + Align4(nlmsgLen), msglen - Align4(nlmsgLen);
    }
    StepOver(b, h, recvlen, requestPid, selfPid);
    assert done + [] == done;
    if msglen > 0 {
      rc := -1;
    } else {
      rc := 0;
    }
    RoutesShownInside(b, recvlen, requestPid, selfPid, rtaMax, shown);
    StepOver(b, 0, recvlen, requestPid, selfPid);
    HowManyShown(b, RoutesReached(b, 0, recvlen, requestPid, selfPid), rtaMax, shown);
    if 16 <= recvlen && Number4(b, 0) == recvlen && 0 <= selfPid < 0x8000_0000 {
      OneMessageReply(b, recvlen, requestPid, selfPid);
    }
    forall rs: seq<RouteReply> | EncodesRoutes(b, recvlen, rs)
      ensures CleanResponse(b, 0, recvlen, requestPid, selfPid)
      ensures ShowsReplies(b, ForUs(rs, requestPid, selfPid), rtaMax, shown)
    {
      EncodedRoutesShown(b, recvlen, rs, requestPid, selfPid, rtaMax, shown);
    }
  }
}
