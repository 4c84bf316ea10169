/** The frames of FrameFormat.dfy byte by byte, with the numbers of IEEE 802.11 and of the Ethernet
    types written out; the lengths each cipher adds and takes away; and the way of a frame's traffic
    identifier from the network stack to the reorder buffer. */
module FrameBytes {
  import opened Options
  import opened FrameFormat

  // ---------------------------------------------------------------- 802.3 to 802.11

  function EtherType(eth: seq<Byte>): nat
    requires |eth| >= ETH_HLEN
  {
    var high: int, low: int := eth[12], eth[13];
    0x100 * high + low
  }

  /** The data frame made of an Ethernet frame: a QoS data frame or a plain one, to or from the
      distribution system; a station's addresses are the BSSID, its own source and the destination
      (without an LLC header, what has come to lie there), an access point's are the destination,
      its own and the source; the priority in the QoS control field; then the LLC header, if the
      Ethernet type calls for one. */
  ghost predicate MadeOf(f: seq<Byte>, eth: seq<Byte>, own: seq<Byte>, bssid: seq<Byte>, ap: bool, qos: bool,
                         priority: nat)
    requires |eth| >= ETH_HLEN && |own| == |bssid| == 6
  {
    var h, t := if qos then 26 else 24, EtherType(eth);
    && |f| >= h
    && f[0] == (if qos then 0x88 else 0x08) && f[1] == (if ap then 0x02 else 0x01) && f[2..4] == [0, 0]
    && f[4..10] == (if ap then eth[0..6] else bssid)
    && f[10..16] == (if ap then own else eth[6..12])
    && f[16..22] == (if ap then eth[6..12] else if t > 0x600 then eth[0..6]
                     else if qos then eth[8..12] + eth[8..10] else eth[6..12])
    && f[22..24] == [0, 0]
    && (qos ==> f[24] == priority % 8 && f[25] == 0)
    && f[h..] == if t == 0x80F3 || t == 0x8137 then [0xaa, 0xaa, 0x03, 0x00, 0x00, 0xf8] + eth[12..]
                 else if t > 0x600 then [0xaa, 0xaa, 0x03, 0x00, 0x00, 0x00] + eth[12..] else eth[14..]
  }

  lemma FrameControlBytes(iftype: IfType, qos: bool)
    requires iftype == Ap || iftype == Station
    ensures Le16(FcOf(iftype, qos)) == [if qos then 0x88 else 0x08, if iftype == Ap then 0x02 else 0x01]
  {}

  lemma BodyBytes(eth: seq<Byte>)
    requires |eth| >= ETH_HLEN
    ensures BodyOf(eth) ==
      if EtherType(eth) == 0x80F3 || EtherType(eth) == 0x8137 then [0xaa, 0xaa, 0x03, 0x00, 0x00, 0xf8] + eth[12..]
      else if EtherType(eth) > 0x600 then [0xaa, 0xaa, 0x03, 0x00, 0x00, 0x00] + eth[12..] else eth[14..]
  {}

  lemma ThirdBytes(eth: seq<Byte>, qos: bool)
    requires |eth| >= ETH_HLEN
    ensures StationThird(eth, qos) ==
      if EtherType(eth) > 0x600 then eth[0..6] else if qos then eth[8..12] + eth[8..10] else eth[6..12]
  {
    assert Source(eth)[2..] == eth[8..12] && Source(eth)[2..4] == eth[8..10];
  }

  /** Every accepted frame is made so. */
  lemma From8023Bytes(eth: seq<Byte>, own: seq<Byte>, bssid: seq<Byte>, iftype: IfType, qos: bool, priority: nat)
    requires |eth| >= ETH_HLEN && |own| == |bssid| == 6 && (iftype == Ap || iftype == Station)
    ensures MadeOf(From8023(eth, own, bssid, iftype, qos, priority), eth, own, bssid, iftype == Ap, qos, priority)
  {
    hide FcOf, Le16, Header, BodyOf, StationThird, EtherType, Overwritten;
    var fc, tail := FcOf(iftype, qos), QosField(qos, priority);
    FrameControlBytes(iftype, qos);
    BodyBytes(eth);
    ThirdBytes(eth, qos);
    var a1, a2, a3 := if iftype == Ap then Dest(eth) else bssid, if iftype == Ap then own else Source(eth),
      if iftype == Ap then Source(eth) else StationThird(eth, qos);
    HeaderBytes(fc, a1, a2, a3, tail, BodyOf(eth));
    var f := Header(fc, [0, 0], a1, a2, a3, [0, 0], tail) + BodyOf(eth);
    assert f == From8023(eth, own, bssid, iftype, qos, priority);
    assert f[0] == f[0..2][0] && f[1] == f[0..2][1];
    assert qos ==> f[24] == f[24..26][0] && f[25] == f[24..26][1];
  }

  lemma HeaderBytes(fc: nat, a1: seq<Byte>, a2: seq<Byte>, a3: seq<Byte>, tail: seq<Byte>, rest: seq<Byte>)
    requires fc < 0x1_0000 && |a1| == |a2| == |a3| == 6
    ensures var f := Header(fc, [0, 0], a1, a2, a3, [0, 0], tail) + rest;
      && |f| >= 24 + |tail| && f[0..2] == Le16(fc) && f[2..4] == [0, 0] && f[4..10] == a1 && f[10..16] == a2
      && f[16..22] == a3 && f[22..24] == [0, 0] && f[24..24 + |tail|] == tail && f[24 + |tail|..] == rest
  {
    hide Le16;
  }

  // ---------------------------------------------------------------- 802.11 to 802.3

  /** Type and subtype are in the first byte of the frame control field. */
  lemma FirstByte(b0: nat, b1: nat)
    requires b0 < 256
    ensures var fc := b0 + 256 * b1;
      FrameType(fc) == b0 / 4 % 4 && (HasBit(fc, 0x40) <==> b0 / 0x40 % 2 == 1) && (HasBit(fc, 0x80) <==> b0 >= 0x80)
  {
    TypeBits(b0, b1);
    assert (b0 + 256 * b1) / 0x80 == b0 / 0x80 + 2 * b1;
    assert (b0 + 256 * b1) / 0x40 == b0 / 0x40 + 4 * b1;
  }

  lemma TypeBits(b0: nat, b1: nat)
    requires b0 < 256
    ensures (b0 + 256 * b1) / 4 % 4 == b0 / 4 % 4
  {
    var q := b0 / 4;
    assert (b0 + 256 * b1) / 4 == q + 64 * b1;
    assert q + 64 * b1 == 4 * (q / 4 + 16 * b1) + q % 4;
  }

  lemma Subtype(b0: nat, b1: nat)
    requires b0 < 256
    ensures (b0 + 256 * b1) / 0x20 % 8 == b0 / 0x20
  {
    assert (b0 + 256 * b1) / 0x20 == b0 / 0x20 + 8 * b1;
  }

  /** The flags are in the second. */
  lemma SecondByte(b0: nat, b1: nat)
    requires b0 < 256 && b1 < 256
    ensures var fc := b0 + 256 * b1;
      && (HasBit(fc, FCTL_TODS) <==> b1 % 2 == 1) && (HasBit(fc, FCTL_FROMDS) <==> b1 / 2 % 2 == 1)
      && (HasBit(fc, FCTL_PROTECTED) <==> b1 / 0x40 % 2 == 1) && (HasBit(fc, FCTL_ORDER) <==> b1 >= 0x80)
  {
    var fc := b0 + 256 * b1;
    assert fc / 0x100 == b1 && fc / 0x200 == b1 / 2 && fc / 0x4000 == b1 / 0x40 && fc / 0x8000 == b1 / 0x80;
  }

  /** How long the header of a frame is, by its first two bytes. */
  function HeaderSize(f: seq<Byte>): nat
    requires |f| >= 2
  {
    if f[0] / 4 % 4 == 2 then
      24 + (if f[1] % 4 == 3 then 6 else 0) + (if f[0] < 0x80 then 0 else if f[1] < 0x80 then 2 else 6)
    else if f[0] / 4 % 4 == 1 then if f[0] / 16 == 0xC || f[0] / 16 == 0xD then 10 else 16
    else 24
  }

  predicate CarriesData(f: seq<Byte>)
    requires |f| >= 2
  {
    f[0] / 4 % 4 == 2 && f[0] / 0x40 % 2 == 0
  }

  lemma ControlBytes(f: seq<Byte>)
    requires |f| >= 2
    ensures HdrLen(ReadLe16(f)) == HeaderSize(f) && IsDataPresent(ReadLe16(f)) == CarriesData(f)
    ensures HasBit(ReadLe16(f), FCTL_TODS) == (f[1] % 2 == 1) && HasBit(ReadLe16(f), FCTL_FROMDS) == (f[1] / 2 % 2 == 1)
  {
    hide FrameType, HasBit;
    FirstByte(f[0], f[1]);
    SecondByte(f[0], f[1]);
    SizeFromBits(f);
  }

  lemma SizeFromBits(f: seq<Byte>)
    requires |f| >= 2
    ensures HdrLen(ReadLe16(f)) == HeaderSize(f)
  {
    hide FrameType, HasBit;
    FirstByte(f[0], f[1]);
    Subtype(f[0], f[1]);
    SecondByte(f[0], f[1]);
    BothDirections(f[1]);
  }

  lemma BothDirections(b: nat)
    ensures b % 4 == 3 <==> b % 2 == 1 && b / 2 % 2 == 1
  {}

  /** Whether a payload is taken to start with an LLC header: of RFC 1042, unless the type behind it is
      AARP or IPX, or of the bridge tunnel. */
  predicate StartsWithLlc(seen: seq<Byte>)
    requires |seen| >= 8
  {
    || ([0xaa, 0xaa, 0x03, 0x00, 0x00, 0x00] <= seen && seen[6..8] != [0x80, 0xF3] && seen[6..8] != [0x81, 0x37])
    || [0xaa, 0xaa, 0x03, 0x00, 0x00, 0xf8] <= seen
  }

  /** The Ethernet frame made of a data frame, or none. To an access point the frame goes to its third
      address and comes from its second, from one to its first and from its third, and else to its
      first and from its second. The addresses take the place of an LLC header; otherwise they go
      before the two bytes read as its type, the later first. */
  ghost predicate MadeOfData(eth: Option<seq<Byte>>, f: seq<Byte>, beyond: seq<Byte>, own: seq<Byte>, iftype: IfType)
    requires |f| >= 2 && (CarriesData(f) ==> |f| >= HeaderSize(f)) && |beyond| >= 8
  {
    if !CarriesData(f) then eth.None?
    else
      var toDs, fromDs := f[1] % 2 == 1, f[1] / 2 % 2 == 1;
      var dst, src := if toDs then f[16..22] else f[4..10], if fromDs then f[16..22] else f[10..16];
      var taken :=
        if toDs then !fromDs && iftype == Ap
        else if fromDs then iftype == Station && !(f[4] % 2 == 1 && src == own)
        else iftype == Adhoc || iftype == Station;
      var body := f[HeaderSize(f)..];
      var seen := body + beyond;
      eth == if !taken then None
             else if !StartsWithLlc(seen) then Some(dst + src + [seen[7], seen[6]] + body)
             else if |body| < 6 then Some((dst + src)[..6 + |body|])
             else Some(dst + src + body[6..])
  }

  lemma LlcBytes(seen: seq<Byte>)
    requires |seen| >= 8
    ensures Decapsulates(seen) == StartsWithLlc(seen)
    ensures Le16(ReadBe16(seen, 6)) == [seen[7], seen[6]]
  {
    assert seen[6..8] == [seen[6], seen[7]];
    assert RFC1042 <= seen <==> seen[..6] == RFC1042;
    assert BRIDGE_TUNNEL <= seen <==> seen[..6] == BRIDGE_TUNNEL;
  }

  lemma To8023Bytes(f: seq<Byte>, beyond: seq<Byte>, own: seq<Byte>, iftype: IfType)
    requires |f| >= 2 && (CarriesData(f) ==> |f| >= HeaderSize(f)) && |beyond| >= 8
    ensures IsDataPresent(ReadLe16(f)) ==> |f| >= HdrLen(ReadLe16(f))
    ensures MadeOfData(To8023(f, beyond, own, iftype), f, beyond, own, iftype)
  {
    hide ReadLe16, HasBit, IsDataPresent, HdrLen, Decapsulates, StartsWithLlc, Le16, ReadBe16;
    ControlBytes(f);
    if CarriesData(f) {
      LlcBytes(f[HeaderSize(f)..] + beyond);
      Grouped(DestOf(f), SourceOf(f), Le16(ReadBe16(f[HeaderSize(f)..] + beyond, 6)), f[HeaderSize(f)..]);
    }
  }

  lemma Grouped(a: seq<Byte>, b: seq<Byte>, c: seq<Byte>, d: seq<Byte>)
    ensures a + b + (c + d) == a + b + c + d
  {}

  // ---------------------------------------------------------------- what a cipher adds

  /** How many bytes each cipher puts before and behind the body; they are taken off again, behind the
      body only if the device has not done so, as it has after a MIC failure. */
  lemma CipherLengths(c: Cipher, micFailure: bool)
    ensures TxLens(Wep) == (4, 4) && TxLens(Tkip) == (8, 12) && TxLens(Ccmp) == (8, 8) && TxLens(Sms4) == (18, 16)
    ensures RxLens(c, micFailure) == (TxLens(c).0, if micFailure then 0 else TxLens(c).1)
  {}

  /** What protecting a frame does to its control field. */
  lemma MarkBytes(f: seq<Byte>)
    requires |f| >= 2
    ensures Marked(ReadLe16(f), true) < 0x1_0000
    ensures Le16(Marked(ReadLe16(f), true)) == [f[0], f[1] + if f[1] / 0x40 % 2 == 1 then 0 else 0x40]
  {
    hide HasBit;
    SecondByte(f[0], f[1]);
  }

  lemma SameHeaderSize(f: seq<Byte>, r: seq<Byte>)
    requires |f| >= 2 && |r| >= 2 && r[0] == f[0] && r[1] == f[1] + if f[1] / 0x40 % 2 == 1 then 0 else 0x40
    ensures HeaderSize(r) == HeaderSize(f)
  {}

  lemma StripPieces(air: seq<Byte>, header: seq<Byte>, iv: seq<Byte>, body: seq<Byte>, icv: seq<Byte>)
    requires air == header + iv + body + icv && |air| >= 2 && |header| == HdrLen(ReadLe16(air))
    ensures Strip(air, |iv|, |icv|) == Some(header + body)
    ensures Strip(air, |iv|, 0) == Some(header + body + icv)
  {
    hide HdrLen, ReadLe16;
    assert air[..|header|] == header;
    assert air[|header| + |iv|..|air| - |icv|] == body;
    assert air[|header| + |iv|..|air| - 0] == body + icv;
    assert header + (body + icv) == header + body + icv;
  }

  /** The header on the air, next to the one before. */
  lemma AirHeaderBytes(f: seq<Byte>, duration: seq<Byte>, sc: seq<Byte>)
    requires |f| >= 24 && |f| >= HeaderSize(f) >= 24 && |duration| == |sc| == 2
    ensures HdrLen(ReadLe16(f)) == HeaderSize(f) && Marked(ReadLe16(f), true) < 0x1_0000
    ensures var r := AirHeader(f, true, duration, sc);
      && |r| == HeaderSize(f) && r[0] == f[0] && r[1] == f[1] + (if f[1] / 0x40 % 2 == 1 then 0 else 0x40)
      && r[2..4] == duration && r[22..24] == sc
      && forall i :: 0 <= i < |r| && i !in [1, 2, 3, 22, 23] ==> r[i] == f[i]
  {
    hide HdrLen, ReadLe16, Marked, HeaderSize, Le16;
    ControlBytes(f);
    MarkBytes(f);
    var r := AirHeader(f, true, duration, sc);
    assert forall i :: 4 <= i < 22 ==> r[i] == f[4..22][i - 4];
    assert forall i :: 24 <= i < |r| ==> r[i] == f[24..|r|][i - 24];
  }

  /** A frame protected with a cipher and stripped as one of the same cipher: what is left is the frame,
      with the Protected bit and what the device fills in. After a MIC failure only the IV goes. */
  lemma CipherRoundTrip(f: seq<Byte>, c: Cipher, iv: seq<Byte>, icv: seq<Byte>, duration: seq<Byte>, sc: seq<Byte>)
    requires |f| >= 24 && |f| >= HeaderSize(f) >= 24 && |duration| == |sc| == 2
    requires (|iv|, |icv|) == TxLens(c)
    ensures HdrLen(ReadLe16(f)) == HeaderSize(f) && Marked(ReadLe16(f), true) < 0x1_0000
    ensures var air, lens, failed := OnAir(f, true, iv, icv, duration, sc), RxLens(c, false), RxLens(c, true);
      && |air| == |f| + |iv| + |icv|
      && var r := Strip(air, lens.0, lens.1);
      && r.Some? && |r.value| == |f|
      && r.value[1] == f[1] + (if f[1] / 0x40 % 2 == 1 then 0 else 0x40)
      && r.value[2..4] == duration && r.value[22..24] == sc
      && (forall i :: 0 <= i < |f| && i !in [1, 2, 3, 22, 23] ==> r.value[i] == f[i])
      && Strip(air, failed.0, failed.1) == Some(r.value + icv)
  {
    hide HdrLen, ReadLe16, Marked, HeaderSize, Le16, AirHeader, Strip;
    AirHeaderBytes(f, duration, sc);
    CipherLengths(c, false);
    CipherLengths(c, true);
    var header, h := AirHeader(f, true, duration, sc), HeaderSize(f);
    var air := OnAir(f, true, iv, icv, duration, sc);
    SameHeaderSize(f, air);
    ControlBytes(air);
    StripPieces(air, header, iv, f[h..], icv);
    var r := header + f[h..];
    assert forall i :: h <= i < |f| ==> r[i] == f[i];
    assert r[2..4] == header[2..4] && r[22..24] == header[22..24];
  }

  // ---------------------------------------------------------------- the traffic identifier

  /** The traffic identifier the reorder buffer is chosen by: the low three bits of the QoS control
      field, which lies behind the addresses. */
  function Tid(f: seq<Byte>): nat
    requires |f| >= 2 && |f| > if f[1] % 4 == 3 then 30 else 24
  {
    f[if f[1] % 4 == 3 then 30 else 24] % 8
  }

  /** The priority the network stack gives a frame is the traffic identifier it is received under:
      conversion, insertion and removal leave the field alone. */
  lemma TidArrives(f: seq<Byte>, eth: seq<Byte>, own: seq<Byte>, bssid: seq<Byte>, ap: bool, priority: nat, c: Cipher,
                   micFailure: bool, iv: seq<Byte>, icv: seq<Byte>, duration: seq<Byte>, sc: seq<Byte>)
    requires |eth| >= ETH_HLEN && |own| == |bssid| == 6 && MadeOf(f, eth, own, bssid, ap, true, priority)
    requires |duration| == |sc| == 2 && (|iv|, |icv|) == TxLens(c)
    ensures |f| >= HdrLen(ReadLe16(f)) >= 24 && Marked(ReadLe16(f), true) < 0x1_0000
    ensures |f| >= 26 && Tid(f) == priority % 8
    ensures var air, lens := OnAir(f, true, iv, icv, duration, sc), RxLens(c, micFailure);
      |air| >= 2 && match Strip(air, lens.0, lens.1)
        case Some(rx) => |rx| >= 26 && Tid(rx) == priority % 8
        case None => false
  {
    hide HdrLen, ReadLe16, Marked, OnAir, Strip, RxLens, TxLens, Tid, HeaderSize, MadeOf;
    QosHead(f, eth, own, bssid, ap, priority);
    StrippedTid(f, c, micFailure, iv, icv, duration, sc);
    TidPlace(f, f[1]);
    var lens := RxLens(c, micFailure);
    TidPlace(Strip(OnAir(f, true, iv, icv, duration, sc), lens.0, lens.1).value, f[1]);
  }

  lemma StrippedTid(f: seq<Byte>, c: Cipher, micFailure: bool, iv: seq<Byte>, icv: seq<Byte>, duration: seq<Byte>,
                    sc: seq<Byte>)
    requires |f| >= 26 && HeaderSize(f) == 26 && |duration| == |sc| == 2 && (|iv|, |icv|) == TxLens(c)
    ensures HdrLen(ReadLe16(f)) == 26 && Marked(ReadLe16(f), true) < 0x1_0000
    ensures var air, lens := OnAir(f, true, iv, icv, duration, sc), RxLens(c, micFailure);
      && |air| >= 2
      && var rx := Strip(air, lens.0, lens.1);
      && rx.Some? && |rx.value| >= 26 && rx.value[24] == f[24]
      && rx.value[1] == f[1] + if f[1] / 0x40 % 2 == 1 then 0 else 0x40
  {
    hide HdrLen, ReadLe16, Marked, OnAir, Strip, RxLens, HeaderSize;
    CipherRoundTrip(f, c, iv, icv, duration, sc);
    CipherLengths(c, micFailure);
    CipherLengths(c, false);
    CipherLengths(c, true);
  }

  lemma QosHead(f: seq<Byte>, eth: seq<Byte>, own: seq<Byte>, bssid: seq<Byte>, ap: bool, priority: nat)
    requires |eth| >= ETH_HLEN && |own| == |bssid| == 6 && MadeOf(f, eth, own, bssid, ap, true, priority)
    ensures |f| >= 26 && HeaderSize(f) == 26 && (f[1] == 1 || f[1] == 2) && f[24] == priority % 8
  {}

  lemma TidPlace(f: seq<Byte>, direction: nat)
    requires |f| >= 26 && (direction == 1 || direction == 2) && (f[1] == direction || f[1] == direction + 0x40)
    ensures Tid(f) == f[24] % 8
  {}
}
