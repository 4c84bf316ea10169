/** 802.3 and 802.11 data frames as byte sequences: what net/atbm_util.c and the IV/ICV code of
    hal/atbm_txrx.c turn one into the other, and what survives the way from the transmitter's
    network stack to the receiver's. Conversion.dfy proves that the in-place code does this. */
module FrameFormat {
  import opened Options

  type Byte = b: nat | b < 256

  datatype IfType = Station | Ap | Adhoc | Other

  const ETH_HLEN: nat := 14
  const HEADROOM: nat := 64
  const TAILROOM: nat := 64
  const RFC1042: seq<Byte> := [0xaa, 0xaa, 0x03, 0x00, 0x00, 0x00]
  const BRIDGE_TUNNEL: seq<Byte> := [0xaa, 0xaa, 0x03, 0x00, 0x00, 0xf8]
  const ETH_P_AARP: nat := 0x80F3
  const ETH_P_IPX: nat := 0x8137

  // ---------------------------------------------------------------- frame control

  const FTYPE_DATA: nat := 0x0008
  const STYPE_QOS_DATA: nat := 0x0080
  const FCTL_TODS: nat := 0x0100
  const FCTL_FROMDS: nat := 0x0200
  const FCTL_PROTECTED: nat := 0x4000
  const FCTL_ORDER: nat := 0x8000

  predicate HasBit(fc: nat, bit: nat)
    requires bit > 0
  {
    (fc / bit) % 2 == 1
  }

  function SetBit(fc: nat, bit: nat): nat
    requires bit > 0
  {
    if HasBit(fc, bit) then fc else fc + bit
  }

  /** Type bits 2 and 3. */
  function FrameType(fc: nat): nat {
    (fc / 4) % 4
  }

  predicate IsData(fc: nat) { FrameType(fc) == 2 }

  predicate IsDataPresent(fc: nat) { IsData(fc) && !HasBit(fc, 0x40) }

  predicate IsQosData(fc: nat) { IsData(fc) && HasBit(fc, STYPE_QOS_DATA) }

  predicate HasA4(fc: nat) { HasBit(fc, FCTL_TODS) && HasBit(fc, FCTL_FROMDS) }

  /** atbmwifi_ieee80211_hdrlen. */
  function HdrLen(fc: nat): (n: nat)
    ensures 10 <= n <= 36
  {
    if IsData(fc) then
      (if HasA4(fc) then 30 else 24)
      + (if IsQosData(fc) then 2 + (if HasBit(fc, FCTL_ORDER) then 4 else 0) else 0)
    else if FrameType(fc) == 1 then
      if (fc / 0x20) % 8 == 6 then 10 else 16
    else 24
  }

  // ---------------------------------------------------------------- bytes

  function Le16(n: nat): (s: seq<Byte>)
    requires n < 0x1_0000
    ensures |s| == 2
  {
    [n % 256, n / 256]
  }

  function ReadLe16(s: seq<Byte>): (n: nat)
    requires |s| >= 2
    ensures n < 0x1_0000
  {
    var low: int, high: int := s[0], s[1];
    low + 256 * high
  }

  function ReadBe16(s: seq<Byte>, at: nat): (n: nat)
    requires at + 2 <= |s|
    ensures n < 0x1_0000
  {
    var high: int, low: int := s[at], s[at + 1];
    256 * high + low
  }

  predicate IsMulticast(addr: seq<Byte>)
    requires |addr| > 0
  {
    addr[0] % 2 == 1
  }

  // ---------------------------------------------------------------- 802.3 to 802.11

  /** The header that replaces the Ethernet header, if the ethertype calls for one. */
  function Encapsulation(ethertype: nat): Option<seq<Byte>> {
    if ethertype == ETH_P_AARP || ethertype == ETH_P_IPX then Some(BRIDGE_TUNNEL)
    else if ethertype > 0x600 then Some(RFC1042)
    else None
  }

  function FcOf(iftype: IfType, qos: bool): (fc: nat)
    ensures fc < 0x1_0000
  {
    FTYPE_DATA + (if iftype == Ap then FCTL_FROMDS else FCTL_TODS) + (if qos then STYPE_QOS_DATA else 0)
  }

  /** An 802.11 data header with three addresses; `tail` is the QoS control field, if any. */
  function Header(fc: nat, duration: seq<Byte>, a1: seq<Byte>, a2: seq<Byte>, a3: seq<Byte>, sc: seq<Byte>,
                  tail: seq<Byte>): (h: seq<Byte>)
    requires fc < 0x1_0000 && |duration| == |sc| == 2 && |a1| == |a2| == |a3| == 6
    ensures |h| == 24 + |tail|
  {
    Le16(fc) + duration + a1 + a2 + a3 + sc + tail
  }

  function QosField(qos: bool, priority: nat): (s: seq<Byte>)
    ensures |s| == if qos then 2 else 0
  {
    if qos then [priority % 8, 0] else []
  }

  function Dest(eth: seq<Byte>): (a: seq<Byte>)
    requires |eth| >= ETH_HLEN
    ensures |a| == 6
  {
    eth[..6]
  }

  function Source(eth: seq<Byte>): (a: seq<Byte>)
    requires |eth| >= ETH_HLEN
    ensures |a| == 6
  {
    eth[6..12]
  }

  /** What a station's third address becomes without an LLC header: the second address has
      landed on the destination (10 bytes of room), or on its first four bytes (12). */
  function Overwritten(s: seq<Byte>, qos: bool): (a: seq<Byte>)
    requires |s| == 6
    ensures |a| == 6
  {
    if qos then s[2..] + s[2..4] else s
  }

  /** What a station puts in the third address. It should be the destination; without an LLC
      header the second address is written over the destination before that is read. */
  function StationThird(eth: seq<Byte>, qos: bool): (a: seq<Byte>)
    requires |eth| >= ETH_HLEN
    ensures |a| == 6
  {
    if Encapsulation(ReadBe16(eth, 12)).Some? then Dest(eth)
    else Overwritten(Source(eth), qos)
  }

  function BodyOf(eth: seq<Byte>): seq<Byte>
    requires |eth| >= ETH_HLEN
  {
    match Encapsulation(ReadBe16(eth, 12))
    case Some(e) => e + eth[12..]
    case None => eth[14..]
  }

  /** atbmwifi_ieee80211_data_from_8023. */
  function From8023(eth: seq<Byte>, own: seq<Byte>, bssid: seq<Byte>, iftype: IfType, qos: bool,
                    priority: nat): seq<Byte>
    requires |eth| >= ETH_HLEN && |own| == |bssid| == 6
  {
    var tail := QosField(qos, priority);
    if iftype == Ap
    then Header(FcOf(Ap, qos), [0, 0], Dest(eth), own, Source(eth), [0, 0], tail) + BodyOf(eth)
    else Header(FcOf(Station, qos), [0, 0], bssid, Source(eth), StationThird(eth, qos), [0, 0], tail) + BodyOf(eth)
  }

  /** A station's frame carries its destination if and only if the frame has an LLC header,
      or the bytes of the source address happen to spell the destination. */
  lemma StationKeepsDestIff(eth: seq<Byte>, own: seq<Byte>, bssid: seq<Byte>, qos: bool, priority: nat)
    requires |eth| >= ETH_HLEN && |own| == |bssid| == 6
    ensures DestOf(From8023(eth, own, bssid, Station, qos, priority)) == Dest(eth)
      <==> ReadBe16(eth, 12) > 0x600
           || Dest(eth) == Overwritten(Source(eth), qos)
  {
    DirectionBits(Station, qos);
    HeaderFields(FcOf(Station, qos), [0, 0], bssid, Source(eth), StationThird(eth, qos), [0, 0],
      QosField(qos, priority), BodyOf(eth));
  }

  /** A length frame whose destination is lost. */
  lemma LengthFrameLosesDest(own: seq<Byte>, bssid: seq<Byte>)
    requires |own| == |bssid| == 6
    ensures var eth: seq<Byte> := [1, 2, 3, 4, 5, 6] + [7, 8, 9, 10, 11, 12] + [0, 46];
      DestOf(From8023(eth, own, bssid, Station, true, 0)) == [9, 10, 11, 12, 9, 10]
  {
    var eth: seq<Byte> := [1, 2, 3, 4, 5, 6] + [7, 8, 9, 10, 11, 12] + [0, 46];
    DirectionBits(Station, true);
    HeaderFields(FcOf(Station, true), [0, 0], bssid, Source(eth), StationThird(eth, true), [0, 0], QosField(true, 0),
      BodyOf(eth));
  }

  // ---------------------------------------------------------------- IV and ICV

  /** The frame control field after atbmwifi_tx_h_crypt. */
  function Marked(fc: nat, protect: bool): nat {
    if protect then SetBit(fc, FCTL_PROTECTED) else fc
  }

  /** The header as it goes on the air: marked when the frame is encrypted, with the duration
      and the sequence control the device fills in. */
  function AirHeader(frame: seq<Byte>, protect: bool, duration: seq<Byte>, sc: seq<Byte>): (h: seq<Byte>)
    requires |frame| >= 2 && |frame| >= HdrLen(ReadLe16(frame)) >= 24 && |duration| == |sc| == 2
    requires Marked(ReadLe16(frame), protect) < 0x1_0000
    ensures |h| == HdrLen(ReadLe16(frame))
  {
    Le16(Marked(ReadLe16(frame), protect)) + duration + frame[4..22] + sc + frame[24..HdrLen(ReadLe16(frame))]
  }

  /** What goes on the air for a converted frame: the header, an IV, the body, an ICV. The IV and
      the ICV are the device's too. */
  function OnAir(frame: seq<Byte>, protect: bool, iv: seq<Byte>, icv: seq<Byte>, duration: seq<Byte>,
                 sc: seq<Byte>): seq<Byte>
    requires |frame| >= 2 && |frame| >= HdrLen(ReadLe16(frame)) >= 24 && |duration| == |sc| == 2
    requires Marked(ReadLe16(frame), protect) < 0x1_0000
  {
    AirHeader(frame, protect, duration, sc) + iv + frame[HdrLen(ReadLe16(frame))..] + icv
  }

  datatype Cipher = Wep | Tkip | Ccmp | Sms4

  /** IV and ICV lengths as atbmwifi_tx_h_crypt inserts them. */
  function TxLens(c: Cipher): (nat, nat) {
    match c case Wep => (4, 4) case Tkip => (8, 4 + 8) case Ccmp => (8, 8) case Sms4 => (18, 16)
  }

  /** IV and ICV lengths as atbmwifi_rx_cb removes them; after a MIC failure the ICV is gone already. */
  function RxLens(c: Cipher, micFailure: bool): (nat, nat) {
    var ivLen := match c case Wep => 4 case Tkip => 8 case Ccmp => 8 case Sms4 => 18;
    var icvLen := match c case Wep => 4 case Tkip => 4 + 8 case Ccmp => 8 case Sms4 => 16;
    (ivLen, if micFailure then 0 else icvLen)
  }

  /** atbmwifi_rx_cb: the frame without IV and ICV, or nothing when it is too short. */
  function Strip(air: seq<Byte>, ivLen: nat, icvLen: nat): Option<seq<Byte>>
    requires |air| >= 2
  {
    var h := HdrLen(ReadLe16(air));
    if |air| < h + ivLen + icvLen then None else Some(air[..h] + air[h + ivLen..|air| - icvLen])
  }

  // ---------------------------------------------------------------- 802.11 to 802.3

  function DestOf(frame: seq<Byte>): seq<Byte>
    requires |frame| >= 24
  {
    if HasBit(ReadLe16(frame), FCTL_TODS) then frame[16..22] else frame[4..10]
  }

  function SourceOf(frame: seq<Byte>): seq<Byte>
    requires |frame| >= 24 && (HasA4(ReadLe16(frame)) ==> |frame| >= 30)
  {
    if HasA4(ReadLe16(frame)) then frame[24..30]
    else if HasBit(ReadLe16(frame), FCTL_FROMDS) then frame[16..22]
    else frame[10..16]
  }

  /** Whether an interface takes a frame with these direction bits. */
  predicate Takes(frame: seq<Byte>, own: seq<Byte>, iftype: IfType)
    requires |frame| >= 24
  {
    var fc := ReadLe16(frame);
    if HasBit(fc, FCTL_TODS) then !HasBit(fc, FCTL_FROMDS) && iftype == Ap
    else if HasBit(fc, FCTL_FROMDS) then
      iftype == Station && !(IsMulticast(DestOf(frame)) && SourceOf(frame) == own)
    else iftype == Adhoc || iftype == Station
  }

  /** Whether the payload starts with an LLC header that is taken off again. */
  predicate Decapsulates(payload: seq<Byte>)
    requires |payload| >= 8
  {
    var ethertype := ReadBe16(payload, 6);
    (payload[..6] == RFC1042 && ethertype != ETH_P_AARP && ethertype != ETH_P_IPX) || payload[..6] == BRIDGE_TUNNEL
  }

  /** Two addresses in place of an LLC header. The bytes of a body too short to hold one are
      missing from the addresses: the frame then ends within its own Ethernet header. */
  function Unwrapped(dst: seq<Byte>, src: seq<Byte>, body: seq<Byte>): seq<Byte>
    requires |dst| == |src| == 6
  {
    if |body| >= 6 then dst + src + body[6..] else (dst + src)[..6 + |body|]
  }

  /** The Ethernet frame of a payload. `beyond` is what lies behind the payload in memory: the
      driver reads eight bytes whether or not the payload has them. */
  function EthernetOf(dst: seq<Byte>, src: seq<Byte>, payload: seq<Byte>, beyond: seq<Byte>): seq<Byte>
    requires |dst| == |src| == 6 && |payload| + |beyond| >= 8
  {
    var read := payload + beyond;
    if Decapsulates(read) then Unwrapped(dst, src, payload) else dst + src + (Le16(ReadBe16(read, 6)) + payload)
  }

  /** atbmwifi_ieee80211_data_to_8023, for a frame that holds its own header. */
  function To8023(frame: seq<Byte>, beyond: seq<Byte>, own: seq<Byte>, iftype: IfType): Option<seq<Byte>>
    requires |frame| >= 2 && (IsDataPresent(ReadLe16(frame)) ==> |frame| >= HdrLen(ReadLe16(frame))) && |beyond| >= 8
  {
    if !IsDataPresent(ReadLe16(frame)) || !Takes(frame, own, iftype) then None
    else Some(EthernetOf(DestOf(frame), SourceOf(frame), frame[HdrLen(ReadLe16(frame))..], beyond))
  }

  /** Whether a body starts with an LLC header does not depend on what lies behind it. */
  lemma DecapsulationIsLocal(body: seq<Byte>, beyond: seq<Byte>)
    requires |body| >= 8
    ensures Decapsulates(body + beyond) == Decapsulates(body)
  {
    assert (body + beyond)[..6] == body[..6];
  }

  // ---------------------------------------------------------------- the way through

  lemma HeaderFields(fc: nat, duration: seq<Byte>, a1: seq<Byte>, a2: seq<Byte>, a3: seq<Byte>, sc: seq<Byte>,
                     tail: seq<Byte>, rest: seq<Byte>)
    requires fc < 0x1_0000 && |duration| == |sc| == 2 && |a1| == |a2| == |a3| == 6
    ensures var f := Header(fc, duration, a1, a2, a3, sc, tail) + rest;
      && ReadLe16(f) == fc && f[4..10] == a1 && f[10..16] == a2 && f[16..22] == a3
      && f[..24 + |tail|] == Header(fc, duration, a1, a2, a3, sc, tail) && f[24 + |tail|..] == rest
      && f[24..24 + |tail|] == tail
  {}

  /** The frame control values of the two directions, before and after protection. */
  lemma DirectionBits(iftype: IfType, qos: bool)
    requires iftype == Ap || iftype == Station
    ensures var fc := FcOf(iftype, qos);
      && HdrLen(fc) == (if qos then 26 else 24) && !HasBit(fc, FCTL_PROTECTED)
      && var p := SetBit(fc, FCTL_PROTECTED);
      && p < 0x1_0000 && HdrLen(p) == HdrLen(fc) && IsDataPresent(p) && IsDataPresent(fc)
      && (HasBit(p, FCTL_TODS) <==> iftype == Station) && (HasBit(p, FCTL_FROMDS) <==> iftype == Ap)
      && (HasBit(fc, FCTL_TODS) <==> iftype == Station) && (HasBit(fc, FCTL_FROMDS) <==> iftype == Ap)
  {}

  /** A converted frame, on the air and stripped again: only the fields the device fills differ. */
  lemma StripUndoesInsertion(fc: nat, protect: bool, a1: seq<Byte>, a2: seq<Byte>, a3: seq<Byte>, tail: seq<Byte>,
                             body: seq<Byte>, iv: seq<Byte>, icv: seq<Byte>, duration: seq<Byte>, sc: seq<Byte>)
    requires fc < 0x1_0000 && |duration| == |sc| == 2 && |a1| == |a2| == |a3| == 6 && HdrLen(fc) == 24 + |tail|
    requires Marked(fc, protect) < 0x1_0000 && HdrLen(Marked(fc, protect)) == HdrLen(fc)
    ensures var frame := Header(fc, [0, 0], a1, a2, a3, [0, 0], tail) + body;
      && ReadLe16(frame) == fc && |frame| >= HdrLen(fc)
      && Strip(OnAir(frame, protect, iv, icv, duration, sc), |iv|, |icv|)
         == Some(Header(Marked(fc, protect), duration, a1, a2, a3, sc, tail) + body)
  {
    var frame := Header(fc, [0, 0], a1, a2, a3, [0, 0], tail) + body;
    HeaderFields(fc, [0, 0], a1, a2, a3, [0, 0], tail, body);
    var air := OnAir(frame, protect, iv, icv, duration, sc);
    var h := Header(Marked(fc, protect), duration, a1, a2, a3, sc, tail);
    assert frame[4..22] == a1 + a2 + a3;
    assert AirHeader(frame, protect, duration, sc) == h;
    assert air == h + (iv + body + icv);
    HeaderFields(Marked(fc, protect), duration, a1, a2, a3, sc, tail, iv + body + icv);
    assert air[|h| + |iv|..|air| - |icv|] == body;
  }

  /** Decapsulation undoes encapsulation. */
  lemma DecapsulatesEncapsulated(eth: seq<Byte>)
    requires |eth| >= ETH_HLEN && ReadBe16(eth, 12) > 0x600
    ensures var e := Encapsulation(ReadBe16(eth, 12));
      e.Some? && |e.value| == 6 && Decapsulates(e.value + eth[12..]) && (e.value + eth[12..])[6..] == eth[12..]
  {
    var e := Encapsulation(ReadBe16(eth, 12)).value;
    var payload := e + eth[12..];
    assert payload[..6] == e && payload[6..] == eth[12..];
    assert ReadBe16(payload, 6) == ReadBe16(eth, 12);
  }

  /** What the receiver makes of a stripped frame that `sender` converted. */
  lemma Received(eth: seq<Byte>, own: seq<Byte>, fc: nat, duration: seq<Byte>, a1: seq<Byte>, a2: seq<Byte>,
                 a3: seq<Byte>, sc: seq<Byte>, tail: seq<Byte>, peer: seq<Byte>, sender: IfType, beyond: seq<Byte>)
    requires |eth| >= ETH_HLEN && ReadBe16(eth, 12) > 0x600 && Encapsulation(ReadBe16(eth, 12)).Some? && |beyond| >= 8
    requires fc < 0x1_0000 && |duration| == |sc| == 2 && |a1| == |a2| == |a3| == 6 && HdrLen(fc) == 24 + |tail|
      && IsDataPresent(fc)
    requires sender == Station || sender == Ap
    requires HasBit(fc, FCTL_TODS) <==> sender == Station
    requires HasBit(fc, FCTL_FROMDS) <==> sender == Ap
    requires sender == Ap ==> a1 == Dest(eth) && a3 == Source(eth)
    requires sender == Station ==> a2 == Source(eth) && a3 == Dest(eth)
    ensures var rx := Header(fc, duration, a1, a2, a3, sc, tail) + BodyOf(eth);
      && |rx| >= 24 && ReadLe16(rx) == fc && |rx| >= HdrLen(fc) + 8
      && (sender == Station ==> To8023(rx, beyond, peer, Ap) == Some(eth))
      && (sender == Ap ==>
            To8023(rx, beyond, peer, Station)
            == if IsMulticast(Dest(eth)) && Source(eth) == peer then None else Some(eth))
  {
    DecapsulatesEncapsulated(eth);
    var body := Encapsulation(ReadBe16(eth, 12)).value + eth[12..];
    DecapsulationIsLocal(body, beyond);
    HeaderFields(fc, duration, a1, a2, a3, sc, tail, body);
    assert eth == Dest(eth) + Source(eth) + eth[12..];
  }

  /** Between conversion and delivery: on the air with whatever IV, ICV, duration and sequence
      control the device fills in, then stripped. */
  function Carried(frame: seq<Byte>, protect: bool, iv: seq<Byte>, icv: seq<Byte>, duration: seq<Byte>,
                   sc: seq<Byte>): Option<seq<Byte>>
    requires |frame| >= 2 && |frame| >= HdrLen(ReadLe16(frame)) >= 24 && |duration| == |sc| == 2
    requires Marked(ReadLe16(frame), protect) < 0x1_0000
  {
    Strip(OnAir(frame, protect, iv, icv, duration, sc), |iv|, |icv|)
  }

  /** From a station to an access point: an Ethernet frame with an ethertype above 0x600,
      converted, carried and converted back, arrives unchanged. */
  lemma StationToApRoundTrip(eth: seq<Byte>, own: seq<Byte>, bssid: seq<Byte>, peer: seq<Byte>, qos: bool,
                             priority: nat, protect: bool, iv: seq<Byte>, icv: seq<Byte>, duration: seq<Byte>,
                             sc: seq<Byte>, beyond: seq<Byte>)
    requires |eth| >= ETH_HLEN && ReadBe16(eth, 12) > 0x600 && |own| == |bssid| == 6 && |duration| == |sc| == 2
      && |beyond| >= 8
    ensures var frame := From8023(eth, own, bssid, Station, qos, priority);
      && |frame| >= HdrLen(ReadLe16(frame)) >= 24 && Marked(ReadLe16(frame), protect) < 0x1_0000
      && var rx := Carried(frame, protect, iv, icv, duration, sc);
      && rx.Some? && |rx.value| >= HdrLen(ReadLe16(rx.value)) + 8
      && To8023(rx.value, beyond, peer, Ap) == Some(eth)
  {
    DirectionBits(Station, qos);
    DecapsulatesEncapsulated(eth);
    var fc, tail := FcOf(Station, qos), QosField(qos, priority);
    var body := BodyOf(eth);
    StripUndoesInsertion(fc, protect, bssid, Source(eth), Dest(eth), tail, body, iv, icv, duration, sc);
    Received(eth, own, Marked(fc, protect), duration, bssid, Source(eth), Dest(eth), sc, tail, peer, Station, beyond);
  }

  /** From an access point to a station: it arrives unchanged if and only if it is not the
      station's own multicast coming back; that one is dropped. */
  lemma ApToStationRoundTrip(eth: seq<Byte>, own: seq<Byte>, bssid: seq<Byte>, peer: seq<Byte>, qos: bool,
                             priority: nat, protect: bool, iv: seq<Byte>, icv: seq<Byte>, duration: seq<Byte>,
                             sc: seq<Byte>, beyond: seq<Byte>)
    requires |eth| >= ETH_HLEN && ReadBe16(eth, 12) > 0x600 && |own| == |bssid| == 6 && |duration| == |sc| == 2
      && |beyond| >= 8
    ensures var frame := From8023(eth, own, bssid, Ap, qos, priority);
      && |frame| >= HdrLen(ReadLe16(frame)) >= 24 && Marked(ReadLe16(frame), protect) < 0x1_0000
      && var rx := Carried(frame, protect, iv, icv, duration, sc);
      && rx.Some? && |rx.value| >= HdrLen(ReadLe16(rx.value)) + 8
      && To8023(rx.value, beyond, peer, Station)
         == if IsMulticast(Dest(eth)) && Source(eth) == peer then None else Some(eth)
  {
    DirectionBits(Ap, qos);
    DecapsulatesEncapsulated(eth);
    var fc, tail := FcOf(Ap, qos), QosField(qos, priority);
    var body := BodyOf(eth);
    StripUndoesInsertion(fc, protect, Dest(eth), own, Source(eth), tail, body, iv, icv, duration, sc);
    Received(eth, own, Marked(fc, protect), duration, Dest(eth), own, Source(eth), sc, tail, peer, Ap, beyond);
  }
}
