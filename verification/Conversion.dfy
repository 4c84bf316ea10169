/** The in-place header rewriting of net/atbm_util.c and hal/atbm_txrx.c, in one byte array with
    overlapping copies, proved to produce the frames of FrameFormat.dfy. */
module Conversion {
  import opened Options
  import opened FrameFormat
  import opened FrameBytes
  import opened PacketBuffer

  datatype Status = Done | Einval | Eopnotsupp | Enomem | Dropped

  /** The memory with three addresses from offset d + 4 on, and all else untouched. */
  ghost predicate Addressed(r: seq<Byte>, m: seq<Byte>, d: nat, a1: seq<Byte>, a2: seq<Byte>, a3: seq<Byte>)
    requires |a1| == |a2| == |a3| == 6
  {
    && |r| == |m| && d + 22 <= |m|
    && forall i :: 0 <= i < |m| ==>
         r[i] == if d + 4 <= i < d + 10 then a1[i - (d + 4)]
                 else if d + 10 <= i < d + 16 then a2[i - (d + 10)]
                 else if d + 16 <= i < d + 22 then a3[i - (d + 16)] else m[i]
  }

  lemma ThreeStores(m: seq<Byte>, d: nat, a1: seq<Byte>, a2: seq<Byte>, a3: seq<Byte>)
    requires d + 22 <= |m| && |a1| == |a2| == |a3| == 6
    ensures Addressed(Write(Write(Write(m, d + 4, a1), d + 10, a2), d + 16, a3), m, d, a1, a2, a3)
  {
    WriteAt(m, d + 4, a1);
    WriteAt(Write(m, d + 4, a1), d + 10, a2);
    WriteAt(Write(Write(m, d + 4, a1), d + 10, a2), d + 16, a3);
  }

  /** A region that two earlier stores did not touch. */
  lemma PastTwo(m: seq<Byte>, at1: nat, b1: seq<Byte>, at2: nat, b2: seq<Byte>, lo: nat, hi: nat)
    requires at1 + |b1| <= |m| && at2 + |b2| <= |m| && lo <= hi <= |m|
    requires at1 + |b1| <= lo && at2 + |b2| <= lo
    ensures Write(Write(m, at1, b1), at2, b2)[lo..hi] == m[lo..hi]
  {
    WriteSlices(m, at1, b1, lo, hi);
    WriteSlices(Write(m, at1, b1), at2, b2, lo, hi);
  }

  /** Reading the last four bytes of a six-byte store. */
  lemma ReadBack(m: seq<Byte>, at: nat, s: seq<Byte>)
    requires at + 6 <= |m| && |s| == 6
    ensures var r := Write(m, at, s); r[at + 2..at + 6] == s[2..] && r[at + 2..at + 4] == s[2..4]
  {
    WriteAt(m, at, s);
  }

  /** Storing six bytes, and then storing them again from there six places up. */
  lemma StoredTwice(m: seq<Byte>, d: nat, b: seq<Byte>, s: seq<Byte>)
    requires d + 24 <= |m| && |b| == |s| == 6 && s == m[d + 16..d + 22]
    ensures Write(m, d + 4, b)[d + 16..d + 22] == s
    ensures Write(Write(m, d + 4, b), d + 10, s)[d + 10..d + 16] == s
  {
    WriteSlices(m, d + 4, b, d + 16, d + 22);
    WriteSlices(Write(m, d + 4, b), d + 10, s, d + 10, d + 16);
  }

  /** The remaining stores: frame control, duration, sequence control, QoS control, LLC header. */
  function Finished(m: seq<Byte>, d: nat, fc: nat, tail: seq<Byte>, llc: seq<Byte>): (r: seq<Byte>)
    requires fc < 0x1_0000 && d + 24 + |tail| + |llc| <= |m|
    ensures |r| == |m|
  {
    var m1 := Write(m, d + 24, tail);
    var m2 := Write(m1, d, Le16(fc));
    var m3 := Write(m2, d + 2, [0, 0]);
    var m4 := Write(m3, d + 22, [0, 0]);
    Write(m4, d + 24 + |tail|, llc)
  }

  lemma FinishedFrame(m: seq<Byte>, m0: seq<Byte>, d: nat, fc: nat, tail: seq<Byte>, llc: seq<Byte>, a1: seq<Byte>,
                      a2: seq<Byte>, a3: seq<Byte>)
    requires fc < 0x1_0000 && d + 24 + |tail| + |llc| <= |m| && |a1| == |a2| == |a3| == 6
    requires Addressed(m, m0, d, a1, a2, a3)
    ensures Finished(m, d, fc, tail, llc)[d..]
            == Header(fc, [0, 0], a1, a2, a3, [0, 0], tail) + (llc + m0[d + 24 + |tail| + |llc|..])
  {
    hide Write;
    var end := d + 24 + |tail| + |llc|;
    var m1 := Write(m, d + 24, tail);
    var m2 := Write(m1, d, Le16(fc));
    var m3 := Write(m2, d + 2, [0, 0]);
    var m4 := Write(m3, d + 22, [0, 0]);
    WriteAt(m, d + 24, tail);
    WriteAt(m1, d, Le16(fc));
    WriteAt(m2, d + 2, [0, 0]);
    WriteAt(m3, d + 22, [0, 0]);
    WriteAt(m4, d + 24 + |tail|, llc);
    var r := Finished(m, d, fc, tail, llc);
    var f := Header(fc, [0, 0], a1, a2, a3, [0, 0], tail) + (llc + m0[end..]);
    assert |r[d..]| == |f|;
    forall i | 0 <= i < |f| ensures r[d..][i] == f[i] {}
  }

  /** The Ethernet header's fields, read where the frame lies in memory. */
  lemma EthAt(m: seq<Byte>, e: nat, end: nat)
    requires e + 14 <= end <= |m|
    ensures var eth := m[e..end];
      && Dest(eth) == m[e..e + 6] && Source(eth) == m[e + 6..e + 12]
      && ReadBe16(eth, 12) == ReadBe16(m, e + 12)
      && eth[12..] == m[e + 12..end] && eth[14..] == m[e + 14..end]
  {
    SliceOfSlice(m, e, end, 0, 6);
    SliceOfSlice(m, e, end, 6, 12);
  }

  /** Cutting the memory at the end of the frame. */
  lemma FrameAt(r: seq<Byte>, m: seq<Byte>, d: nat, end: nat, h: seq<Byte>, llc: seq<Byte>)
    requires |r| == |m| && d + |h| + |llc| <= end <= |m|
    requires r[d..] == h + (llc + m[d + |h| + |llc|..])
    ensures r[d..end] == h + (llc + m[d + |h| + |llc|..end]) && r[end..] == m[end..]
  {
    assert r[d..end] == r[d..][..end - d];
    assert r[end..] == r[d..][end - d..];
  }

  class Converter {
    const skb: Skb

    constructor (skb: Skb)
      ensures this.skb == skb
    {
      this.skb := skb;
    }

    /** The access point's address stores, from the Ethernet header at e. */
    method ApStores(e: nat, d: nat, own: seq<Byte>)
      requires d + 10 <= e && e + 14 <= skb.mem.Length && |own| == 6
      modifies skb.mem
      ensures var m := old(skb.mem[..]);
        Addressed(skb.mem[..], m, d, m[e..e + 6], own, m[e + 6..e + 12])
    {
      hide Write, Addressed;
      ghost var m := skb.mem[..];
      ghost var a1, a3 := m[e..e + 6], m[e + 6..e + 12];
      skb.CopyClear(d + 4, e, 6, a1);
      skb.Store(d + 10, own);
      PastTwo(m, d + 4, a1, d + 10, own, e + 6, e + 12);
      skb.CopyClear(d + 16, e + 6, 6, a3);
      ThreeStores(m, d, a1, own, a3);
    }

    /** The station's address stores when they stay clear of the Ethernet source address. */
    method StationStores(e: nat, d: nat, bssid: seq<Byte>)
      requires d + 16 <= e && e + 14 <= skb.mem.Length && |bssid| == 6
      modifies skb.mem
      ensures var m := old(skb.mem[..]);
        Addressed(skb.mem[..], m, d, bssid, m[e + 6..e + 12], m[e..e + 6])
    {
      hide Write, Addressed;
      ghost var m := skb.mem[..];
      ghost var a2, a3 := m[e + 6..e + 12], m[e..e + 6];
      WriteSlices(m, d + 4, bssid, e + 6, e + 12);
      skb.Store(d + 4, bssid);
      skb.CopyClear(d + 10, e + 6, 6, a2);
      PastTwo(m, d + 4, bssid, d + 10, a2, e, e + 6);
      skb.CopyClear(d + 16, e, 6, a3);
      ThreeStores(m, d, bssid, a2, a3);
    }

    /** The same stores without an LLC header: the header ends inside the Ethernet header, and
        the second address is stored over the destination before that is copied. */
    method StationStoresLost(d: nat, bssid: seq<Byte>)
      requires d + 24 <= skb.mem.Length && |bssid| == 6
      modifies skb.mem
      ensures var m := old(skb.mem[..]); var s := m[d + 16..d + 22];
        Addressed(skb.mem[..], m, d, bssid, s, s)
    {
      ghost var m := skb.mem[..];
      ghost var s := m[d + 16..d + 22];
      StoredTwice(m, d, bssid, s);
      skb.Store(d + 4, bssid);
      skb.CopyClear(d + 10, d + 16, 6, s);
      skb.CopyClear(d + 16, d + 10, 6, s);
      ThreeStores(m, d, bssid, s, s);
    }

    /** With a QoS field it lands on the first four bytes of the destination. */
    method StationStoresLostQos(e: nat, d: nat, bssid: seq<Byte>)
      requires e == d + 12 && e + 14 <= skb.mem.Length && |bssid| == 6
      modifies skb.mem
      ensures var m := old(skb.mem[..]); var s := m[e + 6..e + 12];
        Addressed(skb.mem[..], m, d, bssid, s, Overwritten(s, true))
    {
      ghost var m := skb.mem[..];
      ghost var s := m[e + 6..e + 12];
      ghost var t := s[2..] + s[2..4];
      WriteSlices(m, d + 4, bssid, e + 6, e + 12);
      skb.Store(d + 4, bssid);
      ReadBack(skb.mem[..], d + 10, s);
      skb.CopyClear(d + 10, e + 6, 6, s);
      skb.CopyFourUp(e, t);
      ThreeStores(m, d, bssid, s, t);
    }

    /** The stores after the addresses: QoS control, frame control, duration, sequence control,
        LLC header. */
    method Finish(d: nat, fc: nat, tail: seq<Byte>, llc: seq<Byte>, ghost m: seq<Byte>,
                  ghost a1: seq<Byte>, ghost a2: seq<Byte>, ghost a3: seq<Byte>)
      requires fc < 0x1_0000 && d + 24 + |tail| + |llc| <= skb.mem.Length && |a1| == |a2| == |a3| == 6
      requires Addressed(skb.mem[..], m, d, a1, a2, a3)
      modifies skb.mem
      ensures skb.mem[..][d..] == Header(fc, [0, 0], a1, a2, a3, [0, 0], tail) + (llc + m[d + 24 + |tail| + |llc|..])
    {
      hide Addressed, Write;
      FinishedFrame(skb.mem[..], m, d, fc, tail, llc, a1, a2, a3);
      skb.Store(d + 24, tail);
      skb.Store(d, Le16(fc));
      skb.Store(d + 2, [0, 0]);
      skb.Store(d + 22, [0, 0]);
      skb.Store(d + 24 + |tail|, llc);
    }

    /** atbmwifi_ieee80211_data_from_8023, with 20 bytes of headroom. */
    method DataFrom8023(own: seq<Byte>, bssid: seq<Byte>, iftype: IfType, qos: bool, priority: nat)
        returns (ret: Status)
      requires skb.Valid() && skb.data >= 20 && |own| == |bssid| == 6
      modifies skb, skb.mem
      ensures skb.Valid() && skb.tail == old(skb.tail) && skb.mem[skb.tail..] == old(skb.mem[skb.tail..])
      ensures ret ==
        if old(skb.Len()) < ETH_HLEN then Einval else if iftype != Ap && iftype != Station then Eopnotsupp else Done
      ensures ret.Einval? ==> skb.Contents() == old(skb.Contents())
      ensures ret.Done? ==> skb.Contents() == From8023(old(skb.Contents()), own, bssid, iftype, qos, priority)
      ensures ret.Done? ==> MadeOf(skb.Contents(), old(skb.Contents()), own, bssid, iftype == Ap, qos, priority)
    {
      hide MadeOf, From8023;
      if skb.Len() < ETH_HLEN {
        return Einval;
      }
      ghost var m, eth, end := skb.mem[..], skb.Contents(), skb.tail;
      var e := skb.data;
      EthAt(m, e, end);
      assert eth == m[e..end];
      var high: int, low: int := skb.mem[e + 12], skb.mem[e + 13];
      var llc := Encapsulation(256 * high + low);
      var encaps: seq<Byte> := match llc case Some(h) => h case None => [];
      skb.Pull(if llc.Some? then ETH_HLEN - 2 else ETH_HLEN);
      skb.Push(|encaps|);
      skb.Push(if qos then 26 else 24);
      if iftype != Ap && iftype != Station {
        return Eopnotsupp;
      }
      RewriteHeader(e, skb.data, own, bssid, iftype, qos, priority, llc, eth);
      From8023Bytes(eth, own, bssid, iftype, qos, priority);
      return Done;
    }

    /** The header stores of atbmwifi_ieee80211_data_from_8023: from the Ethernet header at e
        to the 802.11 header at d. */
    method RewriteHeader(e: nat, d: nat, own: seq<Byte>, bssid: seq<Byte>, iftype: IfType, qos: bool, priority: nat,
                         llc: Option<seq<Byte>>, ghost eth: seq<Byte>)
      requires skb.Valid() && skb.data == d <= e && e + 14 <= skb.tail && |own| == |bssid| == 6
      requires iftype == Ap || iftype == Station
      requires eth == skb.mem[..][e..skb.tail] && llc == Encapsulation(ReadBe16(eth, 12))
      requires e == d + (if llc.Some? then 18 else 10) + (if qos then 2 else 0)
      modifies skb.mem
      ensures skb.Valid() && skb.Contents() == From8023(eth, own, bssid, iftype, qos, priority)
      ensures skb.mem[skb.tail..] == old(skb.mem[skb.tail..])
    {
      hide Write, HdrLen, Le16, SetBit, HasBit, Header, ReadBe16;
      ghost var m, end := skb.mem[..], skb.tail;
      EthAt(m, e, end);
      var encaps: seq<Byte> := match llc case Some(h) => h case None => [];
      var tail := QosField(qos, priority);
      var fc := FcOf(iftype, qos);
      ghost var a1, a2, a3;
      if iftype == Ap {
        a1, a2, a3 := Dest(eth), own, Source(eth);
        ApStores(e, d, own);
      } else {
        a1, a2, a3 := bssid, Source(eth), StationThird(eth, qos);
        if llc.Some? {
          StationStores(e, d, bssid);
        } else {
          if qos {
            StationStoresLostQos(e, d, bssid);
          } else {
            StationStoresLost(d, bssid);
          }
        }
      }
      Finish(d, fc, tail, encaps, m, a1, a2, a3);
      FrameAt(skb.mem[..], m, d, end, Header(fc, [0, 0], a1, a2, a3, [0, 0], tail), encaps);
      assert encaps + m[d + 24 + |tail| + |encaps|..end] == BodyOf(eth);
      assert skb.Contents() == skb.mem[..][d..end];
    }

    /** The IV/ICV insertion of atbmwifi_tx_h_crypt: marks the frame protected, moves the header
        down to make room for the IV, and adds room for the ICV. The bytes found in that room are
        left for the device to fill. The check asks for headroom for the IV and for room on both
        sides together: the frame it lets through fits the buffer exactly when the tailroom alone
        holds the ICV. */
    method InsertCrypt(cipher: Cipher) returns (ret: Status, ghost iv: seq<Byte>, ghost icv: seq<Byte>)
      requires skb.Valid() && skb.Len() >= 2
      requires skb.Len() >= HdrLen(ReadLe16(skb.Contents())) >= 24
      requires SetBit(ReadLe16(skb.Contents()), FCTL_PROTECTED) < 0x1_0000
      modifies skb, skb.mem
      ensures var (ivLen, icvLen), headroom, tailroom := TxLens(cipher), old(skb.data), skb.mem.Length - old(skb.tail);
        && ret == (if headroom >= ivLen && headroom + tailroom >= ivLen + icvLen then Done else Enomem)
        && (skb.Valid() <==> (ret.Done? ==> tailroom >= icvLen))
        && (ret.Done? ==> |iv| == ivLen && skb.data == old(skb.data) - ivLen && skb.tail == old(skb.tail) + icvLen)
        && (ret.Done? && skb.Valid() ==> |icv| == icvLen)
      ensures ret.Done? ==> var f := old(skb.Contents());
        && skb.mem[skb.data..old(skb.tail)] == OnAir(f, true, iv, [], f[2..4], f[22..24])
        && (skb.Valid() ==> skb.Contents() == OnAir(f, true, iv, icv, f[2..4], f[22..24]))
    {
      ghost var m, f := skb.mem[..], skb.Contents();
      iv, icv := [], [];
      var (ivLen, icvLen) := TxLens(cipher);
      var fc := FrameControl();
      SameWindow(m, skb.data, skb.tail);
      skb.Store(skb.data, Le16(SetBit(fc, FCTL_PROTECTED)));
      if skb.data + (skb.mem.Length - skb.tail) < ivLen + icvLen || skb.data < ivLen {
        return Enomem, iv, icv;
      }
      iv, icv := OpenGaps(HdrLen(fc), ivLen, icvLen, m, f);
      return Done, iv, icv;
    }

    /** Moves the header of a frame already marked protected down by the IV length, and adds the
        ICV length at the tail; m and f are the memory and the frame before the marking. */
    method OpenGaps(hdrlen: nat, ivLen: nat, icvLen: nat, ghost m: seq<Byte>, ghost f: seq<Byte>)
      returns (ghost iv: seq<Byte>, ghost icv: seq<Byte>)
      requires skb.Valid() && ivLen <= skb.data && skb.mem.Length == |m|
      requires f == m[skb.data..skb.tail] && |f| >= hdrlen >= 24 && hdrlen == HdrLen(ReadLe16(f))
      requires Marked(ReadLe16(f), true) < 0x1_0000
      requires skb.mem[..] == Write(m, skb.data, Le16(Marked(ReadLe16(f), true)))
      modifies skb, skb.mem
      ensures skb.data == old(skb.data) - ivLen && skb.tail == old(skb.tail) + icvLen && |iv| == ivLen
      ensures skb.mem[skb.data..old(skb.tail)] == OnAir(f, true, iv, [], f[2..4], f[22..24])
      ensures skb.Valid() <==> icvLen <= skb.mem.Length - old(skb.tail)
      ensures skb.Valid() ==> |icv| == icvLen && skb.Contents() == OnAir(f, true, iv, icv, f[2..4], f[22..24])
    {
      hide Write, HdrLen, ReadLe16, AirHeader, Marked;
      ghost var m1, end := skb.mem[..], skb.tail;
      var d := skb.data;
      MoveHeaderDown(hdrlen, ivLen);
      var at := skb.Put(icvLen);
      ghost var r := skb.mem[..];
      iv, icv := r[d - ivLen + hdrlen..d + hdrlen], [];
      CryptMemory(m, f, d, end, hdrlen, ivLen, 0, m1, r);
      if end + icvLen <= |r| {
        icv := r[end..end + icvLen];
        CryptMemory(m, f, d, end, hdrlen, ivLen, icvLen, m1, r);
        SameWindow(r, d - ivLen, end + icvLen);
      }
    }

    /** The header moves down by the IV length. */
    method MoveHeaderDown(hdrlen: nat, ivLen: nat)
      requires skb.Valid() && ivLen <= skb.data && hdrlen <= skb.Len()
      modifies skb, skb.mem
      ensures skb.Valid() && skb.data == old(skb.data) - ivLen && skb.tail == old(skb.tail)
      ensures var m, d := old(skb.mem[..]), old(skb.data); skb.mem[..] == Write(m, d - ivLen, m[d..d + hdrlen])
    {
      hide Write;
      ghost var m := skb.mem[..];
      var d := skb.data;
      skb.Push(ivLen);
      skb.CopyClear(d - ivLen, d, hdrlen, m[d..d + hdrlen]);
    }

    /** The frame is the memory between its two ends. */
    lemma SameWindow(r: seq<Byte>, d: nat, end: nat)
      requires skb.Valid() && r == skb.mem[..] && d == skb.data && end == skb.tail
      ensures skb.Contents() == r[d..end]
    {}

    /** The frame control field, read from the first two bytes. */
    method FrameControl() returns (fc: nat)
      requires skb.Valid() && skb.Len() >= 2
      ensures fc == ReadLe16(skb.Contents())
    {
      var low: int, high: int := skb.mem[skb.data], skb.mem[skb.data + 1];
      fc := low + 256 * high;
    }

    /** The removal of IV and ICV in atbmwifi_rx_cb. */
    method StripCrypt(cipher: Cipher, micFailure: bool) returns (ret: Status)
      requires skb.Valid() && skb.Len() >= 2 && HdrLen(ReadLe16(skb.Contents())) <= 32
      modifies skb, skb.mem
      ensures skb.Valid()
      ensures var (ivLen, icvLen) := RxLens(cipher, micFailure);
        match Strip(old(skb.Contents()), ivLen, icvLen)
        case Some(f) => ret.Done? && skb.Contents() == f
        case None => ret.Dropped? && skb.Contents() == old(skb.Contents())
    {
      hide Write, HdrLen, ReadLe16;
      ghost var m, end := skb.mem[..], skb.tail;
      var (ivLen, icvLen) := RxLens(cipher, micFailure);
      var d := skb.data;
      var fc := FrameControl();
      var hdrlen := HdrLen(fc);
      if skb.Len() < hdrlen + ivLen + icvLen {
        return Dropped;
      }
      StripMemory(m, d, end, hdrlen, ivLen, icvLen);
      CloseGaps(hdrlen, ivLen, icvLen);
      SameWindow(skb.mem[..], d + ivLen, end - icvLen);
      return Done;
    }

    /** Cuts the ICV off and moves the header up over the IV, by way of a copy. */
    method CloseGaps(hdrlen: nat, ivLen: nat, icvLen: nat)
      requires skb.Valid() && hdrlen + ivLen + icvLen <= skb.Len()
      modifies skb, skb.mem
      ensures skb.Valid() && skb.data == old(skb.data) + ivLen && skb.tail == old(skb.tail) - icvLen
      ensures var m, d := old(skb.mem[..]), old(skb.data); skb.mem[..] == Write(m, d + ivLen, m[d..d + hdrlen])
    {
      hide Write;
      var d := skb.data;
      ghost var m := skb.mem[..];
      skb.Trim(skb.Len() - icvLen);
      var saved := skb.mem[d..d + hdrlen];
      assert saved == m[d..d + hdrlen];
      skb.Store(d + ivLen, saved);
      skb.Pull(ivLen);
    }

    /** atbmwifi_ieee80211_data_to_8023, for a data frame that holds its own header. Nothing behind
        the frame changes, unless the frame ends within an LLC header. */
    method DataTo8023(own: seq<Byte>, iftype: IfType) returns (ret: Status)
      requires skb.Valid() && skb.Len() >= 2 && skb.tail + 8 <= skb.mem.Length
      requires var f := skb.Contents(); IsDataPresent(ReadLe16(f)) ==> |f| >= HdrLen(ReadLe16(f))
      modifies skb, skb.mem
      ensures skb.Valid() && skb.tail == old(skb.tail)
      ensures match To8023(old(skb.Contents()), old(skb.mem[skb.tail..]), own, iftype)
        case Some(eth) => ret.Done? && skb.Contents() == eth
          && (|eth| >= 12 ==> skb.mem[skb.tail..] == old(skb.mem[skb.tail..]))
        case None => ret.Dropped? && skb.Contents() == old(skb.Contents())
      ensures var f := old(skb.Contents());
        && (CarriesData(f) ==> |f| >= HeaderSize(f))
        && MadeOfData(if ret.Done? then Some(skb.Contents()) else None, f, old(skb.mem[skb.tail..]), own, iftype)
    {
      hide MadeOfData, HeaderSize, CarriesData;
      ghost var m, f := skb.mem[..], skb.Contents();
      ControlBytes(f);
      To8023Bytes(f, m[skb.tail..], own, iftype);
      SameWindow(m, skb.data, skb.tail);
      var d := skb.data;
      var fc := FrameControl();
      if !IsDataPresent(fc) {
        return Dropped;
      }
      var hdrlen := HdrLen(fc);
      var dst := if HasBit(fc, FCTL_TODS) then skb.mem[d + 16..d + 22] else skb.mem[d + 4..d + 10];
      var src := if HasA4(fc) then skb.mem[d + 24..d + 30]
                 else if HasBit(fc, FCTL_FROMDS) then skb.mem[d + 16..d + 22] else skb.mem[d + 10..d + 16];
      AddressesAt(m, d, skb.tail);
      if HasBit(fc, FCTL_TODS) {
        if HasBit(fc, FCTL_FROMDS) || iftype != Ap {
          return Dropped;
        }
      } else if HasBit(fc, FCTL_FROMDS) {
        if iftype != Station || (IsMulticast(dst) && src == own) {
          return Dropped;
        }
      } else if iftype != Adhoc && iftype != Station {
        return Dropped;
      }
      PutEthHeader(hdrlen, dst, src, f[hdrlen..]);
      return Done;
    }

    /** Takes the 802.11 header, and the LLC header if there is one, off; puts an Ethernet
        header on. */
    method PutEthHeader(hdrlen: nat, dst: seq<Byte>, src: seq<Byte>, ghost payload: seq<Byte>)
      requires skb.Valid() && hdrlen >= 24 && |dst| == |src| == 6 && skb.Len() >= hdrlen
        && skb.tail + 8 <= skb.mem.Length
      requires payload == skb.Contents()[hdrlen..]
      modifies skb, skb.mem
      ensures skb.Valid() && skb.tail == old(skb.tail)
      ensures skb.Contents() == EthernetOf(dst, src, payload, old(skb.mem[skb.tail..]))
      ensures |skb.Contents()| >= 12 ==> skb.mem[skb.tail..] == old(skb.mem[skb.tail..])
    {
      hide EthernetOf, Unwrapped, Decapsulates;
      ghost var m, end := skb.mem[..], skb.tail;
      var p := skb.data + hdrlen;
      PayloadAt(m, skb.data, end, hdrlen);
      var high: int, low: int := skb.mem[p + 6], skb.mem[p + 7];
      var ethertype: nat := 256 * high + low;
      var first := skb.mem[p..p + 6];
      EthernetCases(dst, src, payload, m[end..], first, ethertype);
      if (first == RFC1042 && ethertype != ETH_P_AARP && ethertype != ETH_P_IPX) || first == BRIDGE_TUNNEL {
        PutUnwrapped(hdrlen, dst, src, payload);
      } else {
        skb.Pull(hdrlen);
        assert skb.Contents() == payload;
        PutRawHeader(dst, src, Le16(ethertype));
      }
    }

    /** The addresses in place of the 802.11 header and the LLC header. */
    method PutUnwrapped(hdrlen: nat, dst: seq<Byte>, src: seq<Byte>, ghost payload: seq<Byte>)
      requires skb.Valid() && hdrlen >= 24 && |dst| == |src| == 6 && skb.Len() >= hdrlen
        && skb.tail + 8 <= skb.mem.Length
      requires payload == skb.Contents()[hdrlen..]
      modifies skb, skb.mem
      ensures skb.Valid() && skb.tail == old(skb.tail) && skb.Contents() == Unwrapped(dst, src, payload)
      ensures |skb.Contents()| >= 12 ==> skb.mem[skb.tail..] == old(skb.mem[skb.tail..])
    {
      if skb.Len() < hdrlen + 6 {
        skb.Pull(hdrlen);
        PutAddressesPast(skb, dst, src);
      } else {
        skb.Pull(hdrlen + 6);
        assert skb.Contents() == payload[6..];
        PutAddresses(skb, dst, src);
      }
    }

    /** A whole Ethernet header, pushed in front of the payload. */
    method PutRawHeader(dst: seq<Byte>, src: seq<Byte>, proto: seq<Byte>)
      requires skb.Valid() && skb.data >= 14 && |dst| == |src| == 6 && |proto| == 2
      modifies skb, skb.mem
      ensures skb.Valid() && skb.tail == old(skb.tail) && skb.Contents() == dst + src + (proto + old(skb.Contents()))
      ensures skb.mem[skb.tail..] == old(skb.mem[skb.tail..])
    {
      ghost var m, end := skb.mem[..], skb.tail;
      var p := skb.data;
      SameWindow(m, p, end);
      EthMemoryRaw(m, p - 14, end, dst, src, proto);
      BehindRaw(m, p - 14, end, dst, src, proto);
      skb.Push(14);
      skb.Store(skb.data, dst);
      skb.Store(skb.data + 6, src);
      skb.Store(skb.data + 12, proto);
      SameWindow(skb.mem[..], p - 14, end);
    }
  }

  /** The source and then the destination, pushed in front of the ethertype. */
  method PutAddresses(skb: Skb, dst: seq<Byte>, src: seq<Byte>)
    requires skb.Valid() && skb.data >= 12 && |dst| == |src| == 6
    modifies skb, skb.mem
    ensures skb.Valid() && skb.Contents() == dst + src + old(skb.Contents())
    ensures skb.data == old(skb.data) - 12 && skb.tail == old(skb.tail)
      && skb.mem[skb.tail..] == old(skb.mem[skb.tail..])
  {
    ghost var m, end := skb.mem[..], skb.tail;
    var p := skb.data;
    EthMemory(m, p - 6, end, dst, src);
    BehindTwo(m, p - 6, src, p - 12, dst, end);
    assert skb.Contents() == m[p..end];
    skb.Push(6);
    skb.Store(skb.data, src);
    skb.Push(6);
    skb.Store(skb.data, dst);
    ghost var r := skb.mem[..];
    assert skb.Contents() == r[p - 12..end];
  }

  /** The same with an LLC header taken off that the frame does not have in full: the data pointer
      passes the tail on the way, and the addresses come to lie across the frame's end. */
  method PutAddressesPast(skb: Skb, dst: seq<Byte>, src: seq<Byte>)
    requires skb.Valid() && 6 <= skb.data && skb.Len() < 6 && skb.data + 6 <= skb.mem.Length && |dst| == |src| == 6
    modifies skb, skb.mem
    ensures skb.Valid() && skb.tail == old(skb.tail) && skb.data == old(skb.data) - 6
    ensures skb.Contents() == (dst + src)[..6 + old(skb.Len())]
  {
    ghost var m, end, p := skb.mem[..], skb.tail, skb.data;
    AcrossEnd(m, p, end, dst, src);
    skb.data := skb.data + 6;
    skb.data := skb.data - 6;
    skb.Store(skb.data, src);
    skb.data := skb.data - 6;
    skb.Store(skb.data, dst);
    ghost var r := skb.mem[..];
    assert skb.Contents() == r[p - 6..end];
  }

  lemma AcrossEnd(m: seq<Byte>, p: nat, end: nat, dst: seq<Byte>, src: seq<Byte>)
    requires 6 <= p <= end < p + 6 <= |m| && |dst| == |src| == 6
    ensures Write(Write(m, p, src), p - 6, dst)[p - 6..end] == (dst + src)[..6 + end - p]
  {
    var m1 := Write(m, p, src);
    var r := Write(m1, p - 6, dst);
    WriteSlices(m, p, src, p, p);
    WriteSlices(m1, p - 6, dst, p, p + 6);
    Cut(r, p - 6, p, p + 6);
    assert r[p - 6..p + 6] == dst + src;
    SliceOfSlice(r, p - 6, p + 6, 0, 6 + end - p);
  }

  /** What lies behind two stores. */
  lemma BehindTwo(m: seq<Byte>, at1: nat, b1: seq<Byte>, at2: nat, b2: seq<Byte>, end: nat)
    requires at1 + |b1| <= end && at2 + |b2| <= end <= |m|
    ensures Write(Write(m, at1, b1), at2, b2)[end..] == m[end..]
  {
    PastTwo(m, at1, b1, at2, b2, end, |m|);
    assert m[end..] == m[end..|m|];
  }

  lemma BehindRaw(m: seq<Byte>, e: nat, end: nat, dst: seq<Byte>, src: seq<Byte>, proto: seq<Byte>)
    requires e + 14 <= end <= |m| && |dst| == |src| == 6 && |proto| == 2
    ensures Write(Write(Write(m, e, dst), e + 6, src), e + 12, proto)[end..] == m[end..]
  {
    var m2 := Write(Write(m, e, dst), e + 6, src);
    BehindTwo(m, e, dst, e + 6, src, end);
    WriteSlices(m2, e + 12, proto, end, |m|);
    assert m2[end..] == m2[end..|m|];
  }

  /** The address fields, read where the frame lies in memory. */
  lemma AddressesAt(m: seq<Byte>, d: nat, end: nat)
    requires d + 24 <= end <= |m|
    ensures var f := m[d..end];
      && f[4..10] == m[d + 4..d + 10] && f[10..16] == m[d + 10..d + 16] && f[16..22] == m[d + 16..d + 22]
      && (d + 30 <= end ==> f[24..30] == m[d + 24..d + 30])
  {
    SliceOfSlice(m, d, end, 4, 10);
    SliceOfSlice(m, d, end, 10, 16);
    SliceOfSlice(m, d, end, 16, 22);
    if d + 30 <= end { SliceOfSlice(m, d, end, 24, 30); }
  }

  /** The Ethernet frame of a payload, by what the code has read of it. */
  lemma EthernetCases(dst: seq<Byte>, src: seq<Byte>, payload: seq<Byte>, beyond: seq<Byte>, first: seq<Byte>,
                      ethertype: nat)
    requires |dst| == |src| == 6 && |payload| + |beyond| >= 8 && ethertype < 0x1_0000
    requires first == (payload + beyond)[..6] && ethertype == ReadBe16(payload + beyond, 6)
    ensures EthernetOf(dst, src, payload, beyond)
            == if (first == RFC1042 && ethertype != ETH_P_AARP && ethertype != ETH_P_IPX) || first == BRIDGE_TUNNEL
               then Unwrapped(dst, src, payload)
               else dst + src + (Le16(ethertype) + payload)
  {}

  /** The payload, and what is read of it and of the memory behind it. */
  lemma PayloadAt(m: seq<Byte>, d: nat, end: nat, h: nat)
    requires d + h <= end && end + 8 <= |m|
    ensures var payload, read := m[d..end][h..], m[d..end][h..] + m[end..];
      && payload == m[d + h..end] && read[..6] == m[d + h..d + h + 6]
      && (d + h + 6 <= end ==> payload[6..] == m[d + h + 6..end])
      && ReadBe16(read, 6) == ReadBe16(m, d + h + 6)
  {
    SliceOfSlice(m, d, end, h, end - d);
    assert m[d + h..end] + m[end..] == m[d + h..];
    if d + h + 6 <= end { SliceOfSlice(m, d + h, end, 6, end - d - h); }
  }

  /** Source stored before the ethertype, destination before the source. */
  lemma EthMemory(m: seq<Byte>, p: nat, end: nat, dst: seq<Byte>, src: seq<Byte>)
    requires 6 <= p && p + 6 <= end <= |m| && |dst| == |src| == 6
    ensures Write(Write(m, p, src), p - 6, dst)[p - 6..end] == dst + src + m[p + 6..end]
  {
    var m1 := Write(m, p, src);
    var r := Write(m1, p - 6, dst);
    WriteSlices(m, p, src, p + 6, end);
    WriteSlices(m1, p - 6, dst, p, p + 6);
    WriteSlices(m1, p - 6, dst, p + 6, end);
    Cut(r, p - 6, p, end);
    Cut(r, p, p + 6, end);
  }

  lemma EthMemoryRaw(m: seq<Byte>, e: nat, end: nat, dst: seq<Byte>, src: seq<Byte>, proto: seq<Byte>)
    requires e + 14 <= end <= |m| && |dst| == |src| == 6 && |proto| == 2
    ensures Write(Write(Write(m, e, dst), e + 6, src), e + 12, proto)[e..end] == dst + src + (proto + m[e + 14..end])
  {
    var m1 := Write(m, e, dst);
    var m2 := Write(m1, e + 6, src);
    var r := Write(m2, e + 12, proto);
    WriteAt(m, e, dst);
    WriteAt(m1, e + 6, src);
    WriteAt(m2, e + 12, proto);
    var s, t := r[e..end], dst + src + (proto + m[e + 14..end]);
    assert forall i :: 0 <= i < end - e ==> s[i] == t[i];
  }

  /** The header with its frame control field replaced. */
  lemma MarkedHeader(m: seq<Byte>, f: seq<Byte>, d: nat, end: nat)
    requires d + 2 <= end <= |m| && f == m[d..end]
    requires |f| >= HdrLen(ReadLe16(f)) >= 24 && Marked(ReadLe16(f), true) < 0x1_0000
    ensures Write(m, d, Le16(Marked(ReadLe16(f), true)))[d..d + HdrLen(ReadLe16(f))]
      == AirHeader(f, true, f[2..4], f[22..24])
  {
    hide Write, HdrLen, ReadLe16, Marked, Le16;
    var h, mark := HdrLen(ReadLe16(f)), Le16(Marked(ReadLe16(f), true));
    var m1 := Write(m, d, mark);
    WriteSlices(m, d, mark, d + 2, d + h);
    Cut(m1, d, d + 2, d + h);
    SliceOfSlice(m, d, end, 2, h);
    assert m1[d..d + h] == mark + f[2..h];
    Cut(f, 2, 4, h);
    Cut(f, 4, 22, h);
    Cut(f, 22, 24, h);
    assert f[2..h] == f[2..4] + f[4..22] + f[22..24] + f[24..h];
  }

  /** The memory after the header has moved down: header, whatever lies in the gap, the rest. */
  lemma MovedDown(m1: seq<Byte>, d: nat, end: nat, h: nat, ivLen: nat, icvLen: nat)
    requires ivLen <= d && d + h <= end && end + icvLen <= |m1|
    ensures var r := Write(m1, d - ivLen, m1[d..d + h]);
      r[d - ivLen..end + icvLen] == m1[d..d + h] + r[d - ivLen + h..d + h] + m1[d + h..end] + r[end..end + icvLen]
  {
    hide Write;
    var r := Write(m1, d - ivLen, m1[d..d + h]);
    Cut(r, d - ivLen, end, end + icvLen);
    Cut(r, d - ivLen, d + h, end);
    Cut(r, d - ivLen, d - ivLen + h, d + h);
    WriteSlices(m1, d - ivLen, m1[d..d + h], d + h, end);
  }

  /** Both together, as the frame on the air. */
  lemma CryptMemory(m: seq<Byte>, f: seq<Byte>, d: nat, end: nat, h: nat, ivLen: nat, icvLen: nat, m1: seq<Byte>,
                    r: seq<Byte>)
    requires ivLen <= d && d + 2 <= end && end + icvLen <= |m| && f == m[d..end]
    requires h == HdrLen(ReadLe16(f)) && 24 <= h && d + h <= end && Marked(ReadLe16(f), true) < 0x1_0000
    requires m1 == Write(m, d, Le16(Marked(ReadLe16(f), true))) && r == Write(m1, d - ivLen, m1[d..d + h])
    ensures r[d - ivLen..end + icvLen]
            == AirHeader(f, true, f[2..4], f[22..24]) + r[d - ivLen + h..d + h] + f[h..] + r[end..end + icvLen]
  {
    MarkedHeader(m, f, d, end);
    MovedDown(m1, d, end, h, ivLen, icvLen);
    WriteSlices(m, d, Le16(Marked(ReadLe16(f), true)), d + h, end);
    SliceOfSlice(m, d, end, h, end - d);
  }

  /** The memory after the header has moved up over the IV. */
  lemma StripMemory(m: seq<Byte>, d: nat, end: nat, h: nat, ivLen: nat, icvLen: nat)
    requires d + 2 <= end <= |m| && h == HdrLen(ReadLe16(m[d..end])) && d + h + ivLen + icvLen <= end
    ensures Strip(m[d..end], ivLen, icvLen) == Some(Write(m, d + ivLen, m[d..d + h])[d + ivLen..end - icvLen])
  {
    hide Write, HdrLen, ReadLe16;
    var f, header := m[d..end], m[d..d + h];
    var r := Write(m, d + ivLen, header);
    var a, b, c := d + ivLen, d + ivLen + h, end - icvLen;
    WriteSlices(m, a, header, b, c);
    assert r[a..b] == header && r[b..c] == m[b..c];
    SliceOfSlice(m, d, end, 0, h);
    SliceOfSlice(m, d, end, h + ivLen, end - d - icvLen);
    assert f[..h] == header && f[h + ivLen..|f| - icvLen] == m[b..c];
    Cut(r, a, b, c);
  }
}
