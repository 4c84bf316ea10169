/** The loop that splits an aggregated frame, over packet buffers. */
module Amsdu {
  import opened FrameFormat
  import opened PacketBuffer
  import opened AmsduFormat
  import Conversion

  /** The end of the loop's body: an Ethernet header in front of a subframe's body. */
  method PutHeader(frame: Skb, dst: seq<Byte>, src: seq<Byte>, length: seq<Byte>) returns (bytes: seq<Byte>)
    requires frame.Valid() && frame.data >= ETH_HLEN && frame.tail + 8 <= frame.mem.Length
    requires |dst| == |src| == 6 && |length| == 2
    modifies frame, frame.mem
    ensures frame.Valid() && bytes == frame.Contents()
    ensures bytes == EthFrame(dst, src, length, old(frame.Contents()), old(frame.mem[frame.tail..]))
  {
    var p := frame.data;
    ghost var m, end := frame.mem[..], frame.tail;
    PayloadThenBeyond(m, p, end);
    var high: int, low: int := frame.mem[p + 6], frame.mem[p + 7];
    var ethertype: nat := 256 * high + low;
    var first := frame.mem[p..p + 6];
    if (first == RFC1042 && ethertype != ETH_P_AARP && ethertype != ETH_P_IPX) || first == BRIDGE_TUNNEL {
      if frame.Len() < 6 {
        Conversion.PutAddressesPast(frame, dst, src);
      } else {
        frame.Pull(6);
        Conversion.PutAddresses(frame, dst, src);
      }
    } else {
      PutLength(frame, length);
      Conversion.PutAddresses(frame, dst, src);
    }
    bytes := frame.mem[frame.data..frame.tail];
  }

  /** The length field in front of the body. */
  method PutLength(frame: Skb, length: seq<Byte>)
    requires frame.Valid() && frame.data >= 2 && |length| == 2
    modifies frame, frame.mem
    ensures frame.Valid() && frame.data == old(frame.data) - 2 && frame.tail == old(frame.tail)
    ensures frame.Contents() == length + old(frame.Contents())
  {
    ghost var m, p, end := frame.mem[..], frame.data, frame.tail;
    LengthInFront(m, p, end, length);
    frame.Push(2);
    frame.Store(frame.data, length);
    assert frame.Contents() == frame.mem[..][p - 2..end];
  }

  lemma PayloadThenBeyond(m: seq<Byte>, p: nat, end: nat)
    requires p <= end && end + 8 <= |m|
    ensures var payload := m[p..end] + m[end..];
      payload[..6] == m[p..p + 6] && ReadBe16(payload, 6) == ReadBe16(m, p + 6)
  {
    assert m[p..end] + m[end..] == m[p..];
  }

  lemma LengthInFront(m: seq<Byte>, p: nat, end: nat, length: seq<Byte>)
    requires 2 <= p <= end <= |m| && |length| == 2
    ensures Write(m, p - 2, length)[p - 2..end] == length + m[p..end]
  {
    WriteSlices(m, p - 2, length, p, end);
    Cut(Write(m, p - 2, length), p - 2, p, end);
  }

  /** A buffer of its own for a subframe's body. */
  method CopyBody(skb: Skb, from: nat, n: nat, ghost m: seq<Byte>) returns (frame: Skb)
    requires from + n <= skb.mem.Length && m == skb.mem[..]
    ensures fresh(frame) && fresh(frame.mem) && frame.Valid() && frame.data >= ETH_HLEN
      && frame.tail + TAILROOM == frame.mem.Length
    ensures frame.Contents() == m[from..from + n] && frame.mem[frame.tail..] == Zeros()
  {
    hide Write, EthFrame;
    var hlen := 32;
    frame := new Skb(hlen + ETH_HLEN + n + 2);
    frame.Reserve(hlen + ETH_HLEN + 2);
    var at := frame.Put(n);
    ghost var z := frame.mem[..];
    assert z[frame.tail..] == Zeros();
    var bytes := skb.mem[from..from + n];
    frame.Store(at, bytes);
    WriteSlices(z, at, bytes, frame.tail, frame.mem.Length);
    ghost var r := frame.mem[..];
    assert frame.mem[frame.tail..] == r[frame.tail..frame.mem.Length];
    assert frame.mem[at..frame.tail] == r[at..at + n];
  }

  /** The fields of a subframe, where it lies in memory. */
  lemma FieldsInMemory(m: seq<Byte>, d: nat, end: nat)
    requires d + ETH_HLEN <= end <= |m|
    ensures var b := m[d..end];
      && b[..6] == m[d..d + 6] && b[6..12] == m[d + 6..d + 12] && b[12..14] == m[d + 12..d + 14]
      && b[14..] == m[d + 14..end]
      && ReadBe16(b, 12) == ReadBe16(m[d + 12..d + 14], 0)
  {
    SliceOfSlice(m, d, end, 0, 6);
    SliceOfSlice(m, d, end, 6, 12);
    SliceOfSlice(m, d, end, 12, 14);
    SliceOfSlice(m, d, end, 14, end - d);
  }

  /** What one turn of the loop makes of the rest of the buffer. */
  lemma Turn(m: seq<Byte>, d: nat, end: nat, dst: seq<Byte>, src: seq<Byte>, length: seq<Byte>, subframeLen: nat,
             padding: nat)
    requires d <= end && end + ETH_HLEN <= |m|
    requires dst == m[d..d + 6] && src == m[d + 6..d + 12] && length == m[d + 12..d + 14]
    requires subframeLen == ETH_HLEN + ReadBe16(length, 0) && padding == PaddingOf(subframeLen)
    ensures subframeLen > end - d || dst == RFC1042 ==> SplitAll(m[d..end], m[end..]) == Purged
    ensures subframeLen <= end - d <= subframeLen + padding && dst != RFC1042 ==>
      SplitAll(m[d..end], m[end..]) == Delivered([EthFrame(dst, src, length, m[d + ETH_HLEN..end], m[end..])])
    ensures subframeLen + padding < end - d && dst != RFC1042 ==>
      SplitAll(m[d..end], m[end..])
      == Prepend(EthFrame(dst, src, length, m[d + ETH_HLEN..d + subframeLen], Zeros()),
        SplitAll(m[d + subframeLen + padding..end], m[end..]))
  {
    if end - d >= ETH_HLEN {
      FieldsInMemory(m, d, end);
      if subframeLen + padding < end - d && dst != RFC1042 {
        SliceOfSlice(m, d, end, ETH_HLEN, subframeLen);
        SliceOfSlice(m, d, end, subframeLen + padding, end - d);
        OneStep(m[d..end], subframeLen, padding, EthFrame(dst, src, length, m[d + ETH_HLEN..d + subframeLen], Zeros()),
          m[end..]);
      }
    }
  }

  /** The frames so far, and what the rest of the buffer makes of them. */
  function Behind(list: seq<seq<Byte>>, rest: Split): Split {
    if rest.Delivered? then Delivered(list + rest.frames) else Purged
  }

  lemma BehindMore(list: seq<seq<Byte>>, one: seq<Byte>, rest: Split)
    ensures Behind(list, Prepend(one, rest)) == Behind(list + [one], rest)
  {
    if rest.Delivered? {
      assert list + ([one] + rest.frames) == (list + [one]) + rest.frames;
    }
  }

  /** The first n bytes as a frame of their own; the buffer moves past them and their padding. */
  method TakeCopy(skb: Skb, n: nat, padding: nat, dst: seq<Byte>, src: seq<Byte>, length: seq<Byte>, ghost m: seq<Byte>)
    returns (one: seq<Byte>)
    requires skb.Valid() && n + padding <= skb.Len() && m == skb.mem[..]
    requires |dst| == |src| == 6 && |length| == 2
    modifies skb
    ensures skb.Valid() && skb.tail == old(skb.tail) && skb.data == old(skb.data) + n + padding
    ensures one == EthFrame(dst, src, length, m[old(skb.data)..old(skb.data) + n], Zeros())
  {
    hide EthFrame, Zeros;
    var frame := CopyBody(skb, skb.data, n, m);
    skb.Pull(n + padding);
    one := PutHeader(frame, dst, src, length);
  }

  /** atbmwifi_ieee80211_amsdu_to_8023s on a buffer whose 802.11 header is off. */
  method SplitBuffer(skb: Skb) returns (r: Split)
    requires skb.Valid() && skb.tail + ETH_HLEN <= skb.mem.Length
    modifies skb, skb.mem
    ensures r == SplitAll(old(skb.Contents()), old(skb.mem[skb.tail..]))
  {
    hide SplitAll, EthFrame, Zeros, PaddingOf, ReadBe16;
    ghost var m, end := skb.mem[..], skb.tail;
    ghost var beyond, all := m[end..], SplitAll(m[skb.data..end], m[end..]);
    var list: seq<seq<Byte>> := [];
    while true
      invariant skb.Valid() && skb.tail == end && skb.mem[..] == m
      invariant all == Behind(list, SplitAll(m[skb.data..end], beyond))
      decreases skb.Len()
    {
      var remaining := skb.Len();
      var d := skb.data;
      var dst, src, length := skb.mem[d..d + 6], skb.mem[d + 6..d + 12], skb.mem[d + 12..d + 14];
      var subframeLen := ETH_HLEN + ReadBe16(length, 0);
      var padding := PaddingOf(subframeLen);
      Turn(m, d, end, dst, src, length, subframeLen, padding);
      if subframeLen > remaining || dst == RFC1042 {
        return Purged;
      }
      skb.Pull(ETH_HLEN);
      if remaining <= subframeLen + padding {
        assert skb.Contents() == m[d + ETH_HLEN..end] && skb.mem[skb.tail..] == beyond;
        var one := PutHeader(skb, dst, src, length);
        return Delivered(list + [one]);
      }
      var one := TakeCopy(skb, subframeLen - ETH_HLEN, padding, dst, src, length, m);
      BehindMore(list, one, SplitAll(m[skb.data..end], beyond));
      list := list + [one];
    }
  }

  /** The whole of it, for a frame that still has its 802.11 header. */
  method SplitWithHeader(skb: Skb, own: seq<Byte>, iftype: IfType) returns (r: Split)
    requires skb.Valid() && skb.Len() >= 2 && skb.tail + ETH_HLEN <= skb.mem.Length
    requires var f := skb.Contents();
      IsDataPresent(ReadLe16(f)) ==> |f| >= HdrLen(ReadLe16(f)) && !EndsInLlc(f, skb.mem[skb.tail..])
    modifies skb, skb.mem
    ensures r == SplitFrame(old(skb.Contents()), own, iftype, old(skb.mem[skb.tail..]))
  {
    hide SplitAll, Decapsulates, HdrLen, ReadLe16;
    ghost var f, beyond := skb.Contents(), skb.mem[skb.tail..];
    var conv := new Conversion.Converter(skb);
    var ret := conv.DataTo8023(own, iftype);
    if !ret.Done? {
      return Purged;
    }
    SplitWrapped(f, own, iftype, beyond);
    skb.Pull(ETH_HLEN);
    r := SplitBuffer(skb);
  }
}
