/** Splitting an aggregated frame into Ethernet frames (atbmwifi_ieee80211_amsdu_to_8023s of
    net/atbm_util.c), against the aggregation of section 8.3.2.2 of IEEE 802.11-2012. */
module AmsduFormat {
  import opened Options
  import opened FrameFormat

  /** Delivered frames, or none because a subframe was malformed. */
  datatype Split = Delivered(frames: seq<seq<Byte>>) | Purged

  /** Padding that brings a subframe to a multiple of four bytes. */
  function PaddingOf(subframeLen: nat): (p: nat)
    ensures p < 4 && (subframeLen + p) % 4 == 0
  {
    (4 - subframeLen) % 4
  }

  /** A subframe's body behind an Ethernet header: the LLC header makes way for its ethertype, or
      the length field stays. `beyond` is what lies behind the body in memory. */
  function EthFrame(dst: seq<Byte>, src: seq<Byte>, length: seq<Byte>, body: seq<Byte>, beyond: seq<Byte>): seq<Byte>
    requires |dst| == |src| == 6 && |length| == 2 && |body| + |beyond| >= 8
  {
    if Decapsulates(body + beyond) then Unwrapped(dst, src, body) else dst + src + (length + body)
  }

  /** The loop of atbmwifi_ieee80211_amsdu_to_8023s on the rest of the buffer. Copied frames lie
      in fresh zeroed buffers; the last one stays where it is, with `beyond` behind it. */
  function SplitAll(rest: seq<Byte>, beyond: seq<Byte>): Split
    requires |beyond| >= 8
    decreases |rest|
  {
    if |rest| < ETH_HLEN then Purged
    else
      var subframeLen := ETH_HLEN + ReadBe16(rest, 12);
      var padding := PaddingOf(subframeLen);
      if subframeLen > |rest| || rest[..6] == RFC1042 then Purged
      else if |rest| <= subframeLen + padding then
        Delivered([EthFrame(rest[..6], rest[6..12], rest[12..14], rest[14..], beyond)])
      else
        Prepend(EthFrame(rest[..6], rest[6..12], rest[12..14], rest[14..subframeLen], Zeros()),
                SplitAll(rest[subframeLen + padding..], beyond))
  }

  /** What lies behind a copied subframe. */
  function Zeros(): (z: seq<Byte>)
    ensures |z| >= 8
  {
    seq(TAILROOM, _ => 0)
  }

  function Prepend(first: seq<Byte>, rest: Split): Split {
    if rest.Delivered? then Delivered([first] + rest.frames) else Purged
  }

  // ---------------------------------------------------------------- aggregation

  /** One subframe of an aggregate, with the padding the sender put behind it. */
  datatype Subframe = Subframe(dst: seq<Byte>, src: seq<Byte>, body: seq<Byte>, pad: seq<Byte>)

  /** The padding brings a subframe to a multiple of four bytes; the last one may have less. */
  predicate WellFormed(s: Subframe, last: bool) {
    && |s.dst| == |s.src| == 6 && s.dst != RFC1042
    && 8 <= |s.body| < 0x1_0000
    && (if last then |s.pad| <= PaddingOf(ETH_HLEN + |s.body|) else |s.pad| == PaddingOf(ETH_HLEN + |s.body|))
  }

  function Be16(n: nat): (s: seq<Byte>)
    requires n < 0x1_0000
    ensures |s| == 2
  {
    [n / 256, n % 256]
  }

  function Bytes(s: Subframe): seq<Byte>
    requires |s.body| < 0x1_0000
  {
    s.dst + s.src + Be16(|s.body|) + s.body + s.pad
  }

  predicate AllWellFormed(subs: seq<Subframe>) {
    forall i :: 0 <= i < |subs| ==> WellFormed(subs[i], false)
  }

  function Aggregate(subs: seq<Subframe>): seq<Byte>
    requires AllWellFormed(subs)
  {
    if subs == [] then [] else Bytes(subs[0]) + Aggregate(subs[1..])
  }

  /** The Ethernet frame a subframe stands for; padding that the last one carries comes along. */
  function Meaning(s: Subframe, last: bool): seq<Byte>
    requires |s.dst| == |s.src| == 6 && 8 <= |s.body| < 0x1_0000
  {
    var body := if last then s.body + s.pad else s.body;
    if Decapsulates(s.body) then s.dst + s.src + body[6..] else s.dst + s.src + (Be16(|s.body|) + body)
  }

  function Meanings(subs: seq<Subframe>): seq<seq<Byte>>
    requires AllWellFormed(subs)
  {
    if subs == [] then [] else [Meaning(subs[0], false)] + Meanings(subs[1..])
  }

  // ---------------------------------------------------------------- splitting undoes aggregation

  lemma Be16RoundTrip(n: nat)
    requires n < 0x1_0000
    ensures ReadBe16(Be16(n), 0) == n
  {}

  /** The fields of the first subframe, whatever follows it. */
  lemma FirstFields(s: Subframe, rest: seq<Byte>)
    requires |s.dst| == |s.src| == 6 && |s.body| < 0x1_0000
    ensures var b := Bytes(s) + rest;
      && |b| >= ETH_HLEN && b[..6] == s.dst && b[6..12] == s.src && b[12..14] == Be16(|s.body|)
      && ReadBe16(b, 12) == |s.body|
      && b[14..14 + |s.body|] == s.body
      && b[14..] == s.body + s.pad + rest
      && b[14 + |s.body| + |s.pad|..] == rest
  {
    var b := Bytes(s) + rest;
    var h := s.dst + s.src + Be16(|s.body|);
    assert b == h + (s.body + s.pad + rest);
    assert h[..6] == s.dst && h[6..12] == s.src && h[12..14] == Be16(|s.body|);
    assert b[..14] == h;
    Be16RoundTrip(|s.body|);
    assert ReadBe16(b, 12) == ReadBe16(Be16(|s.body|), 0);
  }

  /** What EthFrame makes of a body of at least eight bytes, with whatever padding it carries. */
  lemma FrameOfBody(s: Subframe, tail: seq<Byte>, beyond: seq<Byte>)
    requires |s.dst| == |s.src| == 6 && 8 <= |s.body| < 0x1_0000
    ensures EthFrame(s.dst, s.src, Be16(|s.body|), s.body + tail, beyond)
            == if Decapsulates(s.body) then s.dst + s.src + (s.body + tail)[6..]
               else s.dst + s.src + (Be16(|s.body|) + (s.body + tail))
  {
    DecapsulationIsLocal(s.body, tail + beyond);
    assert (s.body + tail) + beyond == s.body + (tail + beyond);
  }

  lemma SplitOne(s: Subframe, rest: seq<Byte>, beyond: seq<Byte>)
    requires WellFormed(s, false) && rest != [] && |beyond| >= 8
    ensures SplitAll(Bytes(s) + rest, beyond) == Prepend(Meaning(s, false), SplitAll(rest, beyond))
  {
    var b := Bytes(s) + rest;
    FirstFields(s, rest);
    FrameOfBody(s, [], Zeros());
    assert s.body + [] == s.body;
    var subframeLen, padding := ETH_HLEN + |s.body|, |s.pad|;
    assert |b| == subframeLen + padding + |rest|;
    OneStep(b, subframeLen, padding, EthFrame(s.dst, s.src, Be16(|s.body|), s.body, Zeros()), beyond);
  }

  /** One turn of the loop that is not the last. */
  lemma OneStep(b: seq<Byte>, subframeLen: nat, padding: nat, first: seq<Byte>, beyond: seq<Byte>)
    requires |beyond| >= 8 && |b| >= ETH_HLEN && subframeLen == ETH_HLEN + ReadBe16(b, 12)
      && padding == PaddingOf(subframeLen)
    requires |b| > subframeLen + padding && b[..6] != RFC1042
    requires first == EthFrame(b[..6], b[6..12], b[12..14], b[14..subframeLen], Zeros())
    ensures SplitAll(b, beyond) == Prepend(first, SplitAll(b[subframeLen + padding..], beyond))
  {
    hide PaddingOf, EthFrame, Prepend, ReadBe16;
  }

  lemma SplitLast(s: Subframe, beyond: seq<Byte>)
    requires WellFormed(s, true) && |beyond| >= 8
    ensures SplitAll(Bytes(s), beyond) == Delivered([Meaning(s, true)])
  {
    hide PaddingOf, Decapsulates;
    var b := Bytes(s);
    FirstFields(s, []);
    assert b + [] == b && s.body + s.pad + [] == s.body + s.pad;
    FrameOfBody(s, s.pad, beyond);
    assert EthFrame(b[..6], b[6..12], b[12..14], b[14..], beyond) == Meaning(s, true);
  }

  lemma Assoc<T>(a: seq<T>, b: seq<T>, c: seq<T>)
    ensures (a + b) + c == a + (b + c)
  {}

  /** Splitting an aggregate delivers the Ethernet frames of its subframes, in order. */
  lemma {:induction false} SplitUndoesAggregate(subs: seq<Subframe>, last: Subframe, beyond: seq<Byte>)
    requires AllWellFormed(subs) && WellFormed(last, true) && |beyond| >= 8
    ensures SplitAll(Aggregate(subs) + Bytes(last), beyond) == Delivered(Meanings(subs) + [Meaning(last, true)])
  {
    if subs == [] {
      SplitLast(last, beyond);
      assert Aggregate(subs) + Bytes(last) == Bytes(last);
    } else {
      var rest := Aggregate(subs[1..]) + Bytes(last);
      SplitUndoesAggregate(subs[1..], last, beyond);
      SplitOne(subs[0], rest, beyond);
      Assoc(Bytes(subs[0]), Aggregate(subs[1..]), Bytes(last));
      Assoc([Meaning(subs[0], false)], Meanings(subs[1..]), [Meaning(last, true)]);
    }
  }

  // ---------------------------------------------------------------- Ethernet frames inside an aggregate

  /** An Ethernet frame as it is aggregated: its addresses, and the body it has in a data frame too. */
  predicate Holds(s: Subframe, eth: seq<Byte>)
    requires |eth| >= ETH_HLEN
  {
    s.dst == eth[0..6] && s.src == eth[6..12] && s.body == BodyOf(eth)
  }

  /** A frame with an Ethernet type, or one whose length field tells its length and whose payload does
      not pass for an LLC header. */
  predicate Sound(eth: seq<Byte>)
    requires |eth| >= ETH_HLEN
  {
    ReadBe16(eth, 12) > 0x600 || (ReadBe16(eth, 12) == |eth| - ETH_HLEN >= 8 && !Decapsulates(eth[14..]))
  }

  lemma MeaningIsFrame(s: Subframe, eth: seq<Byte>)
    requires |eth| >= ETH_HLEN && Sound(eth) && Holds(s, eth) && 8 <= |s.body| < 0x1_0000
    ensures Meaning(s, false) == eth
  {
    hide Decapsulates;
    if ReadBe16(eth, 12) > 0x600 {
      DecapsulatesEncapsulated(eth);
      assert eth == eth[0..6] + eth[6..12] + eth[12..];
    } else {
      LengthField(eth);
      assert eth == eth[0..6] + eth[6..12] + (eth[12..14] + eth[14..]);
    }
  }

  lemma LengthField(eth: seq<Byte>)
    requires |eth| >= ETH_HLEN
    ensures Be16(ReadBe16(eth, 12)) == eth[12..14]
  {}

  /** Ethernet frames that were aggregated arrive as they were, in order, whatever the padding. */
  lemma {:induction false} FramesArrive(eths: seq<seq<Byte>>, subs: seq<Subframe>, last: seq<Byte>, end: Subframe,
                                        beyond: seq<Byte>)
    requires |eths| == |subs| && AllWellFormed(subs) && WellFormed(end, true) && end.pad == [] && |beyond| >= 8
    requires forall i :: 0 <= i < |eths| ==> |eths[i]| >= ETH_HLEN && Sound(eths[i]) && Holds(subs[i], eths[i])
    requires |last| >= ETH_HLEN && Sound(last) && Holds(end, last)
    ensures SplitAll(Aggregate(subs) + Bytes(end), beyond) == Delivered(eths + [last])
  {
    hide Meaning, SplitAll, Bytes, Sound, Holds;
    SplitUndoesAggregate(subs, end, beyond);
    MeaningIsFrame(end, last);
    NoPadding(end);
    MeaningsAreFrames(eths, subs);
  }

  lemma NoPadding(s: Subframe)
    requires |s.dst| == |s.src| == 6 && 8 <= |s.body| < 0x1_0000 && s.pad == []
    ensures Meaning(s, true) == Meaning(s, false)
  {
    assert s.body + [] == s.body;
  }

  lemma {:induction false} MeaningsAreFrames(eths: seq<seq<Byte>>, subs: seq<Subframe>)
    requires |eths| == |subs| && AllWellFormed(subs)
    requires forall i :: 0 <= i < |eths| ==> |eths[i]| >= ETH_HLEN && Sound(eths[i]) && Holds(subs[i], eths[i])
    ensures Meanings(subs) == eths
  {
    hide Meaning, Sound, Holds;
    if subs != [] {
      MeaningIsFrame(subs[0], eths[0]);
      MeaningsAreFrames(eths[1..], subs[1..]);
      assert [eths[0]] + eths[1..] == eths;
    }
  }

  /** What makes the loop give up: too short for a header, too short for its own length, or
      addressed to the first bytes of an LLC header. */
  predicate Malformed(rest: seq<Byte>) {
    |rest| < ETH_HLEN || ETH_HLEN + ReadBe16(rest, 12) > |rest| || rest[..6] == RFC1042
  }

  /** A malformed subframe anywhere behind well-formed ones delivers nothing at all. */
  lemma {:induction false} MalformedDeliversNothing(subs: seq<Subframe>, bad: seq<Byte>, beyond: seq<Byte>)
    requires AllWellFormed(subs) && Malformed(bad) && bad != [] && |beyond| >= 8
    ensures SplitAll(Aggregate(subs) + bad, beyond) == Purged
  {
    if subs == [] {
      assert Aggregate(subs) + bad == bad;
    } else {
      var rest := Aggregate(subs[1..]) + bad;
      MalformedDeliversNothing(subs[1..], bad, beyond);
      SplitOne(subs[0], rest, beyond);
      Assoc(Bytes(subs[0]), Aggregate(subs[1..]), bad);
    }
  }

  // ---------------------------------------------------------------- any buffer whatever

  /** Whether a subframe is the last one: nothing but its padding, if that, lies behind it. */
  predicate Last(rest: seq<Byte>)
    requires !Malformed(rest)
  {
    var n := ETH_HLEN + ReadBe16(rest, 12);
    |rest| <= n + PaddingOf(n)
  }

  function BehindFirst(rest: seq<Byte>): (r: seq<Byte>)
    requires !Malformed(rest) && !Last(rest)
    ensures 0 < |r| < |rest|
  {
    var n := ETH_HLEN + ReadBe16(rest, 12);
    rest[n + PaddingOf(n)..]
  }

  /** The body of the first subframe, and what the driver sees behind it. */
  function FirstBody(rest: seq<Byte>): seq<Byte>
    requires !Malformed(rest)
  {
    if Last(rest) then rest[14..] else rest[14..ETH_HLEN + ReadBe16(rest, 12)]
  }

  function SeenBehind(rest: seq<Byte>, beyond: seq<Byte>): (b: seq<Byte>)
    requires !Malformed(rest) && |beyond| >= 8
    ensures |b| >= 8
  {
    if Last(rest) then beyond else Zeros()
  }

  /** What the loop has before it in its k-th turn, if it gets there. */
  function Turn(rest: seq<Byte>, k: nat): Option<seq<Byte>> {
    if k == 0 then Some(rest)
    else if Malformed(rest) || Last(rest) then None
    else Turn(BehindFirst(rest), k - 1)
  }

  /** A body of fewer than eight bytes that passes for an LLC header, together with the bytes
      behind it. */
  predicate PassesForLlc(rest: seq<Byte>, beyond: seq<Byte>)
    requires !Malformed(rest) && |beyond| >= 8
  {
    |FirstBody(rest)| < 8 && Decapsulates(FirstBody(rest) + SeenBehind(rest, beyond))
  }

  /** The loop, seen as a first turn and a rest. */
  lemma SplitFirst(rest: seq<Byte>, beyond: seq<Byte>)
    requires |beyond| >= 8
    ensures Malformed(rest) ==> SplitAll(rest, beyond) == Purged
    ensures !Malformed(rest) ==>
      var frame := EthFrame(rest[..6], rest[6..12], rest[12..14], FirstBody(rest), SeenBehind(rest, beyond));
      SplitAll(rest, beyond) == if Last(rest) then Delivered([frame])
        else Prepend(frame, SplitAll(BehindFirst(rest), beyond))
  {
    hide EthFrame, Prepend, PaddingOf, ReadBe16;
  }

  /** How long the Ethernet frame of a body is. */
  lemma FrameLength(dst: seq<Byte>, src: seq<Byte>, length: seq<Byte>, body: seq<Byte>, beyond: seq<Byte>)
    requires |dst| == |src| == 6 && |length| == 2 && |body| + |beyond| >= 8
    ensures |EthFrame(dst, src, length, body, beyond)|
      == if Decapsulates(body + beyond) then |body| + 6 else |body| + ETH_HLEN
  {
    hide Decapsulates;
  }

  /** The loop gets to a k-th turn and finds its subframe malformed. */
  predicate MalformedIn(rest: seq<Byte>, k: nat) {
    Turn(rest, k).Some? && Malformed(Turn(rest, k).value)
  }

  /** The loop delivers nothing if and only if it meets a malformed subframe. */
  lemma {:induction false} PurgedIff(rest: seq<Byte>, beyond: seq<Byte>)
    requires |beyond| >= 8
    ensures SplitAll(rest, beyond).Purged? <==> exists k: nat :: MalformedIn(rest, k)
    decreases |rest|
  {
    hide SplitAll, Malformed, Last, BehindFirst, EthFrame, FirstBody, SeenBehind;
    SplitFirst(rest, beyond);
    if Malformed(rest) {
      assert MalformedIn(rest, 0);
    } else if Last(rest) {
      assert forall k: nat :: !MalformedIn(rest, k);
    } else {
      var next := BehindFirst(rest);
      PurgedIff(next, beyond);
      if k: nat :| MalformedIn(next, k) {
        var later := k + 1;
        assert MalformedIn(rest, later);
      }
      if k: nat :| MalformedIn(rest, k) {
        assert MalformedIn(next, k - 1);
      }
    }
  }

  /** Otherwise each turn delivers a frame, and the frame ends within its own Ethernet header if
      and only if the turn's body is too short for an LLC header and still passes for one. */
  lemma {:induction false} CutShortIff(rest: seq<Byte>, beyond: seq<Byte>, i: nat)
    requires |beyond| >= 8 && SplitAll(rest, beyond).Delivered? && i < |SplitAll(rest, beyond).frames|
    ensures Turn(rest, i).Some? && !Malformed(Turn(rest, i).value)
    ensures |SplitAll(rest, beyond).frames[i]| < ETH_HLEN <==> PassesForLlc(Turn(rest, i).value, beyond)
    decreases |rest|
  {
    hide SplitAll, Malformed, Last, BehindFirst, EthFrame, FirstBody, SeenBehind, Decapsulates;
    SplitFirst(rest, beyond);
    if i == 0 {
      HeaderThere(rest);
      FrameLength(rest[..6], rest[6..12], rest[12..14], FirstBody(rest), SeenBehind(rest, beyond));
    } else {
      CutShortIff(BehindFirst(rest), beyond, i - 1);
    }
  }

  lemma HeaderThere(rest: seq<Byte>)
    requires !Malformed(rest)
    ensures |rest| >= ETH_HLEN
  {}

  /** One subframe with the body aa aa 03, and zeros behind it: a frame of nine bytes. */
  lemma ThreeByteBody()
    ensures var rest: seq<Byte> := [1, 2, 3, 4, 5, 6] + [7, 8, 9, 10, 11, 12] + [0, 3] + [0xaa, 0xaa, 0x03];
      SplitAll(rest, Zeros()) == Delivered([[1, 2, 3, 4, 5, 6, 7, 8, 9]])
  {
    hide SplitAll, EthFrame;
    var dst, src, body: seq<Byte> := [1, 2, 3, 4, 5, 6], [7, 8, 9, 10, 11, 12], [0xaa, 0xaa, 0x03];
    var rest := dst + src + [0, 3] + body;
    assert rest[..6] == dst && rest[6..12] == src && rest[12..14] == [0, 3] && rest[14..] == body
      && ReadBe16(rest, 12) == 3;
    assert dst[0] != RFC1042[0];
    assert !Malformed(rest) && Last(rest);
    SplitFirst(rest, Zeros());
    ThreeByteFrame(dst, src);
    assert dst + src[..3] == [1, 2, 3, 4, 5, 6, 7, 8, 9];
  }

  lemma ThreeByteFrame(dst: seq<Byte>, src: seq<Byte>)
    requires |dst| == |src| == 6
    ensures EthFrame(dst, src, [0, 3], [0xaa, 0xaa, 0x03], Zeros()) == dst + src[..3]
  {
    var body: seq<Byte> := [0xaa, 0xaa, 0x03];
    var read := body + Zeros();
    assert read[..6] == RFC1042;
    assert ReadBe16(read, 6) == 0;
    assert (dst + src)[..9] == dst + src[..3];
  }

  // ---------------------------------------------------------------- inside an 802.11 frame

  /** Whether the header conversion finds an LLC header in front of the aggregate, and the frame
      ends before its ethertype does: skipping the Ethernet header then skips past the frame. */
  predicate EndsInLlc(frame: seq<Byte>, beyond: seq<Byte>)
    requires |frame| >= 2 && IsDataPresent(ReadLe16(frame)) && |frame| >= HdrLen(ReadLe16(frame)) && |beyond| >= 8
  {
    var payload := frame[HdrLen(ReadLe16(frame))..];
    |payload| < 8 && Decapsulates(payload + beyond)
  }

  /** The whole of atbmwifi_ieee80211_amsdu_to_8023s for a frame that still has its 802.11
      header: the header conversion runs first and its Ethernet header is skipped. */
  function SplitFrame(frame: seq<Byte>, own: seq<Byte>, iftype: IfType, beyond: seq<Byte>): Split
    requires |frame| >= 2 && |beyond| >= 8
    requires IsDataPresent(ReadLe16(frame)) ==> |frame| >= HdrLen(ReadLe16(frame)) && !EndsInLlc(frame, beyond)
  {
    match To8023(frame, beyond, own, iftype)
    case None => Purged
    case Some(eth) => SplitAll(eth[ETH_HLEN..], beyond)
  }

  /** The header conversion leaves the aggregate whole if and only if its first eight bytes do
      not pass for an LLC header. */
  lemma WrapperKeepsAggregateIff(frame: seq<Byte>, own: seq<Byte>, iftype: IfType, beyond: seq<Byte>)
    requires |frame| >= 2 && IsDataPresent(ReadLe16(frame)) && |frame| >= HdrLen(ReadLe16(frame)) && |beyond| >= 8
    requires Takes(frame, own, iftype) && !EndsInLlc(frame, beyond)
    ensures var eth, payload := To8023(frame, beyond, own, iftype), frame[HdrLen(ReadLe16(frame))..];
      && eth.Some? && |eth.value| >= ETH_HLEN
      && (eth.value[ETH_HLEN..] == payload <==> !Decapsulates(payload + beyond))
      && (Decapsulates(payload + beyond) ==> eth.value[ETH_HLEN..] == payload[8..])
  {
    hide Decapsulates;
    var payload := frame[HdrLen(ReadLe16(frame))..];
    var dst, src := DestOf(frame), SourceOf(frame);
    if Decapsulates(payload + beyond) {
      assert (dst + src + payload[6..])[ETH_HLEN..] == payload[8..];
    } else {
      assert (dst + src + (Le16(ReadBe16(payload + beyond, 6)) + payload))[ETH_HLEN..] == payload;
    }
  }

  /** The converted frame ends within its own Ethernet header, so that skipping that header goes past
      its end, if and only if the payload ends within what passes for its LLC header. */
  lemma WrapperCutShortIff(frame: seq<Byte>, own: seq<Byte>, iftype: IfType, beyond: seq<Byte>)
    requires |frame| >= 2 && IsDataPresent(ReadLe16(frame)) && |frame| >= HdrLen(ReadLe16(frame)) && |beyond| >= 8
    requires Takes(frame, own, iftype)
    ensures var eth := To8023(frame, beyond, own, iftype);
      eth.Some? && (|eth.value| < ETH_HLEN <==> EndsInLlc(frame, beyond))
  {
    hide Decapsulates;
  }

  /** A frame from an access point with the payload aa aa 03, and zeros behind it: nine of the
      fourteen bytes that are skipped next. */
  lemma ThreeBytePayload(own: seq<Byte>)
    requires |own| == 6
    ensures var frame := Header(FcOf(Ap, false), [0, 0], [2, 0, 0, 0, 0, 2], own, own, [0, 0], []) + [0xaa, 0xaa, 0x03];
      && |frame| >= HdrLen(ReadLe16(frame)) && IsDataPresent(ReadLe16(frame)) && Takes(frame, own, Station)
      && EndsInLlc(frame, Zeros()) && |To8023(frame, Zeros(), own, Station).value| == 9
  {
    var payload, a1: seq<Byte> := [0xaa, 0xaa, 0x03], [2, 0, 0, 0, 0, 2];
    DirectionBits(Ap, false);
    HeaderFields(FcOf(Ap, false), [0, 0], a1, own, own, [0, 0], [], payload);
    TakenByStation(Header(FcOf(Ap, false), [0, 0], a1, own, own, [0, 0], []) + payload, own);
    var read := payload + Zeros();
    assert read[..6] == RFC1042;
    assert ReadBe16(read, 6) == 0;
  }

  /** An accepted data frame that carries an aggregate delivers its Ethernet frames, unless the
      first destination is the bridge-tunnel LLC header. */
  lemma AggregateArrives(header: seq<Byte>, subs: seq<Subframe>, last: Subframe, own: seq<Byte>, iftype: IfType,
                         beyond: seq<Byte>)
    requires |header| >= 24 && |header| == HdrLen(ReadLe16(header)) && IsDataPresent(ReadLe16(header))
    requires AllWellFormed(subs) && WellFormed(last, true) && |beyond| >= 8
    requires (if subs == [] then last else subs[0]).dst != BRIDGE_TUNNEL
    requires Takes(header + (Aggregate(subs) + Bytes(last)), own, iftype)
    ensures var frame := header + (Aggregate(subs) + Bytes(last));
      && ReadLe16(frame) == ReadLe16(header) && |frame| >= |header| && !EndsInLlc(frame, beyond)
      && SplitFrame(frame, own, iftype, beyond) == Delivered(Meanings(subs) + [Meaning(last, true)])
  {
    hide SplitAll, Aggregate, Bytes, Meanings, Meaning, To8023, Takes;
    var payload := Aggregate(subs) + Bytes(last);
    FirstDest(subs, last);
    SplitUndoesAggregate(subs, last, beyond);
    HeaderThenPayload(header, payload);
    DecapsulationIsLocal(payload, beyond);
    WrapperKeepsAggregateIff(header + payload, own, iftype, beyond);
  }

  /** A frame from an access point with one well-formed subframe, addressed to the bytes of the
      bridge-tunnel header: eight bytes go with the wrapper, and the rest is taken for another
      subframe, with another destination and no body. */
  lemma BridgeTunnelDestIsMisread(own: seq<Byte>)
    requires |own| == 6
    ensures var sub := Subframe(BRIDGE_TUNNEL, [2, 0, 0, 0, 0, 1], Nothings(8), []);
      var frame := Header(FcOf(Ap, false), [0, 0], [2, 0, 0, 0, 0, 2], own, own, [0, 0], []) + Bytes(sub);
      && WellFormed(sub, true) && Meaning(sub, true)[..6] == BRIDGE_TUNNEL
      && |frame| >= HdrLen(ReadLe16(frame)) && IsDataPresent(ReadLe16(frame)) && !EndsInLlc(frame, Zeros())
      && SplitFrame(frame, own, Station, Zeros()) == Delivered([[0, 0, 0, 1, 0, 8] + Nothings(6) + [0, 0]])
  {
    hide SplitAll, To8023, SplitFrame, Decapsulates, Bytes, EndsInLlc, Takes;
    var sub := Subframe(BRIDGE_TUNNEL, [2, 0, 0, 0, 0, 1], Nothings(8), []);
    var payload, a1: seq<Byte> := Bytes(sub), [2, 0, 0, 0, 0, 2];
    var frame := Header(FcOf(Ap, false), [0, 0], a1, own, own, [0, 0], []) + payload;
    DirectionBits(Ap, false);
    HeaderFields(FcOf(Ap, false), [0, 0], a1, own, own, [0, 0], [], payload);
    TunnelPayload(sub);
    DecapsulationIsLocal(payload, Zeros());
    assert !EndsInLlc(frame, Zeros()) by { NotShort(frame); }
    assert Takes(frame, own, Station) by { TakenByStation(frame, own); }
    WrapperKeepsAggregateIff(frame, own, Station, Zeros());
    assert SplitFrame(frame, own, Station, Zeros())
      == SplitAll(payload[8..], Zeros()) by { SplitWrapped(frame, own, Station, Zeros()); }
    EmptySubframe(payload[8..]);
  }

  lemma NotShort(frame: seq<Byte>)
    requires |frame| >= 2 && IsDataPresent(ReadLe16(frame)) && |frame| >= HdrLen(ReadLe16(frame)) + 8
    ensures !EndsInLlc(frame, Zeros())
  {}

  lemma TakenByStation(frame: seq<Byte>, own: seq<Byte>)
    requires |frame| >= 24 && frame[4] % 2 == 0
    requires !HasBit(ReadLe16(frame), FCTL_TODS) && HasBit(ReadLe16(frame), FCTL_FROMDS)
    ensures Takes(frame, own, Station)
  {}

  lemma SplitWrapped(frame: seq<Byte>, own: seq<Byte>, iftype: IfType, beyond: seq<Byte>)
    requires |frame| >= 2 && |beyond| >= 8
    requires IsDataPresent(ReadLe16(frame)) && |frame| >= HdrLen(ReadLe16(frame)) && !EndsInLlc(frame, beyond)
    requires Takes(frame, own, iftype)
    ensures var eth := To8023(frame, beyond, own, iftype);
      eth.Some? && |eth.value| >= ETH_HLEN && SplitFrame(frame, own, iftype, beyond)
        == SplitAll(eth.value[ETH_HLEN..], beyond)
  {
    WrapperKeepsAggregateIff(frame, own, iftype, beyond);
  }

  function Nothings(n: nat): (z: seq<Byte>)
    ensures |z| == n
  {
    seq(n, _ => 0)
  }

  lemma TunnelPayload(sub: Subframe)
    requires sub == Subframe(BRIDGE_TUNNEL, [2, 0, 0, 0, 0, 1], Nothings(8), [])
    ensures |Bytes(sub)| == 22 && Decapsulates(Bytes(sub)) && WellFormed(sub, true)
      && Meaning(sub, true)[..6] == BRIDGE_TUNNEL
    ensures Bytes(sub)[8..] == [0, 0, 0, 1, 0, 8] + Nothings(6) + [0, 0]
  {
    assert Bytes(sub)[..6] == BRIDGE_TUNNEL;
    assert BRIDGE_TUNNEL[5] != RFC1042[5];
  }

  /** A subframe of a header and nothing else. */
  lemma EmptySubframe(rest: seq<Byte>)
    requires rest == [0, 0, 0, 1, 0, 8] + Nothings(6) + [0, 0]
    ensures SplitAll(rest, Zeros()) == Delivered([rest])
  {
    hide SplitAll, EthFrame;
    assert ReadBe16(rest, 12) == 0;
    assert rest[..6][0] != RFC1042[0];
    assert !Malformed(rest) && Last(rest) && FirstBody(rest) == [];
    SplitFirst(rest, Zeros());
    EmptyFrame(rest);
  }

  lemma EmptyFrame(rest: seq<Byte>)
    requires |rest| == 14
    ensures EthFrame(rest[..6], rest[6..12], rest[12..14], [], Zeros()) == rest
  {
    var read := [] + Zeros();
    assert read[0] == 0 && read[..6][0] == 0;
    assert rest[..6] + rest[6..12] + (rest[12..14] + []) == rest;
  }

  lemma HeaderThenPayload(header: seq<Byte>, payload: seq<Byte>)
    requires |header| >= 24
    ensures ReadLe16(header + payload) == ReadLe16(header) && (header + payload)[|header|..] == payload
  {}

  lemma FirstDest(subs: seq<Subframe>, last: Subframe)
    requires AllWellFormed(subs) && WellFormed(last, true)
    ensures var payload := Aggregate(subs) + Bytes(last);
      |payload| >= 8 && payload[..6] == (if subs == [] then last else subs[0]).dst
  {
    if subs == [] {
      FirstFields(last, []);
      assert Bytes(last) + [] == Bytes(last) == Aggregate(subs) + Bytes(last);
    } else {
      FirstFields(subs[0], Aggregate(subs[1..]) + Bytes(last));
      Assoc(Bytes(subs[0]), Aggregate(subs[1..]), Bytes(last));
    }
  }
}
