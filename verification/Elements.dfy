/** Information elements: the parser (atbm_ieee802_11_parse_elems of net/atbm_util.c) and the copy
    of a list without the elements a fast reconnect does not need (atbm_wifi_reserve_key_ie). */
module Elements {
  import opened Options
  import opened FrameFormat

  datatype Element = Element(id: Byte, body: seq<Byte>)

  const EID_SSID: Byte := 0
  const EID_SUPP_RATES: Byte := 1
  const EID_DS_PARAMS: Byte := 3
  const EID_TIM: Byte := 5
  const EID_ERP_INFO: Byte := 42
  const EID_HT_CAPABILITY: Byte := 45
  const EID_RSN: Byte := 48
  const EID_EXT_SUPP_RATES: Byte := 50
  const EID_EXT_CHANSWITCH_ANN: Byte := 60
  const EID_HT_OPERATION: Byte := 61
  const EID_SECONDARY_CH_OFFSET: Byte := 62
  const EID_VENDOR_SPECIFIC: Byte := 221
  const OUI_MICROSOFT: seq<Byte> := [0x00, 0x50, 0xf2]

  // ---------------------------------------------------------------- the list

  /** The elements of a byte string, up to the first one that does not fit. */
  function Listed(ie: seq<Byte>): seq<Element>
    decreases |ie|
  {
    if |ie| < 2 || ie[1] > |ie| - 2 then []
    else [Element(ie[0], ie[2..2 + ie[1]])] + Listed(ie[2 + ie[1]..])
  }

  function Bytes(e: Element): (b: seq<Byte>)
    requires |e.body| < 256
    ensures |b| == 2 + |e.body|
  {
    [e.id, |e.body|] + e.body
  }

  ghost predicate Encodable(es: seq<Element>) {
    forall i :: 0 <= i < |es| ==> |es[i].body| < 256
  }

  function Joined(es: seq<Element>): seq<Byte>
    requires Encodable(es)
  {
    if es == [] then [] else Joined(es[..|es| - 1]) + Bytes(es[|es| - 1])
  }

  lemma {:induction false} ListedEncodable(ie: seq<Byte>)
    ensures Encodable(Listed(ie))
    decreases |ie|
  {
    if |ie| >= 2 && ie[1] <= |ie| - 2 { ListedEncodable(ie[2 + ie[1]..]); }
  }

  /** An element is its number, its length and its body, and is read as such. */
  lemma ListedFirst(e: Element, rest: seq<Byte>)
    requires |e.body| < 256
    ensures Bytes(e) == [e.id] + [|e.body|] + e.body
    ensures Listed(Bytes(e) + rest) == [e] + Listed(rest)
  {
    var ie := Bytes(e) + rest;
    assert ie[2..2 + |e.body|] == e.body && ie[2 + |e.body|..] == rest;
  }

  /** Reading a list of elements that was written, whatever follows it. */
  lemma {:induction false} ListedJoined(es: seq<Element>, rest: seq<Byte>)
    requires Encodable(es)
    ensures Listed(Joined(es) + rest) == es + Listed(rest)
  {
    hide Listed, Bytes;
    if es == [] {
      assert Joined(es) + rest == rest;
    } else {
      var t, e := es[..|es| - 1], es[|es| - 1];
      ListedJoined(t, Bytes(e) + rest);
      ListedFirst(e, rest);
      assert Joined(t) + (Bytes(e) + rest) == (Joined(t) + Bytes(e)) + rest;
      assert t + ([e] + Listed(rest)) == es + Listed(rest);
    }
  }

  // ---------------------------------------------------------------- what the parser collects

  datatype Kind = Ssid | SuppRates | DsParams | Tim | Wpa | WmmInfo | WmmParam | Wps | Rsn | ErpInfo | ExtSuppRates
    | HtCap | HtInfo | ExtChanSwitch | SecondaryOffset

  /** The field an element is kept in; too short ones and unknown ones are passed over. */
  function KindOf(e: Element): Option<Kind> {
    if e.id == EID_SSID then Some(Ssid)
    else if e.id == EID_SUPP_RATES then Some(SuppRates)
    else if e.id == EID_DS_PARAMS then Some(DsParams)
    else if e.id == EID_TIM then if |e.body| >= 6 then Some(Tim) else None
    else if e.id == EID_VENDOR_SPECIFIC then VendorKind(e.body)
    else if e.id == EID_RSN then Some(Rsn)
    else if e.id == EID_ERP_INFO then Some(ErpInfo)
    else if e.id == EID_EXT_SUPP_RATES then Some(ExtSuppRates)
    else if e.id == EID_HT_CAPABILITY then if |e.body| >= 26 then Some(HtCap) else None
    else if e.id == EID_HT_OPERATION then if |e.body| >= 22 then Some(HtInfo) else None
    else if e.id == EID_EXT_CHANSWITCH_ANN then Some(ExtChanSwitch)
    else if e.id == EID_SECONDARY_CH_OFFSET then Some(SecondaryOffset)
    else None
  }

  /** atbmwifi_ieee802_11_parse_vendor_specific. */
  function VendorKind(body: seq<Byte>): Option<Kind> {
    if |body| < 4 || body[..3] != OUI_MICROSOFT then None
    else if body[3] == 1 then Some(Wpa)
    else if body[3] == 2 then
      if |body| < 5 then None
      else if body[4] == 0 then Some(WmmInfo)
      else if body[4] == 1 then Some(WmmParam)
      else None
    else if body[3] == 4 then Some(Wps)
    else None
  }

  /** A network name has at most 32 bytes. */
  function ValueOf(e: Element): seq<Byte> {
    if e.id == EID_SSID && |e.body| > 32 then e.body[..32] else e.body
  }

  type Fields = map<Kind, seq<Byte>>

  function Noted(m: Fields, e: Element): Fields {
    match KindOf(e) case Some(k) => m[k := ValueOf(e)] case None => m
  }

  /** The fields after a list of elements: of several of a kind the last one stays. */
  function Collected(es: seq<Element>): Fields {
    if es == [] then map[] else Noted(Collected(es[..|es| - 1]), es[|es| - 1])
  }

  function Get(m: Fields, k: Kind): Option<seq<Byte>> {
    if k in m then Some(m[k]) else None
  }

  // ---------------------------------------------------------------- where a field comes from

  /** The elements a field is taken from: their number, the shortest length the parser accepts, and the
      bytes a vendor's element starts with. */
  predicate Belongs(e: Element, k: Kind) {
    match k
    case Ssid => e.id == 0
    case SuppRates => e.id == 1
    case DsParams => e.id == 3
    case Tim => e.id == 5 && |e.body| >= 6
    case ErpInfo => e.id == 42
    case HtCap => e.id == 45 && |e.body| >= 26
    case Rsn => e.id == 48
    case ExtSuppRates => e.id == 50
    case ExtChanSwitch => e.id == 60
    case HtInfo => e.id == 61 && |e.body| >= 22
    case SecondaryOffset => e.id == 62
    case Wpa => e.id == 221 && [0x00, 0x50, 0xf2, 1] <= e.body
    case WmmInfo => e.id == 221 && [0x00, 0x50, 0xf2, 2, 0] <= e.body
    case WmmParam => e.id == 221 && [0x00, 0x50, 0xf2, 2, 1] <= e.body
    case Wps => e.id == 221 && [0x00, 0x50, 0xf2, 4] <= e.body
  }

  /** The i-th element is the last one a field is taken from. */
  ghost predicate LastOf(es: seq<Element>, k: Kind, i: nat) {
    i < |es| && Belongs(es[i], k) && forall j :: i < j < |es| ==> !Belongs(es[j], k)
  }

  /** A field holds the body of the last element it is taken from, of a network name the first 32
      bytes; it is absent if there is none. */
  ghost predicate Taken(es: seq<Element>, k: Kind, field: Option<seq<Byte>>) {
    match field
    case None => forall i :: 0 <= i < |es| ==> !Belongs(es[i], k)
    case Some(v) =>
      exists i: nat :: LastOf(es, k, i) && v == if k == Ssid && |es[i].body| > 32 then es[i].body[..32] else es[i].body
  }

  lemma KindBelongs(e: Element, k: Kind)
    ensures KindOf(e) == Some(k) <==> Belongs(e, k)
    ensures Belongs(e, k) ==> ValueOf(e) == if k == Ssid && |e.body| > 32 then e.body[..32] else e.body
  {
    if e.id == EID_VENDOR_SPECIFIC && |e.body| >= 4 {
      var b := e.body;
      assert b[..3] == [b[0], b[1], b[2]];
      VendorStarts(b);
    }
  }

  /** What a vendor's element starts with, byte by byte. */
  lemma VendorStarts(b: seq<Byte>)
    requires |b| >= 4
    ensures forall x: Byte ::
      [0x00, 0x50, 0xf2, x] <= b <==> b[0] == 0x00 && b[1] == 0x50 && b[2] == 0xf2 && b[3] == x
    ensures forall x: Byte, y: Byte ::
      [0x00, 0x50, 0xf2, x, y] <= b <==> |b| >= 5 && [0x00, 0x50, 0xf2, x] <= b && b[4] == y
  {}

  lemma TakenLast(t: seq<Element>, e: Element, k: Kind, before: Option<seq<Byte>>)
    requires Taken(t, k, before)
    ensures Taken(t + [e], k, if KindOf(e) == Some(k) then Some(ValueOf(e)) else before)
  {
    hide Belongs, KindOf, ValueOf;
    KindBelongs(e, k);
    var es := t + [e];
    if KindOf(e) == Some(k) {
      assert LastOf(es, k, |t|);
    } else if before.Some? {
      var i: nat :| LastOf(t, k, i)
        && before.value == if k == Ssid && |t[i].body| > 32 then t[i].body[..32] else t[i].body;
      assert LastOf(es, k, i);
    }
  }

  /** Where every field of a list of elements comes from. */
  lemma {:induction false} CollectedTaken(es: seq<Element>, k: Kind)
    ensures Taken(es, k, Get(Collected(es), k))
  {
    hide Taken, Noted;
    if es == [] {
      NothingTaken(k);
    } else {
      var t, e := es[..|es| - 1], es[|es| - 1];
      CollectedTaken(t, k);
      NotedGet(Collected(t), e, k);
      TakenLast(t, e, k, Get(Collected(t), k));
      assert t + [e] == es;
    }
  }

  lemma NothingTaken(k: Kind)
    ensures Taken([], k, None)
  {}

  /** What one element does to a field. */
  lemma NotedGet(m: Fields, e: Element, k: Kind)
    ensures Get(Noted(m, e), k) == if KindOf(e) == Some(k) then Some(ValueOf(e)) else Get(m, k)
  {}

  /** atbm_ieee802_11_parse_elems. */
  method ParseElems(start: seq<Byte>) returns (elems: Fields)
    ensures elems == Collected(Listed(start))
    ensures forall k :: Taken(Listed(start), k, Get(elems, k))
  {
    hide Noted, Listed, Collected, Taken;
    elems := map[];
    var pos, left := 0, |start|;
    ghost var done: seq<Element> := [];
    NothingCollected();
    assert start[0..] == start && done + Listed(start) == Listed(start);
    while left >= 2
      invariant 0 <= pos && 0 <= left && pos + left == |start| && elems == Collected(done)
        && done + Listed(start[pos..]) == Listed(start)
    {
      ListedAt(start, pos);
      var id, elen := start[pos], start[pos + 1];
      pos := pos + 2;
      left := left - 2;
      if elen > left {
        pos := pos - 2;
        left := left + 2;
        break;
      }
      var e := Element(id, start[pos..pos + elen]);
      elems := Noted(elems, e);
      CollectedLast(done, e);
      Shift(done, e, Listed(start[pos + elen..]));
      done := done + [e];
      left := left - elen;
      pos := pos + elen;
    }
    ListedEnd(start, pos);
    assert done + [] == done;
    forall k ensures Taken(Listed(start), k, Get(elems, k)) {
      CollectedTaken(Listed(start), k);
    }
  }

  lemma Shift(done: seq<Element>, e: Element, rest: seq<Element>)
    ensures done + ([e] + rest) == (done + [e]) + rest
  {}

  lemma NothingCollected()
    ensures Collected([]) == map[]
  {}

  lemma CollectedLast(done: seq<Element>, e: Element)
    ensures Collected(done + [e]) == Noted(Collected(done), e)
  {
    assert (done + [e])[..|done|] == done;
  }

  lemma ListedAt(ie: seq<Byte>, pos: nat)
    requires pos + 2 <= |ie|
    ensures ie[pos + 1] <= |ie| - pos - 2 ==>
      Listed(ie[pos..]) == [Element(ie[pos], ie[pos + 2..pos + 2 + ie[pos + 1]])] + Listed(ie[pos + 2 + ie[pos + 1]..])
  {
    var s := ie[pos..];
    if ie[pos + 1] <= |ie| - pos - 2 {
      assert s[2..2 + s[1]] == ie[pos + 2..pos + 2 + ie[pos + 1]] && s[2 + s[1]..] == ie[pos + 2 + ie[pos + 1]..];
    }
  }

  lemma ListedEnd(ie: seq<Byte>, pos: nat)
    requires pos <= |ie|
    ensures |ie| - pos < 2 || ie[pos + 1] > |ie| - pos - 2 ==> Listed(ie[pos..]) == []
  {}

  // ---------------------------------------------------------------- what a reconnect needs

  /** The elements that are copied. */
  predicate Reserved(e: Element) {
    || e.id == EID_SSID || e.id == EID_SUPP_RATES || e.id == EID_DS_PARAMS || e.id == EID_EXT_SUPP_RATES
    || e.id == EID_HT_CAPABILITY || e.id == EID_HT_OPERATION || e.id == EID_RSN
    || (e.id == EID_VENDOR_SPECIFIC && |e.body| >= 4 && e.body[0] == 0x00 && e.body[1] == 0x50 && e.body[2] == 0xf2
        && (e.body[3] == 1 || (e.body[3] == 2 && |e.body| > 5)))
  }

  function OnlyReserved(es: seq<Element>): seq<Element> {
    if es == [] then []
    else OnlyReserved(es[..|es| - 1]) + if Reserved(es[|es| - 1]) then [es[|es| - 1]] else []
  }

  lemma {:induction false} ReservedEncodable(es: seq<Element>)
    requires Encodable(es)
    ensures Encodable(OnlyReserved(es))
  {
    if es != [] {
      ReservedEncodable(es[..|es| - 1]);
      assert |es[|es| - 1].body| < 256;
    }
  }

  /** atbm_wifi_reserve_key_ie: the reserved elements in their order, or -1 when they do not fit. */
  method ReserveKeyIe(buf: array<Byte>, ie: seq<Byte>) returns (len: int)
    modifies buf
    ensures Encodable(OnlyReserved(Listed(ie)))
    ensures var kept := Joined(OnlyReserved(Listed(ie)));
      if |kept| > buf.Length then len == -1 else len == |kept| && buf[..len] == kept && buf[len..] == old(buf[len..])
  {
    hide Listed, OnlyReserved, Joined, Reserved, Bytes;
    ghost var before := buf[..];
    var left, pos := |ie|, 0;
    ghost var done: seq<Element> := [];
    ListedEncodable(ie);
    ReservedEncodable(Listed(ie));
    NothingReserved();
    assert ie[0..] == ie && done + Listed(ie) == Listed(ie);
    len := 0;
    while left >= 2
      invariant 0 <= pos && 0 <= left && pos + left == |ie| && done + Listed(ie[pos..]) == Listed(ie)
      invariant Encodable(OnlyReserved(done)) && 0 <= len == |Joined(OnlyReserved(done))| <= buf.Length
      invariant buf[..len] == Joined(OnlyReserved(done)) && buf[len..] == before[len..]
    {
      ListedAt(ie, pos);
      var id, elen := ie[pos], ie[pos + 1];
      pos := pos + 2;
      left := left - 2;
      if elen > left {
        pos := pos - 2;
        left := left + 2;
        break;
      }
      var e := Element(id, ie[pos..pos + elen]);
      ghost var rest := Listed(ie[pos + elen..]);
      Shift(done, e, rest);
      ReservedLast(done, e, rest);
      if Reserved(e) {
        if len + 2 + elen <= buf.Length {
          AppendTo(buf, len, e);
          len := len + 2 + elen;
        } else {
          return -1;
        }
      }
      done := done + [e];
      left := left - elen;
      pos := pos + elen;
    }
    ListedEnd(ie, pos);
    assert done + [] == done;
  }

  /** atbm_memcpy of an element to the end of the copy. */
  method AppendTo(buf: array<Byte>, len: nat, e: Element)
    requires |e.body| < 256 && len + 2 + |e.body| <= buf.Length
    modifies buf
    ensures buf[..len + 2 + |e.body|] == old(buf[..len]) + Bytes(e)
    ensures buf[len + 2 + |e.body|..] == old(buf[len + 2 + |e.body|..])
  {
    var bytes := Bytes(e);
    for i := 0 to |bytes|
      invariant buf[..len + i] == old(buf[..len]) + bytes[..i]
      invariant forall k :: len + i <= k < buf.Length ==> buf[k] == old(buf[k])
    {
      buf[len + i] := bytes[i];
    }
  }

  lemma NothingReserved()
    ensures OnlyReserved([]) == [] && Encodable([]) && Joined([]) == []
  {}

  lemma JoinedLast(es: seq<Element>, e: Element)
    requires Encodable(es) && |e.body| < 256
    ensures Encodable(es + [e]) && Joined(es + [e]) == Joined(es) + Bytes(e)
  {
    assert (es + [e])[..|es|] == es;
  }

  /** One more element, and what lies behind it. */
  lemma ReservedLast(done: seq<Element>, e: Element, rest: seq<Element>)
    requires Encodable(OnlyReserved(done)) && |e.body| < 256
    requires Encodable(OnlyReserved((done + [e]) + rest))
    ensures Encodable(OnlyReserved(done + [e]))
    ensures Joined(OnlyReserved(done + [e])) == Joined(OnlyReserved(done)) + if Reserved(e) then Bytes(e) else []
    ensures |Joined(OnlyReserved(done + [e]))| <= |Joined(OnlyReserved((done + [e]) + rest))|
  {
    hide Joined, Reserved, Bytes;
    assert (done + [e])[..|done|] == done;
    if Reserved(e) { JoinedLast(OnlyReserved(done), e); } else {
      assert OnlyReserved(done) + [] == OnlyReserved(done);
      assert Joined(OnlyReserved(done)) + [] == Joined(OnlyReserved(done));
    }
    MoreReserved(done + [e], rest);
  }

  lemma {:induction false} MoreReserved(es: seq<Element>, rest: seq<Element>)
    requires Encodable(OnlyReserved(es + rest))
    ensures Encodable(OnlyReserved(es)) && |Joined(OnlyReserved(es))| <= |Joined(OnlyReserved(es + rest))|
    decreases |rest|
  {
    if rest == [] {
      assert es + rest == es;
    } else {
      var t, x := rest[..|rest| - 1], rest[|rest| - 1];
      var all := es + rest;
      assert all[..|all| - 1] == es + t && all[|all| - 1] == x;
      var kept := OnlyReserved(es + t);
      assert forall i :: 0 <= i < |kept| ==> kept[i] == OnlyReserved(all)[i];
      MoreReserved(es, t);
      if Reserved(x) {
        assert |OnlyReserved(all)[|kept|].body| < 256;
        JoinedLast(kept, x);
      } else {
        assert kept + [] == kept;
      }
    }
  }

  /** Which elements are copied: those of seven numbers, and a vendor's that start with 00 50 f2 1, or
      with 00 50 f2 2 if they are longer than five bytes. */
  lemma {:induction false} KeptElements(es: seq<Element>, e: Element)
    ensures e in OnlyReserved(es) <==>
      && e in es
      && (|| e.id in [0, 1, 3, 45, 48, 50, 61]
          || (e.id == 221
              && ([0x00, 0x50, 0xf2, 1] <= e.body || ([0x00, 0x50, 0xf2, 2] <= e.body && |e.body| > 5))))
  {
    if |e.body| >= 4 { VendorStarts(e.body); }
    if es != [] { KeptElements(es[..|es| - 1], e); }
  }

  /** The fields a reconnect relies on whose elements are always copied. */
  predicate Essential(k: Kind) {
    k == Ssid || k == SuppRates || k == DsParams || k == ExtSuppRates || k == HtCap || k == HtInfo || k == Rsn
    || k == Wpa
  }

  predicate IsWmm(k: Kind) { k == WmmInfo || k == WmmParam }

  /** Which elements of a kind are copied: all of an essential one; a WMM element unless it is
      exactly as long as the parser demands. */
  lemma KindReserved(e: Element)
    requires KindOf(e).Some?
    ensures Essential(KindOf(e).value) ==> Reserved(e)
    ensures Reserved(e) ==> Essential(KindOf(e).value) || IsWmm(KindOf(e).value)
    ensures IsWmm(KindOf(e).value) ==> ValueOf(e) == e.body && |e.body| >= 5 && (Reserved(e) <==> |e.body| != 5)
  {
    if e.id == EID_VENDOR_SPECIFIC {
      var b := e.body;
      assert b[..3] == [b[0], b[1], b[2]];
    }
  }

  /** No WMM element of length five is among the copied ones. */
  lemma {:induction false} LongWmm(es: seq<Element>, k: Kind)
    requires IsWmm(k)
    ensures var m := Collected(OnlyReserved(es)); k in m ==> |m[k]| > 5
  {
    if es != [] {
      var t, e := es[..|es| - 1], es[|es| - 1];
      LongWmm(t, k);
      ReservedStep(es);
      if KindOf(e).Some? { KindReserved(e); }
    }
  }

  lemma ReservedStep(es: seq<Element>)
    requires es != []
    ensures var t, e := es[..|es| - 1], es[|es| - 1];
      Collected(OnlyReserved(es)) == if Reserved(e) then Noted(Collected(OnlyReserved(t)), e)
        else Collected(OnlyReserved(t))
  {
    hide Noted, Reserved;
    var t, e := es[..|es| - 1], es[|es| - 1];
    if Reserved(e) { CollectedLast(OnlyReserved(t), e); } else { assert OnlyReserved(t) + [] == OnlyReserved(t); }
  }

  /** The essential fields come through the copy unchanged, a WMM field does if and only if it is not
      exactly five bytes long, and no other field is left. */
  lemma {:induction false} CopyKeepsMeaning(es: seq<Element>, k: Kind)
    ensures Essential(k) ==> Get(Collected(OnlyReserved(es)), k) == Get(Collected(es), k)
    ensures IsWmm(k) ==>
      (Get(Collected(OnlyReserved(es)), k) == Get(Collected(es), k)
       <==> !(Get(Collected(es), k).Some? && |Get(Collected(es), k).value| == 5))
    ensures !Essential(k) && !IsWmm(k) ==> Get(Collected(OnlyReserved(es)), k) == None
  {
    hide Noted, Reserved, KindOf, ValueOf;
    if es != [] {
      var t, e := es[..|es| - 1], es[|es| - 1];
      CopyKeepsMeaning(t, k);
      ReservedStep(es);
      NotedGet(Collected(t), e, k);
      NotedGet(Collected(OnlyReserved(t)), e, k);
      if IsWmm(k) { LongWmm(t, k); }
      if KindOf(e).Some? { KindReserved(e); }
    }
  }

  /** One WMM information element of five bytes: it is parsed, and lost in the copy. */
  lemma ShortWmmIsLost()
    ensures var wmm := Element(EID_VENDOR_SPECIFIC, [0x00, 0x50, 0xf2, 2, 0]);
      && Get(Collected([wmm]), WmmInfo) == Some(wmm.body)
      && Get(Collected(OnlyReserved([wmm])), WmmInfo) == None
  {
    var wmm := Element(EID_VENDOR_SPECIFIC, [0x00, 0x50, 0xf2, 2, 0]);
    var none: seq<Element> := [];
    assert wmm.body[..3] == OUI_MICROSOFT;
    assert KindOf(wmm) == Some(WmmInfo) && !Reserved(wmm);
    assert none + [wmm] == [wmm];
    CollectedLast(none, wmm);
    NotedGet(Collected(none), wmm, WmmInfo);
    assert [wmm][..0] == none;
  }

  /** The copy, parsed again, against the original, parsed. */
  lemma ReservedParses(ie: seq<Byte>, k: Kind)
    ensures Encodable(OnlyReserved(Listed(ie)))
    ensures var copy := Joined(OnlyReserved(Listed(ie)));
      var was, now := Get(Collected(Listed(ie)), k), Get(Collected(Listed(copy)), k);
      && (Essential(k) ==> now == was)
      && (IsWmm(k) ==> (now == was <==> !(was.Some? && |was.value| == 5)))
      && (!Essential(k) && !IsWmm(k) ==> now == None)
  {
    hide Listed, Collected, OnlyReserved, Joined;
    var es := Listed(ie);
    ListedEncodable(ie);
    ReservedEncodable(es);
    var kept := OnlyReserved(es);
    ListedJoined(kept, []);
    var nothing: seq<Byte> := [];
    ListedEnd(nothing, 0);
    assert Joined(kept) + nothing == Joined(kept) && kept + [] == kept && nothing[0..] == nothing;
    CopyKeepsMeaning(es, k);
  }
}
