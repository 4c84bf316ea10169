/** The supported-rates elements (sections 8.4.2.3 and 8.4.2.15 of IEEE 802.11-2012): writing them
    from a rate mask and reading them back (net/atbm_util.c). Masks are the sets of their bits. */
module Rates {
  import opened Options
  import opened FrameFormat
  import opened Elements

  /** Rates in units of 500 kb/s, by bit number. */
  ghost predicate ValidTable(table: seq<nat>) {
    && |table| < 32
    && (forall i :: 0 <= i < |table| ==> table[i] < 128)
    && (forall i, j :: 0 <= i < j < |table| ==> table[i] != table[j])
  }

  const CCK_BITS: set<nat> := {0, 1, 2, 3}

  function RateByte(table: seq<nat>, basic: set<nat>, i: nat): Byte
    requires i < |table| && table[i] < 128
  {
    if i in basic then table[i] + 128 else table[i]
  }

  /** The bytes for the bits of the mask from one number up to another. */
  function RateBytes(table: seq<nat>, mask: set<nat>, basic: set<nat>, from: nat, hi: nat): (b: seq<Byte>)
    requires ValidTable(table) && from <= hi <= |table|
    ensures |b| <= hi - from
  {
    if from == hi then []
    else RateBytes(table, mask, basic, from, hi - 1) + if hi - 1 in mask then [RateByte(table, basic, hi - 1)] else []
  }

  lemma {:induction false} RateBytesSplit(table: seq<nat>, mask: set<nat>, basic: set<nat>, from: nat, mid: nat,
                                          hi: nat)
    requires ValidTable(table) && from <= mid <= hi <= |table|
    ensures RateBytes(table, mask, basic, from, hi)
      == RateBytes(table, mask, basic, from, mid) + RateBytes(table, mask, basic, mid, hi)
    decreases hi
  {
    if mid < hi {
      RateBytesSplit(table, mask, basic, from, mid, hi - 1);
    }
  }

  lemma {:induction false} NoRates(table: seq<nat>, mask: set<nat>, basic: set<nat>, from: nat, hi: nat)
    requires ValidTable(table) && from <= hi <= |table| && forall i :: from <= i < hi ==> i !in mask
    ensures RateBytes(table, mask, basic, from, hi) == []
    decreases hi
  {
    if from < hi { NoRates(table, mask, basic, from, hi - 1); }
  }

  // ---------------------------------------------------------------- reading

  datatype RateInfo = RateInfo(support: set<nat>, basic: set<nat>)

  /** The bit of a rate; the length of the table if it is not there. */
  function BitOf(table: seq<nat>, rate: nat, from: nat): (j: nat)
    requires from <= |table|
    ensures from <= j <= |table| && (j < |table| ==> table[j] == rate)
    ensures forall k :: from <= k < j ==> table[k] != rate
    decreases |table| - from
  {
    if from == |table| || table[from] == rate then from else BitOf(table, rate, from + 1)
  }

  function ReadOne(table: seq<nat>, info: RateInfo, b: Byte): RateInfo {
    var j := BitOf(table, b % 128, 0);
    if j == |table| then info
    else RateInfo(info.support + {j}, if b >= 128 then info.basic + {j} else info.basic)
  }

  function Read(table: seq<nat>, info: RateInfo, rates: seq<Byte>): RateInfo {
    if rates == [] then info else ReadOne(table, Read(table, info, rates[..|rates| - 1]), rates[|rates| - 1])
  }

  /** atbmwifi_ieee80211_get_sta_rateinfo. */
  method GetStaRateinfo(table: seq<nat>, sta: RateInfo, rates: seq<Byte>) returns (info: RateInfo)
    ensures info == Read(table, sta, rates)
  {
    info := sta;
    for i := 0 to |rates|
      invariant info == Read(table, sta, rates[..i])
    {
      var rate, isBasic := rates[i] % 128, rates[i] >= 128;
      var j := 0;
      while j < |table| && table[j] != rate
        invariant 0 <= j <= |table| && BitOf(table, rate, 0) == BitOf(table, rate, j)
      {
        j := j + 1;
      }
      if j < |table| {
        info := RateInfo(info.support + {j}, if isBasic then info.basic + {j} else info.basic);
      }
      assert rates[..i + 1][..i] == rates[..i];
    }
    assert rates[..|rates|] == rates;
  }

  lemma {:induction false} ReadTwice(table: seq<nat>, info: RateInfo, a: seq<Byte>, b: seq<Byte>)
    ensures Read(table, Read(table, info, a), b) == Read(table, info, a + b)
  {
    if b == [] {
      assert a + b == a;
    } else {
      ReadTwice(table, info, a, b[..|b| - 1]);
      assert (a + b)[..|a + b| - 1] == a + b[..|b| - 1];
    }
  }

  function Below(s: set<nat>, n: nat): set<nat> { set i | i in s && i < n }

  lemma BelowNext(s: set<nat>, n: nat)
    ensures Below(s, n + 1) == if n in s then Below(s, n) + {n} else Below(s, n)
  {}

  lemma BelowSize(s: set<nat>, n: nat)
    ensures |Below(s, n + 1)| == |Below(s, n)| + if n in s then 1 else 0
  {
    BelowNext(s, n);
  }

  /** One byte for each bit of the mask, at the place of the bit among the bits: the rate, with 0x80
      added for a basic one. */
  lemma {:induction false} RateBytesAt(table: seq<nat>, mask: set<nat>, basic: set<nat>, hi: nat, i: nat)
    requires ValidTable(table) && hi <= |table|
    ensures |RateBytes(table, mask, basic, 0, hi)| == |Below(mask, hi)|
    ensures i < hi && i in mask ==>
      && |Below(mask, i)| < |Below(mask, hi)|
      && RateBytes(table, mask, basic, 0, hi)[|Below(mask, i)|] == table[i] + if i in basic then 0x80 else 0
  {
    if hi == 0 {
      assert Below(mask, 0) == {};
    } else {
      RateBytesAt(table, mask, basic, hi - 1, i);
      BelowSize(mask, hi - 1);
    }
  }

  lemma ReadWritten(table: seq<nat>, info: RateInfo, basic: set<nat>, i: nat)
    requires ValidTable(table) && i < |table|
    ensures ReadOne(table, info, RateByte(table, basic, i))
            == RateInfo(info.support + {i}, if i in basic then info.basic + {i} else info.basic)
  {
    var b := RateByte(table, basic, i);
    assert b % 128 == table[i] && (b >= 128 <==> i in basic);
  }

  /** Reading the bytes of a mask gives back the mask, and those of its bits that are basic. */
  lemma {:induction false} ReadRateBytes(table: seq<nat>, mask: set<nat>, basic: set<nat>, hi: nat)
    requires ValidTable(table) && hi <= |table|
    ensures Read(table, RateInfo({}, {}), RateBytes(table, mask, basic, 0, hi))
      == RateInfo(Below(mask, hi), Below(mask * basic, hi))
  {
    hide ReadOne, RateByte;
    if hi == 0 {
      assert Below(mask, 0) == {} && Below(mask * basic, 0) == {};
    } else {
      var n := hi - 1;
      ReadRateBytes(table, mask, basic, n);
      BelowNext(mask, n);
      BelowNext(mask * basic, n);
      var done := RateBytes(table, mask, basic, 0, n);
      if n in mask {
        var b := RateByte(table, basic, n);
        assert (done + [b])[..|done|] == done;
        ReadWritten(table, RateInfo(Below(mask, n), Below(mask * basic, n)), basic, n);
      } else {
        assert done + [] == done;
      }
    }
  }

  // ---------------------------------------------------------------- writing

  /** The mask, without the rates of 802.11b if those are not to be used. */
  function Allowed(mask: set<nat>, noCck: bool): set<nat> {
    if noCck then mask - CCK_BITS else mask
  }

  /** Those are the lowest four bits. */
  function Used(mask: set<nat>, noCck: bool): set<nat> {
    set i | i in mask && (noCck ==> i >= 4)
  }

  lemma AllowedAreUsed(mask: set<nat>, noCck: bool)
    ensures Allowed(mask, noCck) == Used(mask, noCck)
  {}

  /** What the parser keeps of the second element, if there is one. */
  function Extended(fields: Fields): seq<Byte> {
    if ExtSuppRates in fields then fields[ExtSuppRates] else []
  }

  /** atbmwifi_ieee80211_add_rate_ie_from_ap: at most eight rates in the first element and the
      others, if any bit is left, in the second. */
  method AddRateIe(table: seq<nat>, noCck: bool, mask: set<nat>, basicMask: set<nat>) returns (ie: seq<Byte>)
    requires ValidTable(table)
    ensures var fields := Collected(Listed(ie));
      && SuppRates in fields && |fields[SuppRates]| <= 8 && (|fields[SuppRates]| < 8 ==> ExtSuppRates !in fields)
      && fields[SuppRates] + Extended(fields) == RateBytes(table, Allowed(mask, noCck), basicMask, 0, |table|)
    ensures var fields, used := Collected(Listed(ie)), Below(Used(mask, noCck), |table|);
      var rates := fields[SuppRates] + Extended(fields);
      && |rates| == |used|
      && forall i :: i in used ==>
           |Below(used, i)| < |rates| && rates[|Below(used, i)|] == table[i] + if i in basicMask then 0x80 else 0
  {
    ie := WriteRates(table, noCck, mask, basicMask);
    RatesInPlace(table, noCck, mask, basicMask);
  }

  /** Where each rate of a mask is found. */
  lemma RatesInPlace(table: seq<nat>, noCck: bool, mask: set<nat>, basicMask: set<nat>)
    requires ValidTable(table)
    ensures var rates, used := RateBytes(table, Allowed(mask, noCck), basicMask, 0, |table|),
        Below(Used(mask, noCck), |table|);
      && |rates| == |used|
      && forall i :: i in used ==>
           |Below(used, i)| < |rates| && rates[|Below(used, i)|] == table[i] + if i in basicMask then 0x80 else 0
  {
    hide RateBytes, Allowed;
    var used := Below(Used(mask, noCck), |table|);
    AllowedAreUsed(mask, noCck);
    RateBytesAt(table, Allowed(mask, noCck), basicMask, |table|, 0);
    forall i | i in used
      ensures |Below(used, i)| < |used|
        && RateBytes(table, Allowed(mask, noCck), basicMask, 0, |table|)[|Below(used, i)|]
           == table[i] + if i in basicMask then 0x80 else 0
    {
      RateBytesAt(table, Allowed(mask, noCck), basicMask, |table|, i);
      assert Below(used, i) == Below(Used(mask, noCck), i);
    }
  }

  /** The two loops. */
  method WriteRates(table: seq<nat>, noCck: bool, mask: set<nat>, basicMask: set<nat>) returns (ie: seq<Byte>)
    requires ValidTable(table)
    ensures var fields := Collected(Listed(ie));
      && SuppRates in fields && |fields[SuppRates]| <= 8 && (|fields[SuppRates]| < 8 ==> ExtSuppRates !in fields)
      && fields[SuppRates] + Extended(fields) == RateBytes(table, Allowed(mask, noCck), basicMask, 0, |table|)
  {
    hide Collected, Listed, RateByte, Allowed;
    var allowed := Allowed(mask, noCck);
    var rates: seq<Byte> := [];
    var i := 0;
    while i < |table|
      invariant i <= |table| && rates == RateBytes(table, allowed, basicMask, 0, i) && |rates| < 8
    {
      if i in allowed {
        rates := rates + [RateByte(table, basicMask, i)];
        if |rates| == 8 {
          break;
        }
      }
      i := i + 1;
    }
    ie := [EID_SUPP_RATES, |rates|] + rates;
    if i == |table| {
      TwoElements(rates, None, ie);
      assert rates + [] == rates;
      return;
    }
    i := i + 1;
    RateBytesSplit(table, allowed, basicMask, 0, i, |table|);
    if forall j :: j in allowed ==> j < i {
      NoRates(table, allowed, basicMask, i, |table|);
      TwoElements(rates, None, ie);
      return;
    }
    var from := i;
    var more: seq<Byte> := [];
    while i < |table|
      invariant from <= i <= |table| && more == RateBytes(table, allowed, basicMask, from, i)
    {
      if i in allowed {
        more := more + [RateByte(table, basicMask, i)];
      }
      i := i + 1;
    }
    ie := ie + ([EID_EXT_SUPP_RATES, |more|] + more);
    TwoElements(rates, Some(more), ie);
  }

  /** Read back from the two fields: the mask restricted to the table, and its basic bits. */
  lemma RatesRoundTrip(table: seq<nat>, noCck: bool, mask: set<nat>, basicMask: set<nat>, fields: Fields)
    requires ValidTable(table) && SuppRates in fields
    requires fields[SuppRates] + Extended(fields) == RateBytes(table, Allowed(mask, noCck), basicMask, 0, |table|)
    ensures Read(table, Read(table, RateInfo({}, {}), fields[SuppRates]), Extended(fields))
            == RateInfo(Below(Used(mask, noCck), |table|), Below(Used(mask, noCck) * basicMask, |table|))
  {
    AllowedAreUsed(mask, noCck);
    ReadTwice(table, RateInfo({}, {}), fields[SuppRates], Extended(fields));
    ReadRateBytes(table, Allowed(mask, noCck), basicMask, |table|);
  }

  lemma TwoElements(first: seq<Byte>, second: Option<seq<Byte>>, ie: seq<Byte>)
    requires |first| <= 8 && (second.Some? ==> |second.value| < 256)
    requires ie == Bytes(Element(EID_SUPP_RATES, first))
      + if second.Some? then Bytes(Element(EID_EXT_SUPP_RATES, second.value)) else []
    ensures var fields := Collected(Listed(ie));
      Get(fields, SuppRates) == Some(first) && Get(fields, ExtSuppRates) == second
  {
    hide Listed, Bytes, Collected, Noted, VendorKind;
    var e1 := Element(EID_SUPP_RATES, first);
    var nothing: seq<Byte> := [];
    ListedEnd(nothing, 0);
    assert nothing[0..] == nothing;
    NothingCollected();
    CollectedLast([], e1);
    assert [] + [e1] == [e1];
    var m1 := Noted(map[], e1);
    NotedGet(map[], e1, SuppRates);
    NotedGet(map[], e1, ExtSuppRates);
    if second.Some? {
      var e2 := Element(EID_EXT_SUPP_RATES, second.value);
      ListedFirst(e1, Bytes(e2));
      ListedFirst(e2, nothing);
      assert Bytes(e2) + nothing == Bytes(e2) && [e2] + [] == [e2] && [e1] + [e2] == [e1, e2];
      CollectedLast([e1], e2);
      NotedGet(m1, e2, SuppRates);
      NotedGet(m1, e2, ExtSuppRates);
    } else {
      ListedFirst(e1, nothing);
      assert Bytes(e1) + nothing == Bytes(e1) && [e1] + [] == [e1];
    }
  }
}
