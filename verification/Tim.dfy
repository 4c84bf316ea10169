/** The traffic indication map of net/atbm_mgmt.c: which power-saving stations have frames
    waiting, and the element of section 8.4.2.7 of IEEE 802.11-2012 that tells them. */
module Tim {
  // ---------------------------------------------------------------- the bitmap

  function Mask(k: nat): bv8
    requires k < 8
  {
    if k == 0 then 1 else if k == 1 then 2 else if k == 2 then 4 else if k == 3 then 8
    else if k == 4 then 16 else if k == 5 then 32 else if k == 6 then 64 else 128
  }

  predicate Bit(b: bv8, k: nat)
    requires k < 8
  {
    b & Mask(k) != 0
  }

  /** Two to the power k. */
  function Power(k: nat): (n: int)
    ensures n > 0
  {
    if k == 0 then 1 else 2 * Power(k - 1)
  }

  /** The k-th binary digit of an octet, read as a number. */
  predicate Digit(b: bv8, k: nat) {
    (b as int / Power(k)) % 2 == 1
  }

  lemma Powers()
    ensures Power(0) == 1 && Power(1) == 2 && Power(2) == 4 && Power(3) == 8
    ensures Power(4) == 16 && Power(5) == 32 && Power(6) == 64 && Power(7) == 128
  {
    assert Power(3) == 8;
    assert Power(6) == 64;
  }

  lemma FirstMask(b: bv8)
    ensures b & 1 != 0 <==> (b as int / 1) % 2 == 1
  {}

  lemma SecondMask(b: bv8)
    ensures b & 2 != 0 <==> (b as int / 2) % 2 == 1
  {}

  lemma ThirdMask(b: bv8)
    ensures b & 4 != 0 <==> (b as int / 4) % 2 == 1
  {}

  lemma FourthMask(b: bv8)
    ensures b & 8 != 0 <==> (b as int / 8) % 2 == 1
  {}

  lemma HighMasks(b: bv8)
    ensures b & 16 != 0 <==> (b as int / 16) % 2 == 1
    ensures b & 32 != 0 <==> (b as int / 32) % 2 == 1
    ensures b & 64 != 0 <==> (b as int / 64) % 2 == 1
    ensures b & 128 != 0 <==> (b as int / 128) % 2 == 1
  {}

  /** The masks test the binary digits. */
  lemma BitIsDigit(b: bv8, k: nat)
    requires k < 8
    ensures Bit(b, k) <==> Digit(b, k)
  {
    hide Power;
    Powers();
    FirstMask(b);
    SecondMask(b);
    ThirdMask(b);
    FourthMask(b);
    HighMasks(b);
  }

  predicate OneBit(m: bv8) {
    m == 1 || m == 2 || m == 4 || m == 8 || m == 16 || m == 32 || m == 64 || m == 128
  }

  lemma BitAdded(b: bv8, m: bv8)
    requires OneBit(m)
    ensures (b | m) as int == b as int + if b & m != 0 then 0 else m as int
  {}

  lemma BitTaken(b: bv8, m: bv8)
    requires OneBit(m)
    ensures (b & !m) as int == b as int - if b & m != 0 then m as int else 0
  {}

  lemma MaskIsOneBit(k: nat)
    requires k < 8
    ensures OneBit(Mask(k))
  {}

  lemma MaskIsPower(k: nat)
    requires k < 8
    ensures Mask(k) as int == Power(k)
  {
    Powers();
  }

  /** Whether the bit of an association identifier is set: its octet, divided by two to the power
      aid % 8, is odd. */
  predicate Has(m: seq<bv8>, aid: nat) {
    aid / 8 < |m| && Digit(m[aid / 8], aid % 8)
  }

  function Put(b: bv8, k: nat, waiting: bool): bv8
    requires k < 8
  {
    if waiting then b | Mask(k) else b & !Mask(k)
  }

  lemma PutBit(b: bv8, k: nat, waiting: bool, j: nat)
    requires k < 8 && j < 8
    ensures Bit(Put(b, k, waiting), j) == if j == k then waiting else Bit(b, j)
  {}

  lemma PutSame(b: bv8, k: nat, waiting: bool)
    requires k < 8 && Bit(b, k) == waiting
    ensures Put(b, k, waiting) == b
  {}

  /** A bit is set or cleared and no other changes. */
  lemma PutDigit(b: bv8, k: nat, waiting: bool, j: nat)
    requires k < 8 && j < 8
    ensures Digit(Put(b, k, waiting), j) == if j == k then waiting else Digit(b, j)
  {
    hide Bit, Put, Digit;
    PutBit(b, k, waiting, j);
    BitIsDigit(b, j);
    BitIsDigit(Put(b, k, waiting), j);
  }

  lemma PutAdds(b: bv8, k: nat)
    requires k < 8 && !Bit(b, k)
    ensures Put(b, k, true) as int == b as int + Mask(k) as int
  {
    hide Mask, OneBit;
    MaskIsOneBit(k);
    BitAdded(b, Mask(k));
  }

  lemma PutTakes(b: bv8, k: nat)
    requires k < 8 && Bit(b, k)
    ensures Put(b, k, false) as int == b as int - Mask(k) as int
  {
    hide Mask, OneBit;
    MaskIsOneBit(k);
    BitTaken(b, Mask(k));
  }

  /** Setting a bit that is clear adds its power of two, clearing one that is set takes it away. */
  lemma PutNumber(b: bv8, k: nat, waiting: bool)
    requires k < 8
    ensures Digit(b, k) == waiting ==> Put(b, k, waiting) == b
    ensures Digit(b, k) != waiting ==>
      Put(b, k, waiting) as int == b as int + if waiting then Power(k) else -Power(k)
  {
    hide Digit, Mask, Put, Bit;
    BitIsDigit(b, k);
    MaskIsPower(k);
    if Bit(b, k) == waiting {
      PutSame(b, k, waiting);
    } else if waiting {
      PutAdds(b, k);
    } else {
      PutTakes(b, k);
    }
  }

  /** The bitmap with one station's bit set or cleared. */
  function Marked(m: seq<bv8>, aid: nat, waiting: bool): (r: seq<bv8>)
    requires aid / 8 < |m|
    ensures |r| == |m|
  {
    m[aid / 8 := Put(m[aid / 8], aid % 8, waiting)]
  }

  /** A mark changes its own station and no other, and nothing when it says what is so already. */
  lemma MarkedHas(m: seq<bv8>, aid: nat, waiting: bool, x: nat)
    requires aid / 8 < |m|
    ensures Has(Marked(m, aid, waiting), x) == if x == aid then waiting else Has(m, x)
    ensures Has(m, aid) == waiting ==> Marked(m, aid, waiting) == m
  {
    hide Digit, Put;
    var i, k := aid / 8, aid % 8;
    if x / 8 == i { PutDigit(m[i], k, waiting, x % 8); }
    PutDigit(m[i], k, waiting, k);
    PutNumber(m[i], k, waiting);
  }

  /** The octets after a mark, as numbers. */
  lemma MarkedOctets(m: seq<bv8>, aid: nat, waiting: bool)
    requires aid / 8 < |m|
    ensures var r := Marked(m, aid, waiting);
      && (Has(m, aid) != waiting ==>
            r[aid / 8] as int == m[aid / 8] as int + if waiting then Power(aid % 8) else -Power(aid % 8))
      && forall i :: 0 <= i < |m| && i != aid / 8 ==> r[i] == m[i]
  {
    hide Digit, Put;
    PutNumber(m[aid / 8], aid % 8, waiting);
  }

  /** How many of the first n identifiers have their bit set. */
  function Count(m: seq<bv8>, n: nat): nat {
    if n == 0 then 0 else Count(m, n - 1) + if Has(m, n - 1) then 1 else 0
  }

  lemma {:induction false} MarkedCount(m: seq<bv8>, aid: nat, waiting: bool, n: nat)
    requires aid / 8 < |m| && Has(m, aid) != waiting
    ensures Count(Marked(m, aid, waiting), n) == Count(m, n) + if aid < n then (if waiting then 1 else -1) else 0
  {
    hide Has, Marked;
    if n > 0 {
      MarkedCount(m, aid, waiting, n - 1);
      MarkedHas(m, aid, waiting, n - 1);
    }
  }

  lemma {:induction false} CountZeroIff(m: seq<bv8>, n: nat)
    ensures Count(m, n) == 0 <==> forall x :: 0 <= x < n ==> !Has(m, x)
  {
    if n > 0 { CountZeroIff(m, n - 1); }
  }

  lemma NonzeroBits(b: bv8)
    requires !Bit(b, 0) && !Bit(b, 1) && !Bit(b, 2) && !Bit(b, 3) && !Bit(b, 4) && !Bit(b, 5) && !Bit(b, 6)
      && !Bit(b, 7)
    ensures b == 0
  {}

  lemma NonzeroByte(b: bv8)
    ensures b != 0 <==> exists k :: 0 <= k < 8 && Digit(b, k)
  {
    hide Bit, Digit;
    forall k: nat | k < 8 ensures Bit(b, k) <==> Digit(b, k) {
      BitIsDigit(b, k);
    }
    if b != 0 && forall k :: 0 <= k < 8 ==> !Digit(b, k) {
      NonzeroBits(b);
    }
    if b == 0 { ZeroByte(); }
  }

  lemma ZeroByte()
    ensures forall k: nat :: !Digit(0, k)
  {}

  /** No station waits if and only if every byte is zero. */
  lemma CountZeroBytes(m: seq<bv8>)
    ensures Count(m, 8 * |m|) == 0 <==> forall i :: 0 <= i < |m| ==> m[i] == 0
  {
    hide Digit;
    CountZeroIff(m, 8 * |m|);
    ZeroByte();
    if i :| 0 <= i < |m| && m[i] != 0 {
      NonzeroByte(m[i]);
      var k :| 0 <= k < 8 && Digit(m[i], k);
      assert Has(m, 8 * i + k);
    }
  }

  // ---------------------------------------------------------------- the element

  /** The fields of the element: its length, the DTIM count and period, the bitmap control field
      and the partial virtual bitmap. */
  datatype Element = Element(length: nat, dtimCount: nat, dtimPeriod: nat, control: nat, bitmap: seq<bv8>)

  /** How a station reads it: bits 1 to 7 of the control field give the first octet, an even one. */
  predicate Indicates(e: Element, aid: nat) {
    var first := e.control - e.control % 2;
    first <= aid / 8 < first + |e.bitmap| && Digit(e.bitmap[aid / 8 - first], aid % 8)
  }

  predicate IndicatesGroup(e: Element) { e.control % 2 == 1 }

  /** A stretch of the bitmap that leaves only zero bytes out. */
  ghost predicate Covers(m: seq<bv8>, off: nat, len: nat) {
    off + len <= |m| && forall i :: 0 <= i < |m| && m[i] != 0 ==> off <= i < off + len
  }

  /** Reading a covering stretch gives back the whole bitmap. */
  lemma CoverIsRead(m: seq<bv8>, off: nat, len: nat, e: Element, aid: nat)
    requires Covers(m, off, len) && off % 2 == 0
    requires e.bitmap == m[off..off + len] && e.control - e.control % 2 == off
    ensures Indicates(e, aid) <==> Has(m, aid)
  {
    hide Digit;
    ZeroByte();
    if aid / 8 < |m| {
      var b := m[aid / 8];
      if off <= aid / 8 < off + len {
        assert e.bitmap[aid / 8 - off] == b;
      } else {
        assert b == 0;
      }
    }
  }

  // ---------------------------------------------------------------- the interface

  class StationMap {
    const maxStations: nat
    const bitmap: array<bv8>
    var pending: int

    /** The counter is the number of set bits; the map has room for every station. */
    ghost predicate Valid()
      reads this, bitmap
    {
      bitmap.Length == maxStations / 8 + 2 && pending == Count(bitmap[..], 8 * bitmap.Length)
    }

    constructor (maxStations: nat)
      ensures Valid() && this.maxStations == maxStations && fresh(bitmap)
      ensures forall aid :: 0 <= aid < 8 * bitmap.Length ==> !Has(bitmap[..], aid)
    {
      this.maxStations := maxStations;
      bitmap := new bv8[maxStations / 8 + 2](_ => 0);
      pending := 0;
      new;
      CountZeroBytes(bitmap[..]);
      CountZeroIff(bitmap[..], 8 * bitmap.Length);
    }

    /** atbmwifi_set_tim: the station's bit becomes `waiting`; the result says whether it was not
        so before. An identifier that is no station's changes nothing. */
    method SetTim(aid: nat, waiting: bool) returns (changed: bool)
      requires Valid()
      modifies this, bitmap
      ensures Valid()
      ensures bitmap[..] == if 1 <= aid <= maxStations then Marked(old(bitmap[..]), aid, waiting) else old(bitmap[..])
      ensures changed <==> 1 <= aid <= maxStations && Has(old(bitmap[..]), aid) != waiting
      ensures changed ==>
        bitmap[aid / 8] as int
        == old(bitmap[aid / 8]) as int + if waiting then Power(aid % 8) else -Power(aid % 8)
      ensures forall i :: 0 <= i < bitmap.Length && !(changed && i == aid / 8) ==> bitmap[i] == old(bitmap[i])
    {
      if aid == 0 || aid > maxStations {
        return false;
      }
      hide Bit, Digit, Count, Marked;
      ghost var m := bitmap[..];
      MarkedHas(m, aid, waiting, aid);
      MarkedOctets(m, aid, waiting);
      BitIsDigit(bitmap[aid / 8], aid % 8);
      if waiting == Bit(bitmap[aid / 8], aid % 8) {
        return false;
      }
      MarkedCount(m, aid, waiting, 8 * |m|);
      if waiting {
        SetBit(aid);
        pending := pending + 1;
      } else {
        ClearBit(aid);
        pending := pending - 1;
      }
      return true;
    }

    method SetBit(aid: nat)
      requires aid / 8 < bitmap.Length
      modifies bitmap
      ensures bitmap[..] == Marked(old(bitmap[..]), aid, true)
    {
      hide Mask;
      bitmap[aid / 8] := bitmap[aid / 8] | Mask(aid % 8);
    }

    method ClearBit(aid: nat)
      requires aid / 8 < bitmap.Length
      modifies bitmap
      ensures bitmap[..] == Marked(old(bitmap[..]), aid, false)
    {
      hide Mask;
      bitmap[aid / 8] := bitmap[aid / 8] & !Mask(aid % 8);
    }

    /** The two scans of atbmwifi_add_tim. The second one counts an unsigned index down and stops
        only at a byte that is not zero; that there is one is what the counter promises. */
    method Scan() returns (timoff: nat, last: nat)
      requires Valid() && pending != 0 && bitmap.Length <= 256
      ensures timoff % 2 == 0 && timoff <= last < bitmap.Length
      ensures bitmap[last] != 0 && (bitmap[timoff] != 0 || (timoff + 1 <= last && bitmap[timoff + 1] != 0))
      ensures Covers(bitmap[..], timoff, last + 1 - timoff)
    {
      hide Has, Count;
      CountZeroBytes(bitmap[..]);
      timoff := bitmap.Length;
      var i := 0;
      while i < bitmap.Length
        invariant i <= bitmap.Length && forall j :: 0 <= j < i ==> bitmap[j] == 0
      {
        if bitmap[i] != 0 {
          timoff := i - i % 2;
          break;
        }
        i := i + 1;
      }
      ghost var first := i;
      i := bitmap.Length - 1;
      while i >= timoff
        invariant first <= i < bitmap.Length
        invariant forall j :: i < j < bitmap.Length ==> bitmap[j] == 0
      {
        if bitmap[i] != 0 {
          break;
        }
        i := (i + 255) % 256;
      }
      last := i;
    }

    /** atbmwifi_add_tim: every station, and none besides, finds itself indicated as the map says. */
    method AddTim(mcast: bool, dtimPeriod: nat) returns (e: Element)
      requires Valid() && bitmap.Length <= 251
      ensures forall aid :: Indicates(e, aid) <==> Has(bitmap[..], aid)
      ensures IndicatesGroup(e) <==> mcast
      ensures e.length == 3 + |e.bitmap| && 4 <= e.length < 256 && e.control < 256
      ensures e.dtimCount == 0 && e.dtimPeriod == dtimPeriod
      ensures |e.bitmap| > 1 ==> e.bitmap[|e.bitmap| - 1] != 0 && (e.bitmap[0] != 0 || e.bitmap[1] != 0)
    {
      hide Has, Indicates, Count;
      var timoff, timlen := 0, 1;
      if pending != 0 {
        var last;
        timoff, last := Scan();
        timlen := 1 + (last - timoff);
      } else {
        CountZeroBytes(bitmap[..]);
      }
      var control := if mcast then timoff + 1 else timoff;
      e := Element(3 + timlen, 0, dtimPeriod, control, bitmap[timoff..timoff + timlen]);
      forall aid ensures Indicates(e, aid) <==> Has(bitmap[..], aid) {
        CoverIsRead(bitmap[..], timoff, timlen, e, aid);
      }
    }
  }

  // ---------------------------------------------------------------- runs

  datatype Call = Call(aid: nat, waiting: bool)

  /** The map after a history of calls. */
  function Replay(m: seq<bv8>, maxStations: nat, calls: seq<Call>): (r: seq<bv8>)
    requires |m| == maxStations / 8 + 2
    ensures |r| == |m|
  {
    if calls == [] then m
    else
      var before, c := Replay(m, maxStations, calls[..|calls| - 1]), calls[|calls| - 1];
      if 1 <= c.aid <= maxStations then Marked(before, c.aid, c.waiting) else before
  }

  /** What the last call about a station said. */
  predicate Waiting(calls: seq<Call>, aid: nat) {
    calls != []
    && var c := calls[|calls| - 1]; if c.aid == aid then c.waiting else Waiting(calls[..|calls| - 1], aid)
  }

  /** After any history the map tells of every station exactly what the last call about it said. */
  lemma {:induction false} MapTellsLastCall(m: seq<bv8>, maxStations: nat, calls: seq<Call>, aid: nat)
    requires |m| == maxStations / 8 + 2 && 1 <= aid <= maxStations && !Has(m, aid)
    ensures Has(Replay(m, maxStations, calls), aid) <==> Waiting(calls, aid)
  {
    if calls != [] {
      var before, c := Replay(m, maxStations, calls[..|calls| - 1]), calls[|calls| - 1];
      MapTellsLastCall(m, maxStations, calls[..|calls| - 1], aid);
      if 1 <= c.aid <= maxStations { MarkedHas(before, c.aid, c.waiting, aid); }
    }
  }
}
