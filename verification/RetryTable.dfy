/** The packed table of a transmit retry policy: four bits of tries for each hardware rate. */
module RetryTable {
  import opened RetryOrder

  /** A value moved to the k-th four bits of a word. */
  function Shifted(r: bv32, k: nat): bv32
    requires k < 8
  {
    if k == 0 then r else if k == 1 then r << 4 else if k == 2 then r << 8 else if k == 3 then r << 12
    else if k == 4 then r << 16 else if k == 5 then r << 20 else if k == 6 then r << 24 else r << 28
  }

  /** And back. */
  function Raised(w: bv32, k: nat): bv32
    requires k < 8
  {
    if k == 0 then w else if k == 1 then w >> 4 else if k == 2 then w >> 8 else if k == 3 then w >> 12
    else if k == 4 then w >> 16 else if k == 5 then w >> 20 else if k == 6 then w >> 24 else w >> 28
  }

  /** The k-th four bits of a word, where they are. */
  function Field(w: bv32, k: nat): bv32
    requires k < 8
  {
    And(w, Shifted(0xF, k))
  }

  function Or(a: bv32, b: bv32): bv32 { a | b }

  function And(a: bv32, b: bv32): bv32 { a & b }

  lemma AndOr(w: bv32, s: bv32, m: bv32)
    ensures And(Or(w, s), m) == Or(And(w, m), And(s, m))
  {}

  lemma OrZero(a: bv32)
    ensures Or(a, 0) == a && Or(0, a) == a
  {}

  lemma OwnField(r: bv32, k: nat)
    requires k < 8 && r <= 15
    ensures Field(Shifted(r, k), k) == Shifted(r, k)
  {
    hide Raised;
  }

  lemma RaisedShifted(r: bv32, k: nat)
    requires k < 8 && r <= 15
    ensures Raised(Shifted(r, k), k) == r
  {}

  lemma OtherField(r: bv32, k: nat, j: nat)
    requires k < 8 && j < 8 && j != k && r <= 15
    ensures Field(Shifted(r, k), j) == 0
  {}

  function Low4(w: bv32): bv32 { w & 0xF }

  function Past4(w: bv32): bv32 { w >> 4 }

  /** The k-th four bits of a word, counted from the lowest. */
  function Nibble(w: bv32, k: nat): bv32 {
    if k == 0 then Low4(w) else Nibble(Past4(w), k - 1)
  }

  lemma FirstFields(w: bv32)
    ensures Raised(Field(w, 0), 0) == Low4(w) && Raised(Field(w, 1), 1) == Low4(Past4(w))
    ensures Raised(Field(w, 2), 2) == Low4(Past4(Past4(w))) && Raised(Field(w, 3), 3) == Low4(Past4(Past4(Past4(w))))
  {}

  /** Sixteen bits on. */
  function Past16(w: bv32): bv32 {
    Past4(Past4(Past4(Past4(w))))
  }

  lemma LastFields(w: bv32)
    ensures Raised(Field(w, 4), 4) == Low4(Past16(w)) && Raised(Field(w, 5), 5) == Low4(Past4(Past16(w)))
    ensures Raised(Field(w, 6), 6) == Low4(Past4(Past4(Past16(w))))
    ensures Raised(Field(w, 7), 7) == Low4(Past4(Past4(Past4(Past16(w)))))
  {}

  lemma Unrolled(w: bv32, k: nat)
    ensures Nibble(w, k + 4) == Nibble(Past16(w), k)
    ensures k == 0 ==> Nibble(w, k) == Low4(w)
    ensures k == 1 ==> Nibble(w, k) == Low4(Past4(w))
    ensures k == 2 ==> Nibble(w, k) == Low4(Past4(Past4(w)))
    ensures k == 3 ==> Nibble(w, k) == Low4(Past4(Past4(Past4(w))))
  {
    hide Low4, Past4;
    var w1, w2, w3 := Past4(w), Past4(Past4(w)), Past4(Past4(Past4(w)));
    assert Nibble(w, k + 4) == Nibble(w1, k + 3);
    assert Nibble(w1, k + 3) == Nibble(w2, k + 2);
    assert Nibble(w2, k + 2) == Nibble(w3, k + 1);
    if k >= 2 { assert Nibble(w1, k - 1) == Nibble(w2, k - 2); }
    if k >= 3 { assert Nibble(w2, k - 2) == Nibble(w3, k - 3); }
  }

  /** A field moved back to the bottom is the nibble it was. */
  lemma FieldIsNibble(w: bv32, k: nat)
    requires k < 8
    ensures Raised(Field(w, k), k) == Nibble(w, k)
  {
    hide Nibble, Low4, Past4, Past16, Raised, Field;
    if k < 4 {
      FirstFields(w);
      Unrolled(w, k);
    } else {
      LastFields(w);
      Unrolled(w, k - 4);
      Unrolled(Past16(w), k - 4);
    }
  }

  /** Three words hold four bits for each of 24 hardware rates. */
  const HW_RATES: nat := 24

  type Table = t: seq<bv32> | |t| == 3 witness [0, 0, 0]

  function FieldAt(tbl: Table, h: nat): bv32
    requires h < HW_RATES
  {
    Field(tbl[h / 8], h % 8)
  }

  /** What the table says of a hardware rate: eight of them share a word, the first one in its lowest
      four bits. */
  function Decoded(tbl: Table, h: nat): bv32
    requires h < HW_RATES
  {
    Nibble(tbl[h / 8], h % 8)
  }

  lemma DecodedField(tbl: Table, h: nat)
    requires h < HW_RATES
    ensures Decoded(tbl, h) == Raised(FieldAt(tbl, h), h % 8)
  {
    hide Raised, Field, Nibble;
    FieldIsNibble(tbl[h / 8], h % 8);
  }

  function Packed(tbl: Table, h: nat, r: bv32): Table
    requires h < HW_RATES
  {
    tbl[h / 8 := Or(tbl[h / 8], Shifted(r, h % 8))]
  }

  lemma PackedField(tbl: Table, h: nat, r: bv32, x: nat)
    requires h < HW_RATES && x < HW_RATES && r <= 15
    ensures FieldAt(Packed(tbl, h, r), x) == if x == h then Or(FieldAt(tbl, x), Shifted(r, h % 8)) else FieldAt(tbl, x)
  {
    hide Field, Shifted, Or;
    if x / 8 == h / 8 {
      var w, k := tbl[h / 8], h % 8;
      OrOfField(w, Shifted(r, k), x % 8);
      OrZero(Field(w, x % 8));
      if x == h { OwnField(r, k); } else { OtherField(r, k, x % 8); }
    }
  }

  lemma OrOfField(w: bv32, s: bv32, j: nat)
    requires j < 8
    ensures Field(Or(w, s), j) == Or(Field(w, j), Field(s, j))
  {
    hide And, Or, Shifted;
    AndOr(w, s, Shifted(0xF, j));
  }

  /** atbm_get_tx_hwrate. */
  function HwRate(r: Rate, legacy: seq<nat>, ht: seq<nat>): (h: nat)
    requires InTables(r, legacy, ht)
    ensures h < HW_RATES
    ensures r.idx < 0 ==> h == 0
  {
    if r.idx < 0 then 0 else if r.mcs then ht[r.idx] else legacy[r.idx]
  }

  predicate InTables(r: Rate, legacy: seq<nat>, ht: seq<nat>) {
    r.idx < 0 || (if r.mcs then r.idx < |ht| && ht[r.idx] < HW_RATES else r.idx < |legacy| && legacy[r.idx] < HW_RATES)
  }

  ghost predicate AllInTables(s: seq<Rate>, legacy: seq<nat>, ht: seq<nat>) {
    forall i :: 0 <= i < |s| ==> InTables(s[i], legacy, ht)
  }

  function Capped(c: Tries): (r: Tries)
    ensures r <= 15
  {
    if c > 0x0F then 0x0F else c
  }

  function AllCapped(s: seq<Rate>): (r: seq<Rate>)
    ensures |r| == |s|
  {
    if s == [] then [] else AllCapped(s[..|s| - 1]) + [s[|s| - 1].(count := Capped(s[|s| - 1].count))]
  }

  /** The table for a list of rates. */
  function Fill(s: seq<Rate>, legacy: seq<nat>, ht: seq<nat>): Table
    requires AllInTables(s, legacy, ht)
  {
    if s == [] then [0, 0, 0]
    else
      var x := s[|s| - 1];
      Packed(Fill(s[..|s| - 1], legacy, ht), HwRate(x, legacy, ht), Capped(x.count) as bv32)
  }

  ghost predicate NoneAt(s: seq<Rate>, legacy: seq<nat>, ht: seq<nat>, h: nat)
    requires AllInTables(s, legacy, ht)
  {
    forall i :: 0 <= i < |s| ==> HwRate(s[i], legacy, ht) != h
  }

  lemma BlankField(legacy: seq<nat>, ht: seq<nat>, h: nat)
    requires h < HW_RATES
    ensures FieldAt(Fill([], legacy, ht), h) == 0
  {
    hide Shifted;
  }

  lemma RaisedZero(k: nat)
    requires k < 8
    ensures Raised(0, k) == 0
  {}

  lemma SmallWord(c: Tries)
    ensures (Capped(c) as bv32) <= 15
  {}

  lemma FillLast(s: seq<Rate>, legacy: seq<nat>, ht: seq<nat>, h: nat)
    requires s != [] && AllInTables(s, legacy, ht) && h < HW_RATES
    ensures var t, x := s[..|s| - 1], s[|s| - 1];
      FieldAt(Fill(s, legacy, ht), h)
      == if HwRate(x, legacy, ht) == h then Or(FieldAt(Fill(t, legacy, ht), h), Shifted(Capped(x.count) as bv32, h % 8))
         else FieldAt(Fill(t, legacy, ht), h)
  {
    hide FieldAt, Packed, HwRate, Capped, Or, Shifted;
    var t, x := s[..|s| - 1], s[|s| - 1];
    SmallWord(x.count);
    PackedField(Fill(t, legacy, ht), HwRate(x, legacy, ht), Capped(x.count) as bv32, h);
  }

  lemma {:induction false} FillElsewhere(s: seq<Rate>, legacy: seq<nat>, ht: seq<nat>, h: nat)
    requires AllInTables(s, legacy, ht) && h < HW_RATES && NoneAt(s, legacy, ht, h)
    ensures FieldAt(Fill(s, legacy, ht), h) == 0 && Decoded(Fill(s, legacy, ht), h) == 0
  {
    hide FieldAt, Fill, HwRate, Or, Shifted, Raised, Decoded;
    RaisedZero(h % 8);
    DecodedField(Fill(s, legacy, ht), h);
    if s == [] {
      BlankField(legacy, ht, h);
    } else {
      var t := s[..|s| - 1];
      FillElsewhere(t, legacy, ht, h);
      FillLast(s, legacy, ht, h);
    }
  }

  lemma {:induction false} FillFieldAt(s: seq<Rate>, legacy: seq<nat>, ht: seq<nat>, i: nat)
    requires AllInTables(s, legacy, ht) && i < |s|
    requires NoneAt(s[..i], legacy, ht, HwRate(s[i], legacy, ht))
      && NoneAt(s[i + 1..], legacy, ht, HwRate(s[i], legacy, ht))
    ensures var h := HwRate(s[i], legacy, ht);
      FieldAt(Fill(s, legacy, ht), h) == Shifted(Capped(s[i].count) as bv32, h % 8)
  {
    hide FieldAt, Fill, HwRate, Capped, Or, Shifted, InTables;
    var t, h := s[..|s| - 1], HwRate(s[i], legacy, ht);
    FillLast(s, legacy, ht, h);
    if i == |t| {
      FillElsewhere(t, legacy, ht, h);
      OrZero(Shifted(Capped(s[i].count) as bv32, h % 8));
    } else {
      assert t[..i] == s[..i] && t[i + 1..] == s[i + 1..][..|t| - i - 1];
      assert s[i + 1..][|t| - i - 1] == s[|t|];
      FillFieldAt(t, legacy, ht, i);
    }
  }

  /** The table decodes to the tries of a rate that shares its place with no other. */
  lemma FillAt(s: seq<Rate>, legacy: seq<nat>, ht: seq<nat>, i: nat)
    requires AllInTables(s, legacy, ht) && i < |s|
    requires NoneAt(s[..i], legacy, ht, HwRate(s[i], legacy, ht))
      && NoneAt(s[i + 1..], legacy, ht, HwRate(s[i], legacy, ht))
    ensures Decoded(Fill(s, legacy, ht), HwRate(s[i], legacy, ht)) == Capped(s[i].count) as bv32
  {
    hide FieldAt, Fill, HwRate, Capped, Shifted, Raised, Decoded;
    FillFieldAt(s, legacy, ht, i);
    DecodedField(Fill(s, legacy, ht), HwRate(s[i], legacy, ht));
    SmallWord(s[i].count);
    RaisedShifted(Capped(s[i].count) as bv32, HwRate(s[i], legacy, ht) % 8);
  }

  /** The two tables repeat no hardware rate, in themselves or of each other. */
  ghost predicate Apart(legacy: seq<nat>, ht: seq<nat>) {
    && (forall i, j :: 0 <= i < j < |legacy| ==> legacy[i] != legacy[j])
    && (forall i, j :: 0 <= i < j < |ht| ==> ht[i] != ht[j])
    && (forall i, j :: 0 <= i < |legacy| && 0 <= j < |ht| ==> legacy[i] != ht[j])
  }

  /** No rate has a negative index, which the driver only warns of and sends as hardware rate 0. */
  predicate AllIndexed(s: seq<Rate>) {
    forall i :: 0 <= i < |s| ==> s[i].idx >= 0
  }

  /** Strictly descending rates of either band share no place: the packed table decodes to each
      rate's tries, capped at fifteen, and to nothing elsewhere. */
  lemma TableDecodes(s: seq<Rate>, legacy: seq<nat>, ht: seq<nat>, h: nat)
    requires AllInTables(s, legacy, ht) && StrictlyDescending(s) && AllIndexed(s) && Apart(legacy, ht) && h < HW_RATES
    ensures forall i :: 0 <= i < |s| && HwRate(s[i], legacy, ht) == h ==>
      Decoded(Fill(s, legacy, ht), h) == Capped(s[i].count) as bv32
    ensures NoneAt(s, legacy, ht, h) ==> Decoded(Fill(s, legacy, ht), h) == 0
  {
    hide Decoded, Fill, Capped;
    if NoneAt(s, legacy, ht, h) {
      FillElsewhere(s, legacy, ht, h);
    }
    forall i | 0 <= i < |s| && HwRate(s[i], legacy, ht) == h
      ensures Decoded(Fill(s, legacy, ht), h) == Capped(s[i].count) as bv32
    {
      PlaceApart(s, legacy, ht, i);
      FillAt(s, legacy, ht, i);
    }
  }

  lemma PlaceApart(s: seq<Rate>, legacy: seq<nat>, ht: seq<nat>, i: nat)
    requires AllInTables(s, legacy, ht) && StrictlyDescending(s) && AllIndexed(s) && Apart(legacy, ht) && i < |s|
    ensures NoneAt(s[..i], legacy, ht, HwRate(s[i], legacy, ht))
      && NoneAt(s[i + 1..], legacy, ht, HwRate(s[i], legacy, ht))
  {
    forall j | 0 <= j < |s| && j != i ensures HwRate(s[j], legacy, ht) != HwRate(s[i], legacy, ht) {
      if j < i { StrictlyApart(s, j, i); } else { StrictlyApart(s, i, j); }
      RatesApart(s[i], s[j], legacy, ht);
    }
  }

  lemma RatesApart(a: Rate, b: Rate, legacy: seq<nat>, ht: seq<nat>)
    requires InTables(a, legacy, ht) && InTables(b, legacy, ht) && Apart(legacy, ht)
    requires a.idx >= 0 && b.idx >= 0 && a.idx != b.idx
    ensures HwRate(a, legacy, ht) != HwRate(b, legacy, ht)
  {}

  // ---------------------------------------------------------------- the policy's rates have places

  lemma ExchangeOneInTables(r: seq<Rate>, x: Rate, legacy: seq<nat>, ht: seq<nat>)
    requires r != [] && AllInTables(r, legacy, ht) && InTables(x, legacy, ht)
    ensures AllInTables(ExchangeOne(r, x), legacy, ht) && AllInTables(MergeOne(r, x), legacy, ht)
    ensures AllIndexed(r) && x.idx >= 0 ==> AllIndexed(ExchangeOne(r, x)) && AllIndexed(MergeOne(r, x))
  {
    hide InTables;
    var last := r[|r| - 1];
    assert InTables(last, legacy, ht);
    SameTables(last, AddTries(last.count, x.count), legacy, ht);
  }

  /** A rate's place in the tables does not depend on its count. */
  lemma SameTables(r: Rate, c: Tries, legacy: seq<nat>, ht: seq<nat>)
    ensures InTables(r.(count := c), legacy, ht) == InTables(r, legacy, ht)
  {}

  lemma {:induction false} PassesInTables(s: seq<Rate>, legacy: seq<nat>, ht: seq<nat>)
    requires s != [] && AllInTables(s, legacy, ht)
    ensures AllInTables(Exchanged(s), legacy, ht) && AllInTables(Merged(s), legacy, ht)
    ensures AllIndexed(s) ==> AllIndexed(Exchanged(s)) && AllIndexed(Merged(s))
  {
    hide InTables, ExchangeOne, MergeOne;
    if |s| > 1 {
      var t, x := s[..|s| - 1], s[|s| - 1];
      PassesInTables(t, legacy, ht);
      ExchangeOneInTables(Exchanged(t), x, legacy, ht);
      ExchangeOneInTables(Merged(t), x, legacy, ht);
    }
  }

  lemma {:induction false} CutInTables(s: seq<Rate>, limit: nat, legacy: seq<nat>, ht: seq<nat>)
    requires limit >= |s| && AllInTables(s, legacy, ht)
    ensures AllInTables(CutTo(s, limit), legacy, ht)
    ensures AllIndexed(s) ==> AllIndexed(CutTo(s, limit))
  {
    hide InTables;
    if s != [] {
      var left := |s| - 1;
      var c: Tries := if s[0].count > limit - left then limit - left else s[0].count;
      SameTables(s[0], c, legacy, ht);
      CutInTables(s[1..], limit - c, legacy, ht);
    }
  }

  lemma PolicyInTables(asked: seq<Rate>, limit: nat, legacy: seq<nat>, ht: seq<nat>)
    requires asked != [] && AllInTables(asked, legacy, ht)
    ensures AllInTables(Policy(asked, limit), legacy, ht)
    ensures AllIndexed(asked) ==> AllIndexed(Policy(asked, limit))
  {
    hide Exchanged, Merged, CutTo, InTables, Run, Total;
    PassesInTables(asked, legacy, ht);
    PassesInTables(Taken(asked), legacy, ht);
    CutInTables(Merged(Taken(asked)), Max(limit, |Merged(Taken(asked))|), legacy, ht);
  }

  /** The tries of a rate as four bits hold them. */
  function FourBits(c: Tries): bv32 {
    if c < 15 then c as bv32 else 15
  }

  /** The hardware rate of an index is the band's own. */
  function Place(r: Rate, legacy: seq<nat>, ht: seq<nat>): nat
    requires 0 <= r.idx < if r.mcs then |ht| else |legacy|
  {
    if r.mcs then ht[r.idx] else legacy[r.idx]
  }

  ghost predicate AllPlaced(s: seq<Rate>, legacy: seq<nat>, ht: seq<nat>) {
    forall i :: 0 <= i < |s| ==> 0 <= s[i].idx < if s[i].mcs then |ht| else |legacy|
  }

  lemma PlacedRates(s: seq<Rate>, legacy: seq<nat>, ht: seq<nat>)
    requires AllInTables(s, legacy, ht) && AllIndexed(s)
    ensures AllPlaced(s, legacy, ht)
    ensures forall i :: 0 <= i < |s| ==> HwRate(s[i], legacy, ht) == Place(s[i], legacy, ht)
    ensures forall c: Tries :: (Capped(c) as bv32) == FourBits(c)
  {
    forall i | 0 <= i < |s|
      ensures 0 <= s[i].idx < if s[i].mcs then |ht| else |legacy|
      ensures HwRate(s[i], legacy, ht) == Place(s[i], legacy, ht)
    {
      assert InTables(s[i], legacy, ht);
    }
  }

  /** Whatever is asked for, the table of the policy decodes to its rates' tries, capped at fifteen,
      and to nothing elsewhere. */
  lemma PolicyDecodes(asked: seq<Rate>, limit: nat, legacy: seq<nat>, ht: seq<nat>, h: nat)
    requires asked != [] && AllInTables(asked, legacy, ht) && AllIndexed(asked) && Apart(legacy, ht) && h < HW_RATES
    ensures var p := Policy(asked, limit);
      && AllInTables(p, legacy, ht) && AllPlaced(p, legacy, ht)
      && (forall i :: 0 <= i < |p| && Place(p[i], legacy, ht) == h ==>
            Nibble(Fill(p, legacy, ht)[h / 8], h % 8) == FourBits(p[i].count))
      && ((forall i :: 0 <= i < |p| ==> Place(p[i], legacy, ht) != h) ==>
            Nibble(Fill(p, legacy, ht)[h / 8], h % 8) == 0)
  {
    hide Policy, Fill, Capped, HwRate, InTables, Nibble, FourBits, Place, AllPlaced, AllIndexed;
    PolicyInTables(asked, limit, legacy, ht);
    PolicyDescends(asked, limit);
    PlacedRates(Policy(asked, limit), legacy, ht);
    TableDecodes(Policy(asked, limit), legacy, ht, h);
  }
}
