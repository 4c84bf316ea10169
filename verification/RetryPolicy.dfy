/** Construction of a transmit retry policy in place (atbm_tx_policy_build of
    net/atbm_rc80211_minstrel_ht.c). */
module RetryPolicy {
  import opened RetryOrder
  import opened RetryTable

  /** The pass over the array; it stops at the first rate that is not one. */
  method Exchange(rates: array<Rate>, count: nat) returns (n: nat)
    requires 1 <= count <= rates.Length
    modifies rates
    ensures 1 <= n <= count && (n < count ==> old(rates[n]).idx < 0)
    ensures forall i :: 1 <= i < n ==> old(rates[i]).idx >= 0
    ensures rates[..n] == Exchanged(old(rates[..n])) && rates[n..] == old(rates[n..])
  {
    hide Exchanged;
    ghost var s := rates[..];
    n := 1;
    FirstExchanged(s);
    while n < count
      invariant 1 <= n <= count && forall i :: 1 <= i < n ==> s[i].idx >= 0
      invariant rates[..n] == Exchanged(s[..n]) && forall k :: n <= k < rates.Length ==> rates[k] == s[k]
    {
      if rates[n].idx < 0 {
        break;
      }
      ghost var r, x := rates[..n], rates[n];
      NextExchanged(s, n);
      if rates[n].idx > rates[n - 1].idx {
        var tmp := rates[n - 1];
        rates[n - 1] := rates[n];
        rates[n] := tmp;
      }
      assert rates[..n + 1] == ExchangeOne(r, x);
      n := n + 1;
    }
  }

  lemma FirstExchanged(s: seq<Rate>)
    requires s != []
    ensures Exchanged(s[..1]) == s[..1]
  {}

  lemma NextExchanged(s: seq<Rate>, n: nat)
    requires 1 <= n < |s|
    ensures Exchanged(s[..n + 1]) == ExchangeOne(Exchanged(s[..n]), s[n])
  {
    assert s[..n + 1][..n] == s[..n];
  }

  /** The rate at j joins the one at i, or comes to stand behind it. */
  method MergeInto(rates: array<Rate>, i: nat, j: nat) returns (k: nat)
    requires i < j < rates.Length && rates[j].idx <= rates[i].idx
    modifies rates
    ensures k <= j && rates[..k + 1] == MergeOne(old(rates[..i + 1]), old(rates[j]))
    ensures forall m :: j <= m < rates.Length ==> rates[m] == old(rates[m])
  {
    k := i;
    if rates[j].idx == rates[i].idx {
      rates[i] := rates[i].(count := AddTries(rates[i].count, rates[j].count));
    } else {
      k := i + 1;
      if k != j {
        rates[k] := rates[j];
      }
    }
  }

  /** Neighbours with the same index become one, up to the first that is higher again. */
  method Merge(rates: array<Rate>, count: nat) returns (kept: nat, total: nat)
    requires 1 <= count <= rates.Length
    modifies rates
    ensures var taken := old(rates[..count])[..Run(old(rates[..count]))];
      kept <= count && rates[..kept] == Merged(taken) && total == Total(taken)
  {
    hide Total, Run, Merged, MergeOne;
    ghost var s := rates[..count];
    total := rates[0].count;
    var i, j := 0, 1;
    FirstTaken(s);
    assert rates[..1] == s[..1];
    while j < count
      invariant 0 <= i < j <= count && Run(s[..j]) == j && total == Total(s[..j])
      invariant rates[..i + 1] == Merged(s[..j]) && forall k :: j <= k < count ==> rates[k] == s[k]
    {
      NextTaken(s, j);
      if rates[j].idx > rates[i].idx {
        RunStops(s, j);
        break;
      }
      i := MergeInto(rates, i, j);
      total := total + rates[j].count;
      j := j + 1;
    }
    kept := i + 1;
    assert j == count ==> s[..j] == s;
  }

  lemma FirstTaken(s: seq<Rate>)
    requires s != []
    ensures Run(s[..1]) == 1 && Total(s[..1]) == s[0].count && Merged(s[..1]) == s[..1]
  {
    assert s[..1][..0] == [];
  }

  lemma NextTaken(s: seq<Rate>, j: nat)
    requires 1 <= j < |s| && Run(s[..j]) == j
    ensures Total(s[..j + 1]) == Total(s[..j]) + s[j].count
    ensures Merged(s[..j + 1]) == MergeOne(Merged(s[..j]), s[j])
      && Merged(s[..j])[|Merged(s[..j])| - 1].idx == s[j - 1].idx
    ensures s[j].idx <= s[j - 1].idx ==> Run(s[..j + 1]) == j + 1
  {
    assert s[..j + 1][..j] == s[..j];
  }

  /** The counts cut, from the front on, with what is left of the limit. */
  method Cut(rates: array<Rate>, count: nat, limit: nat)
    requires count <= rates.Length && limit >= count
    modifies rates
    ensures rates[..count] == CutTo(old(rates[..count]), limit)
  {
    hide CutTo;
    ghost var s, done: seq<Rate> := rates[..count], [];
    var rest := limit;
    assert s[0..] == s && [] + CutTo(s, limit) == CutTo(s, limit);
    for i := 0 to count
      invariant rest >= count - i && forall k :: i <= k < count ==> rates[k] == s[k]
      invariant rates[..i] == done && done + CutTo(s[i..], rest) == CutTo(s, limit)
    {
      var left := count - i - 1;
      CutStep(s, i, rest);
      if rates[i].count > rest - left {
        rates[i] := rates[i].(count := rest - left);
      }
      assert rates[..i] == done;
      rest := rest - rates[i].count;
      Regroup(done, rates[i], CutTo(s[i + 1..], rest));
      done := done + [rates[i]];
    }
    assert done + CutTo([], rest) == done;
  }

  lemma Regroup(done: seq<Rate>, one: Rate, rest: seq<Rate>)
    ensures done + ([one] + rest) == (done + [one]) + rest
  {}

  lemma CutStep(s: seq<Rate>, i: nat, rest: nat)
    requires i < |s| && rest >= |s| - i
    ensures var left := |s| - i - 1;
      var c: Tries := if s[i].count > rest - left then rest - left else s[i].count;
      CutTo(s[i..], rest) == [s[i].(count := c)] + CutTo(s[i + 1..], rest - c)
  {
    assert s[i..][1..] == s[i + 1..];
  }

  datatype TxPolicy = TxPolicy(tbl: Table, defined: Tries, retryCount: Tries)

  lemma NothingFilled(s: seq<Rate>, legacy: seq<nat>, ht: seq<nat>)
    ensures AllInTables(s[..0], legacy, ht) && Fill(s[..0], legacy, ht) == [0, 0, 0] && AllCapped(s[..0]) == []
  {}

  lemma NextFilled(s: seq<Rate>, i: nat, legacy: seq<nat>, ht: seq<nat>)
    requires i < |s| && AllInTables(s, legacy, ht)
    ensures AllInTables(s[..i], legacy, ht) && AllInTables(s[..i + 1], legacy, ht) && InTables(s[i], legacy, ht)
    ensures Fill(s[..i + 1], legacy, ht) == Packed(Fill(s[..i], legacy, ht), HwRate(s[i], legacy, ht),
      Capped(s[i].count) as bv32)
    ensures AllCapped(s[..i + 1]) == AllCapped(s[..i]) + [s[i].(count := Capped(s[i].count))]
  {
    hide Packed, HwRate, InTables, Capped;
    assert s[..i + 1][..i] == s[..i];
  }

  /** The table filled from the rates; tries beyond fifteen are cut. */
  method Pack(rates: array<Rate>, count: nat, legacy: seq<nat>, ht: seq<nat>) returns (p: TxPolicy)
    requires 1 <= count <= rates.Length && AllInTables(rates[..count], legacy, ht)
    modifies rates
    ensures rates[..count] == AllCapped(old(rates[..count]))
    ensures p.tbl == Fill(old(rates[..count]), legacy, ht)
    ensures AllInTables(old(rates[..1]), legacy, ht) && p.defined == (HwRate(old(rates[0]), legacy, ht) + 1) % 256
    ensures p.retryCount == Total(rates[..count]) % 256
  {
    hide Packed, Shifted, Total, HwRate, InTables, Capped, AllCapped, Fill;
    ghost var s := rates[..count];
    assert s[0] == rates[0] && rates[..1] == s[..1];
    var tbl: Table := [0, 0, 0];
    var retryCount: Tries := 0;
    var defined: Tries := (HwRate(rates[0], legacy, ht) + 1) % 256;
    EmptyTotal();
    NothingFilled(s, legacy, ht);
    for i := 0 to count
      invariant rates[..i] == AllCapped(s[..i]) && forall k :: i <= k < count ==> rates[k] == s[k]
      invariant AllInTables(s[..i], legacy, ht) && tbl == Fill(s[..i], legacy, ht)
      invariant retryCount == Total(rates[..i]) % 256
    {
      ghost var done := rates[..i];
      NextFilled(s, i, legacy, ht);
      var rateid := HwRate(rates[i], legacy, ht);
      var retries := Capped(rates[i].count);
      rates[i] := rates[i].(count := retries);
      tbl := Packed(tbl, rateid, retries as bv32);
      assert rates[..i + 1] == done + [rates[i]];
      TotalLast(done, rates[i]);
      AddModulo(Total(done), retries);
      retryCount := AddTries(retryCount, retries);
    }
    assert s[..count] == s;
    p := TxPolicy(tbl, defined, retryCount);
  }

  /** atbm_tx_policy_build. */
  method Build(rates: array<Rate>, count: nat, limit: nat, legacy: seq<nat>, ht: seq<nat>)
    returns (p: TxPolicy, ghost asked: seq<Rate>)
    requires 1 <= count <= rates.Length && AllInTables(rates[..count], legacy, ht)
    modifies rates
    ensures asked != [] && asked <= old(rates[..count])
    ensures (forall i :: 1 <= i < |asked| ==> asked[i].idx >= 0)
      && (|asked| < count ==> old(rates[..count])[|asked|].idx < 0)
    ensures var made := Policy(asked, limit);
      && AllInTables(made, legacy, ht) && p.tbl == Fill(made, legacy, ht)
      && |made| <= rates.Length && rates[..|made|] == AllCapped(made)
      && p.defined == (HwRate(made[0], legacy, ht) + 1) % 256 && p.retryCount == Total(AllCapped(made)) % 256
  {
    hide Fill, Total, HwRate, Exchanged, Merged, CutTo, Run, InTables, AllCapped;
    ghost var all := rates[..count];
    var n := Exchange(rates, count);
    asked := all[..n];
    assert asked == old(rates[..n]);
    var kept, total := Merge(rates, n);
    var lim := if limit < kept then kept else limit;
    if total > lim {
      Cut(rates, kept, lim);
    }
    assert rates[..kept] == Policy(asked, limit);
    PolicyInTables(asked, limit, legacy, ht);
    p := Pack(rates, kept, legacy, ht);
  }
}
