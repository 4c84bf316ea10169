/** The rates of a transmit retry policy (atbm_tx_policy_build of net/atbm_rc80211_minstrel_ht.c,
    built when MINSTREL_RATE_CONTROL is set): put in order, merged and cut to the retry limit. */
module RetryOrder {
  type Tries = n: nat | n < 256

  /** One rate asked for: its index, a negative one ending the list, how often to try it, and
      whether it is an 802.11n rate. */
  datatype Rate = Rate(idx: int, count: Tries, mcs: bool)

  // ---------------------------------------------------------------- the three passes, on values

  /** All tries asked for at an index. */
  function TriesAt(s: seq<Rate>, idx: int): nat {
    if s == [] then 0
    else TriesAt(s[..|s| - 1], idx) + if s[|s| - 1].idx == idx then s[|s| - 1].count else 0
  }

  function Total(s: seq<Rate>): nat {
    if s == [] then 0 else Total(s[..|s| - 1]) + s[|s| - 1].count
  }

  /** The single exchanging pass: the lower of the last two indices goes on to the end. */
  function Exchanged(s: seq<Rate>): (r: seq<Rate>)
    ensures |r| == |s|
  {
    if |s| <= 1 then s
    else ExchangeOne(Exchanged(s[..|s| - 1]), s[|s| - 1])
  }

  function ExchangeOne(r: seq<Rate>, x: Rate): (e: seq<Rate>)
    requires r != []
    ensures |e| == |r| + 1
  {
    if x.idx > r[|r| - 1].idx then r[..|r| - 1] + [x, r[|r| - 1]] else r + [x]
  }

  predicate Descending(s: seq<Rate>) {
    forall i :: 1 <= i < |s| ==> s[i].idx <= s[i - 1].idx
  }

  predicate StrictlyDescending(s: seq<Rate>) {
    forall i :: 1 <= i < |s| ==> s[i].idx < s[i - 1].idx
  }

  /** The counts are eight bits wide. */
  function AddTries(a: Tries, b: Tries): Tries {
    (a + b) % 256
  }

  /** Equal neighbours made one rate. */
  function Merged(s: seq<Rate>): (r: seq<Rate>)
    requires s != []
    ensures 1 <= |r| <= |s| && r[|r| - 1].idx == s[|s| - 1].idx
  {
    if |s| == 1 then s
    else
      MergeOne(Merged(s[..|s| - 1]), s[|s| - 1])
  }

  function MergeOne(r: seq<Rate>, x: Rate): (m: seq<Rate>)
    requires r != []
    ensures |r| <= |m| <= |r| + 1 && m[|m| - 1].idx == x.idx
  {
    var last := r[|r| - 1];
    if x.idx == last.idx then r[|r| - 1 := last.(count := AddTries(last.count, x.count))] else r + [x]
  }

  /** The counts cut so that the rest of the limit leaves one try for every rate behind. */
  function CutTo(s: seq<Rate>, limit: nat): (r: seq<Rate>)
    requires limit >= |s|
    ensures |r| == |s|
  {
    if s == [] then []
    else
      var left := |s| - 1;
      var c: Tries := if s[0].count > limit - left then limit - left else s[0].count;
      [s[0].(count := c)] + CutTo(s[1..], limit - c)
  }

  // ---------------------------------------------------------------- what the exchanging pass does

  lemma TriesAtLast(s: seq<Rate>, x: Rate, idx: int)
    ensures TriesAt(s + [x], idx) == TriesAt(s, idx) + if x.idx == idx then x.count else 0
  {
    assert (s + [x])[..|s|] == s;
  }

  lemma TotalLast(s: seq<Rate>, x: Rate)
    ensures Total(s + [x]) == Total(s) + x.count
  {
    assert (s + [x])[..|s|] == s;
  }

  lemma ExchangeOneTries(r: seq<Rate>, x: Rate, idx: int)
    requires r != []
    ensures TriesAt(ExchangeOne(r, x), idx) == TriesAt(r, idx) + (if x.idx == idx then x.count else 0)
    ensures Total(ExchangeOne(r, x)) == Total(r) + x.count
  {
    hide TriesAt, Total;
    var body, last := r[..|r| - 1], r[|r| - 1];
    assert body + [last] == r && body + [x] + [last] == body + [x, last];
    TriesAtLast(body, last, idx);
    TriesAtLast(r, x, idx);
    TriesAtLast(body, x, idx);
    TriesAtLast(body + [x], last, idx);
    TotalLast(body, last);
    TotalLast(r, x);
    TotalLast(body, x);
    TotalLast(body + [x], last);
  }

  /** The pass loses no try and moves none to another index. */
  lemma {:induction false} ExchangedKeepsTries(s: seq<Rate>, idx: int)
    ensures TriesAt(Exchanged(s), idx) == TriesAt(s, idx)
    ensures Total(Exchanged(s)) == Total(s)
  {
    hide TriesAt, Total, ExchangeOne;
    if |s| > 1 {
      var t, x := s[..|s| - 1], s[|s| - 1];
      ExchangedKeepsTries(t, idx);
      assert t + [x] == s;
      TriesAtLast(t, x, idx);
      TotalLast(t, x);
      ExchangeOneTries(Exchanged(t), x, idx);
    }
  }

  function Lowest(s: seq<Rate>): int
    requires s != []
  {
    if |s| == 1 || s[|s| - 1].idx < Lowest(s[..|s| - 1]) then s[|s| - 1].idx else Lowest(s[..|s| - 1])
  }

  lemma {:induction false} LowestIsLast(s: seq<Rate>)
    requires s != []
    ensures Exchanged(s)[|s| - 1].idx == Lowest(s)
  {
    if |s| > 1 { LowestIsLast(s[..|s| - 1]); }
  }

  /** No index is higher than both the one before it and the lowest of all before that. */
  ghost predicate NearlyDescending(s: seq<Rate>) {
    forall j :: 2 <= j < |s| ==> NoOvertaking(s, j)
  }

  predicate NoOvertaking(s: seq<Rate>, j: nat)
    requires 2 <= j < |s|
  {
    s[j].idx <= s[j - 1].idx || s[j].idx <= Lowest(s[..j - 1])
  }

  /** The second last index after the pass: the higher of the last one and the lowest before it. */
  lemma SecondLast(t: seq<Rate>)
    requires |t| > 1
    ensures var before := Lowest(t[..|t| - 1]);
      Exchanged(t)[|t| - 2].idx == if t[|t| - 1].idx > before then t[|t| - 1].idx else before
    ensures Exchanged(t)[|t| - 1].idx <= Exchanged(t)[|t| - 2].idx
  {
    LowestIsLast(t[..|t| - 1]);
  }

  lemma NearlyPrefix(s: seq<Rate>)
    requires |s| > 2
    ensures NearlyDescending(s) <==> NearlyDescending(s[..|s| - 1]) && NoOvertaking(s, |s| - 1)
  {
    var t := s[..|s| - 1];
    forall j | 2 <= j < |t| ensures NoOvertaking(t, j) == NoOvertaking(s, j) {
      assert t[..j - 1] == s[..j - 1];
    }
    if NearlyDescending(t) && NoOvertaking(s, |s| - 1) {
      forall j | 2 <= j < |s| ensures NoOvertaking(s, j) {
        if j < |t| { assert NoOvertaking(t, j); }
      }
    }
    if NearlyDescending(s) {
      forall j | 2 <= j < |t| ensures NoOvertaking(t, j) {
        assert NoOvertaking(s, j);
      }
    }
  }

  lemma DescendingLast(r: seq<Rate>, x: Rate)
    requires r != []
    ensures Descending(r + [x]) <==> Descending(r) && x.idx <= r[|r| - 1].idx
  {
    var s := r + [x];
    if Descending(s) {
      forall i | 1 <= i < |r| ensures r[i].idx <= r[i - 1].idx { assert s[i].idx <= s[i - 1].idx; }
      assert s[|r|].idx <= s[|r| - 1].idx;
    }
  }

  /** The single pass puts the rates in descending order if and only if they nearly were. */
  lemma {:induction false} ExchangedDescendingIff(s: seq<Rate>)
    ensures Descending(Exchanged(s)) <==> NearlyDescending(s)
  {
    if |s| > 2 {
      hide NearlyDescending, Descending, ExchangeOne;
      var t, x := s[..|s| - 1], s[|s| - 1];
      ExchangedDescendingIff(t);
      NearlyPrefix(s);
      SecondLast(t);
      assert t[..|t| - 1] == s[..|s| - 2] && t[|t| - 1] == s[|s| - 2];
      OneMoreExchanged(Exchanged(t), x);
    } else if |s| == 2 {
      assert Exchanged(s[..1]) == s[..1];
    }
  }

  /** What one more rate does to the order. */
  lemma OneMoreExchanged(r: seq<Rate>, x: Rate)
    requires |r| > 1 && r[|r| - 1].idx <= r[|r| - 2].idx
    ensures Descending(ExchangeOne(r, x)) <==> Descending(r) && x.idx <= r[|r| - 2].idx
  {
    hide Descending;
    var body, last := r[..|r| - 1], r[|r| - 1];
    assert r == body + [last];
    DescendingLast(body, last);
    DescendingLast(r, x);
    DescendingLast(body, x);
    DescendingLast(body + [x], last);
    assert body + [x] + [last] == body + [x, last];
  }

  // ---------------------------------------------------------------- what merging does

  lemma StrictlyLast(r: seq<Rate>, x: Rate)
    requires r != [] && StrictlyDescending(r) && x.idx < r[|r| - 1].idx
    ensures StrictlyDescending(r + [x])
  {}

  lemma StrictlyBump(r: seq<Rate>, c: Tries)
    requires r != [] && StrictlyDescending(r)
    ensures StrictlyDescending(r[|r| - 1 := r[|r| - 1].(count := c)])
  {}

  lemma DescendingPrefix(s: seq<Rate>)
    requires |s| > 1 && Descending(s)
    ensures Descending(s[..|s| - 1]) && s[|s| - 1].idx <= s[|s| - 2].idx
  {}

  /** Merged rates are strictly descending. */
  lemma {:induction false} MergedDescends(s: seq<Rate>)
    requires s != [] && Descending(s)
    ensures StrictlyDescending(Merged(s))
  {
    if |s| > 1 {
      hide StrictlyDescending, Descending;
      DescendingPrefix(s);
      MergedDescends(s[..|s| - 1]);
      var r, x := Merged(s[..|s| - 1]), s[|s| - 1];
      if x.idx == r[|r| - 1].idx {
        StrictlyBump(r, AddTries(r[|r| - 1].count, x.count));
      } else {
        StrictlyLast(r, x);
      }
    }
  }

  /** In a strictly descending list an index beyond the last one has no tries. */
  lemma {:induction false} NoneBelow(r: seq<Rate>, idx: int)
    requires StrictlyDescending(r) && (r != [] ==> idx < r[|r| - 1].idx)
    ensures TriesAt(r, idx) == 0
  {
    if r != [] {
      var t := r[..|r| - 1];
      if t != [] { assert r[|r| - 1].idx < r[|r| - 2].idx; }
      NoneBelow(t, idx);
    }
  }

  /** Merging adds up the tries of every index, in eight bits. */
  lemma {:induction false} MergedTries(s: seq<Rate>, idx: int)
    requires s != [] && Descending(s)
    ensures TriesAt(Merged(s), idx) == TriesAt(s, idx) % 256
  {
    hide TriesAt, MergeOne;
    if |s| == 1 {
      SingleTries(s, idx);
    } else {
      var t, x := s[..|s| - 1], s[|s| - 1];
      DescendingPrefix(s);
      MergedTries(t, idx);
      MergedDescends(t);
      assert t + [x] == s;
      TriesAtLast(t, x, idx);
      MergeStep(Merged(t), x, idx);
      if x.idx == idx {
        AddModulo(TriesAt(t, idx), x.count);
      }
    }
  }

  lemma SingleTries(s: seq<Rate>, idx: int)
    requires |s| == 1
    ensures TriesAt(s, idx) < 256
  {
    assert s[..0] == [];
  }

  lemma AddModulo(a: nat, b: nat)
    ensures (a % 256 + b) % 256 == (a + b) % 256
  {
    var q := a / 256;
    assert a == 256 * q + a % 256;
    var q1 := (a % 256 + b) / 256;
    assert a + b == 256 * (q + q1) + (a % 256 + b) % 256;
  }

  lemma MergeStep(r: seq<Rate>, x: Rate, idx: int)
    requires r != [] && StrictlyDescending(r) && x.idx <= r[|r| - 1].idx
    ensures TriesAt(MergeOne(r, x), idx) == if x.idx == idx then (TriesAt(r, idx) + x.count) % 256 else TriesAt(r, idx)
  {
    hide TriesAt;
    var body, last := r[..|r| - 1], r[|r| - 1];
    assert body + [last] == r;
    TriesAtLast(body, last, idx);
    if x.idx == last.idx {
      var bumped := last.(count := AddTries(last.count, x.count));
      assert r[|r| - 1 := bumped] == body + [bumped];
      TriesAtLast(body, bumped, idx);
      if idx == x.idx { BodyHasNone(r); }
    } else {
      TriesAtLast(r, x, idx);
      if idx == x.idx {
        NoneBelow(r, idx);
      }
    }
  }

  lemma BodyHasNone(r: seq<Rate>)
    requires r != [] && StrictlyDescending(r)
    ensures TriesAt(r[..|r| - 1], r[|r| - 1].idx) == 0
  {
    var t := r[..|r| - 1];
    if t != [] { assert r[|r| - 1].idx < r[|r| - 2].idx; }
    NoneBelow(t, r[|r| - 1].idx);
  }

  /** No index is asked for more often than eight bits can say. */
  ghost predicate Fits(s: seq<Rate>) {
    forall idx: int :: TriesAt(s, idx) < 256
  }

  lemma MergeOneTotal(r: seq<Rate>, x: Rate)
    requires r != [] && StrictlyDescending(r)
    requires x.idx == r[|r| - 1].idx ==> TriesAt(r, x.idx) + x.count < 256
    ensures Total(MergeOne(r, x)) == Total(r) + x.count
  {
    hide TriesAt, Total, StrictlyDescending;
    var body, last := r[..|r| - 1], r[|r| - 1];
    assert body + [last] == r;
    TotalLast(body, last);
    if x.idx == last.idx {
      LastTries(r);
      var bumped := last.(count := AddTries(last.count, x.count));
      assert r[|r| - 1 := bumped] == body + [bumped];
      TotalLast(body, bumped);
    } else {
      TotalLast(r, x);
    }
  }

  lemma MergeOneTried(r: seq<Rate>, x: Rate)
    requires r != [] && x.count >= 1 && AllTried(r)
    requires x.idx == r[|r| - 1].idx ==> r[|r| - 1].count + x.count < 256
    ensures AllTried(MergeOne(r, x))
  {}

  lemma LastTries(r: seq<Rate>)
    requires r != [] && StrictlyDescending(r)
    ensures TriesAt(r, r[|r| - 1].idx) == r[|r| - 1].count
  {
    BodyHasNone(r);
  }

  lemma {:induction false} MergedTotal(s: seq<Rate>)
    requires s != [] && Descending(s) && Fits(s)
    ensures Total(Merged(s)) == Total(s)
    ensures AllTried(s) ==> AllTried(Merged(s))
  {
    hide TriesAt, Total, MergeOne;
    if |s| > 1 {
      var t, x := s[..|s| - 1], s[|s| - 1];
      assert t + [x] == s;
      DescendingPrefix(s);
      FitsPrefix(t, x);
      MergedTotal(t);
      MergedDescends(t);
      MergedTries(t, x.idx);
      TriesAtLast(t, x, x.idx);
      assert TriesAt(s, x.idx) < 256;
      MergeOneTotal(Merged(t), x);
      TotalLast(t, x);
      if AllTried(s) {
        assert x.count >= 1;
        LastTries(Merged(t));
        MergeOneTried(Merged(t), x);
      }
    }
  }

  lemma FitsPrefix(t: seq<Rate>, x: Rate)
    requires Fits(t + [x])
    ensures Fits(t)
  {
    hide TriesAt;
    forall idx: int ensures TriesAt(t, idx) < 256 {
      TriesAtLast(t, x, idx);
      assert TriesAt(t + [x], idx) < 256;
    }
  }

  // ---------------------------------------------------------------- what cutting does

  predicate AllTried(s: seq<Rate>) {
    forall i :: 0 <= i < |s| ==> s[i].count >= 1
  }

  lemma {:induction false} TotalFirst(s: seq<Rate>)
    requires s != []
    ensures Total(s) == s[0].count + Total(s[1..])
  {
    if |s| == 1 {
      assert s[..0] == [] == s[1..];
    } else {
      var t, x := s[..|s| - 1], s[|s| - 1];
      TotalFirst(t);
      assert t[1..] + [x] == s[1..];
      TotalLast(t[1..], x);
    }
  }

  lemma {:induction false} TotalAtLeast(s: seq<Rate>)
    requires AllTried(s)
    ensures Total(s) >= |s|
  {
    if s != [] {
      assert s[|s| - 1].count >= 1;
      TotalAtLeast(s[..|s| - 1]);
    }
  }

  /** The cut meets the limit exactly, or changes nothing when there is nothing to cut. */
  lemma {:induction false} CutTotal(s: seq<Rate>, limit: nat)
    requires limit >= |s| && AllTried(s)
    ensures Total(CutTo(s, limit)) == if Total(s) <= limit then Total(s) else limit
  {
    hide Total;
    if s == [] {
      EmptyTotal();
    } else {
      var left := |s| - 1;
      var c: nat := if s[0].count > limit - left then limit - left else s[0].count;
      CutTotal(s[1..], limit - c);
      TotalAtLeast(s[1..]);
      TotalFirst(s);
      TotalFirst(CutTo(s, limit));
    }
  }

  lemma EmptyTotal()
    ensures Total([]) == 0
  {}

  /** Every rate keeps at least one try and its place; once one is cut, all of lower index have one. */
  lemma {:induction false} CutShape(s: seq<Rate>, limit: nat)
    requires limit >= |s| && AllTried(s)
    ensures var r := CutTo(s, limit);
      && (forall i :: 0 <= i < |s| ==> r[i].idx == s[i].idx && r[i].mcs == s[i].mcs && 1 <= r[i].count <= s[i].count)
      && (forall i, j :: 0 <= i < j < |s| && r[i].count < s[i].count ==> r[j].count == 1)
      && (limit == |s| ==> forall i :: 0 <= i < |s| ==> r[i].count == 1)
  {
    if s != [] {
      var left := |s| - 1;
      var c: nat := if s[0].count > limit - left then limit - left else s[0].count;
      assert s[0].count >= 1;
      CutShape(s[1..], limit - c);
    }
  }

  // ---------------------------------------------------------------- the policy

  /** How far the merging pass gets: up to the first index above the one before it. */
  function Run(s: seq<Rate>): (n: nat)
    ensures n <= |s| && (s != [] ==> n >= 1)
  {
    if |s| <= 1 then |s|
    else
      var n := Run(s[..|s| - 1]);
      if n == |s| - 1 && s[|s| - 1].idx <= s[|s| - 2].idx then |s| else n
  }

  lemma {:induction false} RunDescends(s: seq<Rate>)
    ensures Descending(s[..Run(s)])
    ensures Run(s) == |s| <==> Descending(s)
  {
    if |s| > 1 {
      var t := s[..|s| - 1];
      RunDescends(t);
      assert t[..Run(t)] == s[..Run(t)];
      if Run(s) == |s| {
        assert s[..|s|] == s;
        assert t[..|t|] == t;
      }
      if Descending(s) { DescendingPrefix(s); }
    }
  }

  lemma {:induction false} RunStops(s: seq<Rate>, j: nat)
    requires 1 <= j < |s| && Run(s[..j]) == j && s[j].idx > s[j - 1].idx
    ensures Run(s) == j
  {
    var t := s[..|s| - 1];
    if j < |t| {
      assert t[..j] == s[..j];
      RunStops(t, j);
    }
  }

  function Max(a: nat, b: nat): nat { if a < b then b else a }

  /** The rates that are merged: the longest descending run after the exchange pass. */
  function Taken(asked: seq<Rate>): (r: seq<Rate>)
    requires asked != []
    ensures 1 <= |r| <= |asked|
  {
    var ordered := Exchanged(asked);
    ordered[..Run(ordered)]
  }

  /** The rates of the policy for the rates asked for. */
  function Policy(asked: seq<Rate>, limit: nat): (r: seq<Rate>)
    requires asked != []
  {
    var taken := Taken(asked);
    var merged := Merged(taken);
    if Total(taken) > Max(limit, |merged|) then CutTo(merged, Max(limit, |merged|)) else merged
  }

  lemma {:induction false} TotalOfPart(s: seq<Rate>, n: nat)
    requires n <= |s| && AllTried(s)
    ensures Total(s[..n]) <= Total(s) && (Total(s[..n]) == Total(s) ==> n == |s|)
  {
    if n < |s| {
      var t := s[..|s| - 1];
      TotalOfPart(t, n);
      assert t[..n] == s[..n];
      assert s[|s| - 1].count >= 1;
    } else {
      assert s[..n] == s;
    }
  }

  lemma ExchangeOneTried(r: seq<Rate>, x: Rate)
    requires r != [] && AllTried(r) && x.count >= 1
    ensures AllTried(ExchangeOne(r, x))
  {}

  lemma {:induction false} ExchangedTried(s: seq<Rate>)
    requires AllTried(s)
    ensures AllTried(Exchanged(s))
  {
    hide ExchangeOne;
    if |s| > 1 {
      ExchangedTried(s[..|s| - 1]);
      ExchangeOneTried(Exchanged(s[..|s| - 1]), s[|s| - 1]);
    }
  }

  /** The policy takes every try into account if and only if the rates were nearly descending. */
  lemma PolicyTakesAllIff(asked: seq<Rate>)
    requires asked != [] && AllTried(asked)
    ensures Total(Taken(asked)) == Total(asked) <==> NearlyDescending(asked)
  {
    hide Total, Exchanged, NearlyDescending, Run, Descending;
    var ordered := Exchanged(asked);
    ExchangedKeepsTries(asked, 0);
    ExchangedTried(asked);
    ExchangedDescendingIff(asked);
    RunDescends(ordered);
    TotalOfPart(ordered, Run(ordered));
    assert ordered[..|ordered|] == ordered;
  }

  /** Three rates asked for with ascending indices: the highest is lost. */
  lemma AscendingLosesHighest(limit: nat)
    requires limit >= 1
    ensures Policy([Rate(1, 1, false), Rate(2, 1, false), Rate(3, 1, false)], limit) == [Rate(2, 1, false)]
  {
    var a, b, c := Rate(1, 1, false), Rate(2, 1, false), Rate(3, 1, false);
    var asked := [a, b, c];
    assert asked[..2] == [a, b] && asked[..2][..1] == [a];
    assert Exchanged([a]) == [a];
    assert Exchanged([a, b]) == [b, a] by { assert [a, b][..1] == [a]; }
    var ordered := [b, c, a];
    assert Exchanged(asked) == ordered;
    assert ordered[..1] == [b] && ordered[..2][..1] == [b];
    assert Run(ordered) == 1 by { assert ordered[..2] == [b, c]; assert [b, c][..1] == [b]; assert Run([b, c]) == 1; }
    assert Total([b]) == 1 by { assert [b][..0] == []; }
  }

  /** What merging makes of any list: the part that is taken strictly descends. */
  lemma TakenMergesDescending(s: seq<Rate>)
    requires s != []
    ensures Descending(s[..Run(s)]) && StrictlyDescending(Merged(s[..Run(s)]))
  {
    RunDescends(s);
    MergedDescends(s[..Run(s)]);
  }

  /** The policy strictly descends whatever is asked for. */
  lemma PolicyDescends(asked: seq<Rate>, limit: nat)
    requires asked != []
    ensures StrictlyDescending(Policy(asked, limit))
  {
    hide Total, Merged, CutTo, Run, Exchanged, StrictlyDescending, Descending;
    TakenMergesDescending(Exchanged(asked));
    var m := Merged(Taken(asked));
    CutKeeps(m, Max(limit, |m|), Policy(asked, limit));
  }

  /** Rates each with at least one try, none with more in the taken run than eight bits hold, give
      a strictly descending policy that keeps every taken rate and its tries, cut only as far as
      the limit demands and from the lowest indices first. Nothing asked for is left untaken when
      the rates came nearly descending. */
  lemma PolicyFaithful(asked: seq<Rate>, limit: nat)
    requires asked != [] && AllTried(asked) && Fits(Taken(asked))
    ensures var p, taken := Policy(asked, limit), Taken(asked);
      var lim := Max(limit, |p|);
      && StrictlyDescending(p)
      && Total(p) == (if Total(taken) <= lim then Total(taken) else lim)
      && (forall i :: 0 <= i < |p| ==> 1 <= p[i].count <= TriesAt(taken, p[i].idx))
      && (forall i, j :: 0 <= i < j < |p| && p[i].count < TriesAt(taken, p[i].idx) ==> p[j].count == 1)
      && (forall idx :: TriesAt(taken, idx) > 0 ==> exists i :: 0 <= i < |p| && p[i].idx == idx)
      && (NearlyDescending(asked) ==>
            Total(taken) == Total(asked) && forall idx: int :: TriesAt(taken, idx) == TriesAt(asked, idx))
  {
    hide Total, TriesAt, Exchanged, Merged, CutTo, Run, Descending, StrictlyDescending, NearlyDescending;
    var ordered, taken := Exchanged(asked), Taken(asked);
    ExchangedTried(asked);
    TakenMergesDescending(ordered);
    TakenTried(ordered);
    MergedTotal(taken);
    var m := Merged(taken);
    forall idx: int ensures TriesAt(m, idx) == TriesAt(taken, idx) {
      MergedTries(taken, idx);
      assert TriesAt(taken, idx) < 256;
    }
    TotalAtLeast(m);
    var lim := Max(limit, |m|);
    CutTotal(m, lim);
    CutShape(m, lim);
    CutKeeps(m, lim, Policy(asked, limit));
    forall i | 0 <= i < |m| ensures TriesAt(m, m[i].idx) == m[i].count {
      TriesOfOne(m, i);
    }
    forall idx | TriesAt(taken, idx) > 0 ensures exists i :: 0 <= i < |m| && m[i].idx == idx {
      TriedIsThere(m, idx);
    }
    if NearlyDescending(asked) { NearlyTakesAll(asked); }
  }

  lemma TakenTried(s: seq<Rate>)
    requires AllTried(s)
    ensures AllTried(s[..Run(s)])
  {}

  lemma NearlyTakesAll(asked: seq<Rate>)
    requires asked != [] && NearlyDescending(asked)
    ensures Total(Taken(asked)) == Total(asked) && forall idx: int :: TriesAt(Taken(asked), idx) == TriesAt(asked, idx)
  {
    hide Total, TriesAt, Exchanged, Run, Descending, NearlyDescending;
    var ordered := Exchanged(asked);
    ExchangedDescendingIff(asked);
    RunDescends(ordered);
    assert ordered[..|ordered|] == ordered;
    ExchangedKeepsTries(asked, 0);
    forall idx: int ensures TriesAt(ordered, idx) == TriesAt(asked, idx) {
      ExchangedKeepsTries(asked, idx);
    }
  }

  /** A list with the indices of another one. */
  lemma CutKeeps(m: seq<Rate>, lim: nat, p: seq<Rate>)
    requires lim >= |m| && (p == m || p == CutTo(m, lim))
    requires StrictlyDescending(m)
    ensures |p| == |m| && StrictlyDescending(p)
    ensures forall i :: 0 <= i < |m| ==> p[i].idx == m[i].idx && p[i].mcs == m[i].mcs
  {
    CutKeepsPlaces(m, lim);
  }

  lemma {:induction false} CutKeepsPlaces(s: seq<Rate>, limit: nat)
    requires limit >= |s|
    ensures forall i :: 0 <= i < |s| ==> CutTo(s, limit)[i].idx == s[i].idx && CutTo(s, limit)[i].mcs == s[i].mcs
  {
    if s != [] {
      var left := |s| - 1;
      CutKeepsPlaces(s[1..], limit - if s[0].count > limit - left then limit - left else s[0].count);
    }
  }

  /** Two requests of 200 tries at one rate merge into 144. */
  lemma MergedWraps()
    ensures var s := [Rate(1, 200, false), Rate(1, 200, false)];
      Descending(s) && TriesAt(s, 1) == 400 && Merged(s) == [Rate(1, 144, false)]
  {
    var a := Rate(1, 200, false);
    assert [a, a][..1] == [a] && [a][..0] == [];
    assert Merged([a]) == [a];
  }

  lemma {:induction false} TriesOfOne(m: seq<Rate>, i: nat)
    requires StrictlyDescending(m) && i < |m|
    ensures TriesAt(m, m[i].idx) == m[i].count
  {
    var t := m[..|m| - 1];
    if i == |t| {
      BodyHasNone(m);
    } else {
      TriesOfOne(t, i);
      StrictlyApart(m, i, |t|);
    }
  }

  lemma {:induction false} StrictlyApart(m: seq<Rate>, i: nat, j: nat)
    requires StrictlyDescending(m) && i < j < |m|
    ensures m[j].idx < m[i].idx
  {
    if i + 1 < j { StrictlyApart(m, i, j - 1); }
  }

  lemma {:induction false} TriedIsThere(m: seq<Rate>, idx: int)
    requires TriesAt(m, idx) > 0
    ensures exists i :: 0 <= i < |m| && m[i].idx == idx
  {
    var t := m[..|m| - 1];
    if m[|m| - 1].idx != idx {
      TriedIsThere(t, idx);
      var i :| 0 <= i < |t| && t[i].idx == idx;
      assert m[i].idx == idx;
    }
  }
}
