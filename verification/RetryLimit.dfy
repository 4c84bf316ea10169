/** What a retry policy keeps for any list of rates at all, also when a rate is asked for with no
    tries or with more than eight bits hold. */
module RetryLimit {
  import opened RetryOrder

  // ---------------------------------------------------------------- what eight bits lose

  lemma AddLoses(a: Tries, b: Tries)
    ensures AddTries(a, b) <= a + b && (AddTries(a, b) == a + b <==> a + b < 256)
  {}

  lemma MergeOneLoses(r: seq<Rate>, x: Rate)
    requires r != []
    ensures Total(MergeOne(r, x)) <= Total(r) + x.count
    ensures Total(MergeOne(r, x)) == Total(r) + x.count <==>
      (x.idx == r[|r| - 1].idx ==> r[|r| - 1].count + x.count < 256)
  {
    hide Total, AddTries;
    var body, last := r[..|r| - 1], r[|r| - 1];
    assert body + [last] == r;
    TotalLast(body, last);
    if x.idx == last.idx {
      AddLoses(last.count, x.count);
      var bumped := last.(count := AddTries(last.count, x.count));
      assert r[|r| - 1 := bumped] == body + [bumped];
      TotalLast(body, bumped);
    } else {
      TotalLast(r, x);
    }
  }

  lemma {:induction false} NoTriesBelow(s: seq<Rate>, idx: int)
    requires Descending(s) && (s != [] ==> idx < s[|s| - 1].idx)
    ensures TriesAt(s, idx) == 0
  {
    if |s| == 1 {
      assert s[..0] == [];
    } else if |s| > 1 {
      DescendingPrefix(s);
      NoTriesBelow(s[..|s| - 1], idx);
    }
  }

  /** One more rate fits if and only if its index has room for it. */
  lemma FitsOneMore(t: seq<Rate>, x: Rate)
    requires Fits(t)
    ensures Fits(t + [x]) <==> TriesAt(t, x.idx) + x.count < 256
  {
    hide TriesAt;
    forall idx: int ensures TriesAt(t + [x], idx) == TriesAt(t, idx) + if x.idx == idx then x.count else 0 {
      TriesAtLast(t, x, idx);
    }
    assert TriesAt(t + [x], x.idx) == TriesAt(t, x.idx) + x.count;
  }

  /** Merging keeps the total if and only if no index is asked for more often than eight bits can
      say, and never adds to it. */
  lemma {:induction false} MergedTotalIff(s: seq<Rate>)
    requires s != [] && Descending(s)
    ensures Total(Merged(s)) <= Total(s)
    ensures Total(Merged(s)) == Total(s) <==> Fits(s)
  {
    hide TriesAt, Total, MergeOne, Fits;
    if |s| == 1 {
      OneFits(s);
    } else {
      var t, x := s[..|s| - 1], s[|s| - 1];
      assert t + [x] == s;
      DescendingPrefix(s);
      MergedTotalIff(t);
      TotalLast(t, x);
      MergeOneLoses(Merged(t), x);
      if Fits(t) {
        FitsOneMore(t, x);
        LastOfMerged(t, x);
      } else if Fits(s) {
        FitsPrefix(t, x);
      }
    }
  }

  lemma OneFits(s: seq<Rate>)
    requires |s| == 1
    ensures Fits(s)
  {
    forall idx: int ensures TriesAt(s, idx) < 256 {
      SingleTries(s, idx);
    }
  }

  /** What has been merged at the index of the next rate. */
  lemma LastOfMerged(t: seq<Rate>, x: Rate)
    requires t != [] && Descending(t) && Fits(t) && x.idx <= t[|t| - 1].idx
    ensures var last := Merged(t)[|Merged(t)| - 1];
      TriesAt(t, x.idx) == if x.idx == last.idx then last.count else 0
  {
    hide TriesAt, StrictlyDescending;
    var m := Merged(t);
    MergedDescends(t);
    if x.idx == m[|m| - 1].idx {
      MergedTries(t, x.idx);
      assert TriesAt(t, x.idx) < 256;
      LastTries(m);
    } else {
      NoTriesBelow(t, x.idx);
    }
  }

  // ---------------------------------------------------------------- what the cut keeps

  /** The cut never leaves more than the limit, nor more of any rate than there was. */
  lemma {:induction false} CutWithin(s: seq<Rate>, limit: nat)
    requires limit >= |s|
    ensures Total(CutTo(s, limit)) <= limit
    ensures forall i :: 0 <= i < |s| ==> CutTo(s, limit)[i].idx == s[i].idx && CutTo(s, limit)[i].count <= s[i].count
  {
    hide Total;
    if s == [] {
      EmptyTotal();
    } else {
      var left := |s| - 1;
      var c: nat := if s[0].count > limit - left then limit - left else s[0].count;
      CutWithin(s[1..], limit - c);
      TotalFirst(CutTo(s, limit));
    }
  }

  lemma {:induction false} PartTries(s: seq<Rate>, n: nat, idx: int)
    requires n <= |s|
    ensures TriesAt(s[..n], idx) <= TriesAt(s, idx)
  {
    if n == |s| {
      assert s[..n] == s;
    } else {
      assert s[..|s| - 1][..n] == s[..n];
      PartTries(s[..|s| - 1], n, idx);
    }
  }

  /** Whatever is asked for, the policy tries no more often than the limit allows, or once per rate
      when even that is more; and no rate more often than it was asked for. */
  lemma PolicyWithinLimit(asked: seq<Rate>, limit: nat)
    requires asked != []
    ensures var p := Policy(asked, limit);
      && Total(p) <= Max(limit, |p|)
      && forall i :: 0 <= i < |p| ==> p[i].count <= TriesAt(asked, p[i].idx)
  {
    hide Total, TriesAt, Exchanged, Merged, CutTo, Run, Descending, StrictlyDescending;
    var ordered, taken := Exchanged(asked), Taken(asked);
    var m := Merged(taken);
    TakenMergesDescending(ordered);
    MergedTotalIff(taken);
    CutWithin(m, Max(limit, |m|));
    var p := Policy(asked, limit);
    forall i | 0 <= i < |p| ensures p[i].count <= TriesAt(asked, p[i].idx) {
      TriesOfOne(m, i);
      MergedTries(taken, m[i].idx);
      PartTries(ordered, Run(ordered), m[i].idx);
      ExchangedKeepsTries(asked, m[i].idx);
    }
  }
}
