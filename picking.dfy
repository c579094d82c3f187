/**
 * The no-repeat question picker, as a specification over one user's history
 * of served indices (`dic_pick[user_id]`): how one pick changes it, and what a
 * run of picks serves.
 */
module Picking {

  predicate NoDuplicates(h: seq<int>) {
    forall i, j :: 0 <= i < j < |h| ==> h[i] != h[j]
  }

  predicate InRange(h: seq<int>, n: int) {
    forall i :: 0 <= i < |h| ==> 0 <= h[i] < n
  }

  /** The state the picker relies on: no index served twice, every index a
      question of the current topic. */
  predicate HistoryValid(h: seq<int>, n: int) {
    NoDuplicates(h) && InRange(h, n)
  }

  /** Lines 93-94: a history holding as many indices as the topic has
      questions is emptied before anything else happens. */
  function Base(h: seq<int>, n: int): seq<int> {
    if |h| == n then [] else h
  }

  /** Lines 97-99: a draw from `randint(0, n - 1)` is accepted when it is not in the history. */
  predicate Unused(h: seq<int>, n: int, p: int) {
    0 <= p < n && p !in Base(h, n)
  }

  /** Lines 100-101: the accepted index is appended to the history. */
  function Step(h: seq<int>, n: int, p: int): seq<int> {
    Base(h, n) + [p]
  }

  /** Lines 103-104: an explicit index outside `[0, n)` is reduced modulo the
      topic length; Python's `%` and Dafny's agree for a positive divisor. */
  function Normalize(q: int, n: int): (i: int)
    requires n > 0
    ensures 0 <= i < n
    ensures i == q % n
    ensures 0 <= q < n ==> i == q
  {
    if q < 0 || q >= n then q % n else q
  }

  /** An accepted pick keeps the history valid and grows it by exactly that index. */
  lemma StepKeepsValid(h: seq<int>, n: int, p: int)
    requires HistoryValid(h, n)
    requires Unused(h, n, p)
    ensures HistoryValid(Step(h, n, p), n)
    ensures |Step(h, n, p)| == |Base(h, n)| + 1
    ensures forall x :: x in Step(h, n, p) <==> x in Base(h, n) || x == p
  {
    var s := Step(h, n, p);
    assert forall i :: 0 <= i < |s| - 1 ==> s[i] == Base(h, n)[i];
  }

  // ---------------------------------------------------------------------------
  // Counting: a valid history shorter than the topic leaves an index unused
  // ---------------------------------------------------------------------------

  /** The indices `0 .. n - 1` of a topic with `n` questions. */
  function Indices(n: int): (r: set<int>)
    ensures forall x :: x in r <==> 0 <= x < n
    decreases n
  {
    if n <= 0 then {} else Indices(n - 1) + {n - 1}
  }

  function Elements(h: seq<int>): set<int> {
    set x | x in h
  }

  lemma {:induction false} IndicesSize(n: nat)
    ensures |Indices(n)| == n
  {
    if n > 0 {
      IndicesSize(n - 1);
      assert n - 1 !in Indices(n - 1);
      assert Indices(n) == Indices(n - 1) + {n - 1};
    }
  }

  lemma {:induction false} ElementsSize(h: seq<int>)
    requires NoDuplicates(h)
    ensures |Elements(h)| == |h|
  {
    if |h| > 0 {
      var init := h[..|h| - 1];
      assert NoDuplicates(init);
      ElementsSize(init);
      assert h == init + [h[|h| - 1]];
      assert Elements(h) == Elements(init) + {h[|h| - 1]};
      assert h[|h| - 1] !in Elements(init);
    }
  }

  lemma SubsetSize(a: set<int>, b: set<int>)
    requires a <= b
    ensures |a| <= |b|
    ensures |a| == |b| ==> a == b
    ensures |a| < |b| ==> b - a != {}
  {
    assert b == a + (b - a);
    assert a * (b - a) == {};
    if |a| == |b| {
      assert |b - a| == 0;
    }
  }

  /** A valid history never holds more indices than the topic has questions. */
  lemma HistoryBounded(h: seq<int>, n: nat)
    requires HistoryValid(h, n)
    ensures |h| <= n
    ensures |h| == n ==> forall x :: 0 <= x < n ==> x in h
  {
    ElementsSize(h);
    IndicesSize(n);
    assert Elements(h) <= Indices(n);
    SubsetSize(Elements(h), Indices(n));
    if |h| == n {
      assert Elements(h) == Indices(n);
      forall x | 0 <= x < n ensures x in h {
        assert x in Indices(n);
        assert x in Elements(h);
      }
    }
  }

  /** The retry loop of lines 96-101 always has an index it can accept. */
  lemma UnusedExists(h: seq<int>, n: nat)
    requires n > 0
    requires HistoryValid(h, n)
    ensures exists p :: Unused(h, n, p)
  {
    if |h| == n {
      assert Unused(h, n, 0);
    } else {
      HistoryBounded(h, n);
      ElementsSize(h);
      IndicesSize(n);
      assert Elements(h) <= Indices(n);
      SubsetSize(Elements(h), Indices(n));
      var p :| p in Indices(n) - Elements(h);
      assert Unused(h, n, p);
    }
  }

  // ---------------------------------------------------------------------------
  // Runs of unforced picks
  // ---------------------------------------------------------------------------

  /** The history after the unforced picks `picks`, made one after the other. */
  function Run(h: seq<int>, picks: seq<int>, n: int): seq<int>
    decreases |picks|
  {
    if |picks| == 0 then h else Run(Step(h, n, picks[0]), picks[1..], n)
  }

  /** Each pick of `picks` is one the picker can make at its turn. */
  predicate ValidRun(h: seq<int>, picks: seq<int>, n: int)
    decreases |picks|
  {
    |picks| == 0 || (Unused(h, n, picks[0]) && ValidRun(Step(h, n, picks[0]), picks[1..], n))
  }

  /** Picks made after one another are a run made of the two runs. */
  lemma {:induction false} RunSplit(h: seq<int>, a: seq<int>, b: seq<int>, n: int)
    ensures ValidRun(h, a + b, n) <==> ValidRun(h, a, n) && ValidRun(Run(h, a, n), b, n)
    ensures Run(h, a + b, n) == Run(Run(h, a, n), b, n)
    decreases |a|
  {
    if |a| == 0 {
      assert a + b == b;
    } else {
      RunSplit(Step(h, n, a[0]), a[1..], b, n);
      assert (a + b)[0] == a[0];
      assert (a + b)[1..] == a[1..] + b;
    }
  }

  /** While the topic is not exhausted, no reset happens: the history is the
      picks appended in order, and stays valid. */
  lemma {:induction false} RunWithinCycle(h: seq<int>, picks: seq<int>, n: int)
    requires HistoryValid(h, n)
    requires ValidRun(h, picks, n)
    requires |h| + |picks| <= n
    ensures Run(h, picks, n) == h + picks
    ensures HistoryValid(h + picks, n)
    decreases |picks|
  {
    if |picks| == 0 {
      assert h + picks == h;
    } else {
      assert Base(h, n) == h;
      StepKeepsValid(h, n, picks[0]);
      RunWithinCycle(h + [picks[0]], picks[1..], n);
      assert h + [picks[0]] + picks[1..] == h + picks;
    }
  }

  /** Starting afresh, `n` unforced picks serve every index of the topic exactly once. */
  lemma FirstCycle(picks: seq<int>, n: nat)
    requires ValidRun([], picks, n)
    requires |picks| == n
    ensures NoDuplicates(picks)
    ensures forall x :: 0 <= x < n ==> x in picks
    ensures Run([], picks, n) == picks
  {
    RunWithinCycle([], picks, n);
    assert [] + picks == picks;
    HistoryBounded(picks, n);
  }

  /** Once every index has been served the picker behaves as if nothing had been. */
  lemma FullHistoryRestarts(h: seq<int>, b: seq<int>, n: int)
    requires |h| == n
    ensures ValidRun(h, b, n) <==> ValidRun([], b, n)
    ensures |b| > 0 ==> Run(h, b, n) == Run([], b, n)
  {
    if |b| > 0 {
      assert Base(h, n) == Base([], n) == [];
      assert Step(h, n, b[0]) == Step([], n, b[0]);
    }
  }

  /** `s` serves each index of a topic with `n` questions exactly once. */
  predicate IsCycle(s: seq<int>, n: int) {
    && |s| == n
    && NoDuplicates(s)
    && forall x :: 0 <= x < n ==> x in s
  }

  /** Cut into consecutive blocks of `n`, every complete block of `picks` is a
      cycle, and the incomplete block at the end repeats nothing. */
  predicate InCycles(picks: seq<int>, n: nat)
    requires n > 0
    decreases |picks|
  {
    if |picks| < n then NoDuplicates(picks)
    else IsCycle(picks[..n], n) && InCycles(picks[n..], n)
  }

  /** Starting afresh, unforced picks come in cycles: every index is served
      once before any index is served again, and then the cycle restarts. */
  lemma {:induction false} EveryCycle(picks: seq<int>, n: nat)
    requires n > 0
    requires ValidRun([], picks, n)
    ensures InCycles(picks, n)
    decreases |picks|
  {
    if |picks| < n {
      RunWithinCycle([], picks, n);
      assert [] + picks == picks;
    } else {
      var a, b := picks[..n], picks[n..];
      assert picks == a + b;
      RunSplit([], a, b, n);
      FirstCycle(a, n);
      FullHistoryRestarts(a, b, n);
      EveryCycle(b, n);
    }
  }
}
