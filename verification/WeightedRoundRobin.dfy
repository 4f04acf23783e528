/** Smooth weighted round robin: the schedule, its fairness and its period. */
module WeightedRoundRobin {
  import opened Common

  /** What one call reads and writes of one server. */
  datatype Entry = Entry(weight: int, current: int, effective: int)

  datatype Part = Weight | Current | Effective

  function Get(e: Entry, part: Part): int {
    match part
    case Weight => e.weight
    case Current => e.current
    case Effective => e.effective
  }

  /** One part of the first `n` entries. */
  function Column(es: seq<Entry>, part: Part, n: nat): (xs: seq<int>)
    requires n <= |es|
    ensures |xs| == n && forall i :: 0 <= i < n ==> xs[i] == Get(es[i], part)
  {
    if n == 0 then [] else Column(es, part, n - 1) + [Get(es[n - 1], part)]
  }

  function Currents(es: seq<Entry>): (xs: seq<int>)
    ensures |xs| == |es| && forall i :: 0 <= i < |es| ==> xs[i] == es[i].current
  {
    Column(es, Current, |es|)
  }

  function Effectives(es: seq<Entry>): (xs: seq<int>)
    ensures |xs| == |es| && forall i :: 0 <= i < |es| ==> xs[i] == es[i].effective
  {
    Column(es, Effective, |es|)
  }

  function Weights(es: seq<Entry>): (xs: seq<int>)
    ensures |xs| == |es| && forall i :: 0 <= i < |es| ==> xs[i] == es[i].weight
  {
    Column(es, Weight, |es|)
  }

  function SumTo(xs: seq<int>, n: nat): int
    requires n <= |xs|
  {
    if n == 0 then 0 else SumTo(xs, n - 1) + xs[n - 1]
  }

  function Sum(xs: seq<int>): int {
    SumTo(xs, |xs|)
  }

  /** The loop body on one server: add the effective weight, then let it ramp. */
  function Raise(e: Entry): Entry {
    Entry(e.weight, e.current + e.effective,
          if e.effective < e.weight then e.effective + 1 else e.effective)
  }

  /** The server the loop prefers among the first `n`: the first one with the greatest raised weight. */
  function Best(es: seq<Entry>, n: nat): (b: nat)
    requires 1 <= n <= |es|
    ensures b < n
    ensures forall i :: 0 <= i < n ==> Raise(es[i]).current <= Raise(es[b]).current
    ensures forall i :: 0 <= i < b ==> Raise(es[i]).current < Raise(es[b]).current
  {
    if n == 1 then 0
    else
      var b := Best(es, n - 1);
      if Raise(es[n - 1]).current > Raise(es[b]).current then n - 1 else b
  }

  function Chosen(es: seq<Entry>): (b: nat)
    requires es != []
    ensures b < |es|
  {
    Best(es, |es|)
  }

  /** The first `n` servers after a call that charges `total` to server `b`. */
  function Charged(es: seq<Entry>, n: nat, b: nat, total: int): (r: seq<Entry>)
    requires n <= |es|
    ensures |r| == n
    ensures forall i :: 0 <= i < n ==> r[i] == if i == b then Charge(es[i], total) else Raise(es[i])
  {
    if n == 0 then []
    else Charged(es, n - 1, b, total) + [if n - 1 == b then Charge(es[n - 1], total) else Raise(es[n - 1])]
  }

  function Charge(e: Entry, total: int): Entry {
    Raise(e).(current := Raise(e).current - total)
  }

  /** One whole call. */
  function Step(es: seq<Entry>): (r: seq<Entry>)
    requires es != []
    ensures |r| == |es|
  {
    Charged(es, |es|, Chosen(es), Sum(Effectives(es)))
  }

  function Run(es: seq<Entry>, k: nat): (r: seq<Entry>)
    requires es != []
    ensures |r| == |es|
  {
    if k == 0 then es else Step(Run(es, k - 1))
  }

  /** How often each server is chosen in the first `k` calls. */
  function Tally(es: seq<Entry>, k: nat): (t: seq<int>)
    requires es != []
    ensures |t| == |es| && forall i :: 0 <= i < |t| ==> t[i] >= 0
  {
    if k == 0 then seq(|es|, _ => 0)
    else
      var t, b := Tally(es, k - 1), Chosen(Run(es, k - 1));
      t[b := t[b] + 1]
  }

  /** A selector as `createWeighted` leaves it. */
  ghost predicate Initial(es: seq<Entry>) {
    && es != []
    && forall i :: 0 <= i < |es| ==> es[i].current == 0 && es[i].effective == es[i].weight
  }

  ghost predicate NonNegative(es: seq<Entry>) {
    forall i :: 0 <= i < |es| ==> es[i].weight >= 0
  }

  function Total(es: seq<Entry>): int {
    Sum(Weights(es))
  }

  // ----- Sums

  lemma {:induction false} SumToAdd(xs: seq<int>, ys: seq<int>, zs: seq<int>, n: nat)
    requires |xs| == |ys| == |zs| && n <= |xs|
    requires forall i :: 0 <= i < |xs| ==> zs[i] == xs[i] + ys[i]
    ensures SumTo(zs, n) == SumTo(xs, n) + SumTo(ys, n)
  {
    if n > 0 {
      SumToAdd(xs, ys, zs, n - 1);
    }
  }

  lemma {:induction false} SumToUpdate(xs: seq<int>, i: nat, v: int, n: nat)
    requires i < |xs| && n <= |xs|
    ensures SumTo(xs[i := v], n) == SumTo(xs, n) + if i < n then v - xs[i] else 0
  {
    if n > 0 {
      SumToUpdate(xs, i, v, n - 1);
    }
  }

  lemma {:induction false} SumToAtLeast(xs: seq<int>, lo: int, n: nat)
    requires n <= |xs| && forall i :: 0 <= i < |xs| ==> lo <= xs[i]
    ensures n * lo <= SumTo(xs, n)
  {
    if n > 0 {
      SumToAtLeast(xs, lo, n - 1);
      assert n * lo == (n - 1) * lo + lo;
    }
  }

  lemma {:induction false} SumToGrows(xs: seq<int>, m: nat, n: nat)
    requires m <= n <= |xs| && forall i :: 0 <= i < |xs| ==> 0 <= xs[i]
    ensures SumTo(xs, m) <= SumTo(xs, n)
    decreases n
  {
    if m < n {
      SumToGrows(xs, m, n - 1);
    }
  }

  lemma {:induction false} SumToAtMostZero(xs: seq<int>, n: nat)
    requires n <= |xs| && forall i :: 0 <= i < |xs| ==> xs[i] <= 0
    ensures SumTo(xs, n) <= 0
  {
    if n > 0 {
      SumToAtMostZero(xs, n - 1);
    }
  }

  /** One element is the sum less the others, each of which is at least `lo`. */
  lemma ElementAtMost(xs: seq<int>, i: nat, lo: int)
    requires i < |xs|
    requires forall j :: 0 <= j < |xs| ==> lo <= xs[j]
    ensures xs[i] <= Sum(xs) - (|xs| - 1) * lo
  {
    SumToUpdate(xs, i, lo, |xs|);
    SumToAtLeast(xs[i := lo], lo, |xs|);
    assert |xs| * lo == (|xs| - 1) * lo + lo;
  }

  lemma EqualSumsOfOrdered(xs: seq<int>, ys: seq<int>)
    requires |xs| == |ys| && Sum(xs) == Sum(ys)
    requires forall i :: 0 <= i < |xs| ==> xs[i] <= ys[i]
    ensures xs == ys
  {
    forall i | 0 <= i < |xs| ensures xs[i] == ys[i] {
      var ds := seq(|xs|, j requires 0 <= j < |xs| => ys[j] - xs[j]);
      SumToAdd(xs, ds, ys, |xs|);
      ElementAtMost(ds, i, 0);
    }
  }

  lemma {:induction false} SumToZeros(xs: seq<int>, n: nat)
    requires n <= |xs| && forall i :: 0 <= i < |xs| ==> xs[i] == 0
    ensures SumTo(xs, n) == 0
  {
    if n > 0 {
      SumToZeros(xs, n - 1);
    }
  }

  // ----- One call

  /** The chosen server has the greatest sum of current and effective weight, and is the first with it. */
  lemma ChosenIsFirstGreatest(es: seq<Entry>, i: nat)
    requires i < |es|
    ensures var b := Chosen(es);
      && es[i].current + es[i].effective <= es[b].current + es[b].effective
      && (i < b ==> es[i].current + es[i].effective < es[b].current + es[b].effective)
  {
    assert Raise(es[i]).current <= Raise(es[Chosen(es)]).current;
  }

  lemma StepEntry(es: seq<Entry>, i: nat)
    requires i < |es|
    ensures Step(es)[i] == if Chosen(es) == i then Charge(es[i], Sum(Effectives(es))) else Raise(es[i])
  {
  }

  /** Whatever the weights and however they ramp, a call conserves the sum of current weights. */
  lemma StepConservesSum(es: seq<Entry>)
    requires es != []
    ensures Sum(Currents(Step(es))) == Sum(Currents(es))
  {
    hide Step, Chosen, SumTo;
    var gains, b := Effectives(es), Chosen(es);
    var net := gains[b := gains[b] - Sum(gains)];
    SumToUpdate(gains, b, net[b], |es|);
    forall i | 0 <= i < |es| ensures Currents(Step(es))[i] == Currents(es)[i] + net[i] {
      StepEntry(es, i);
    }
    SumToAdd(Currents(es), net, Currents(Step(es)), |es|);
  }

  // ----- Runs from the initial state

  lemma {:induction false} RunKeepsWeights(es: seq<Entry>, k: nat)
    requires Initial(es)
    ensures forall i :: 0 <= i < |es| ==> Run(es, k)[i].weight == Run(es, k)[i].effective == es[i].weight
    ensures Effectives(Run(es, k)) == Weights(es)
  {
    hide Step, Chosen, Sum, Effectives, Weights;
    if k > 0 {
      var prev := Run(es, k - 1);
      RunKeepsWeights(es, k - 1);
      forall i | 0 <= i < |es|
        ensures Step(prev)[i].weight == Step(prev)[i].effective == es[i].weight
      {
        StepEntry(prev, i);
      }
    }
  }

  /** After `k` calls a current weight is the server's share of `k` calls less what its picks cost. */
  lemma {:induction false} RunFormula(es: seq<Entry>, k: nat, i: nat)
    requires Initial(es) && i < |es|
    ensures Run(es, k)[i]
         == Entry(es[i].weight, k * es[i].weight - Tally(es, k)[i] * Total(es), es[i].weight)
  {
    hide Step, Sum, Chosen;
    if k > 0 {
      var prev, w := Run(es, k - 1), es[i].weight;
      RunFormula(es, k - 1, i);
      RunKeepsWeights(es, k - 1);
      StepEntry(prev, i);
      assert k * w == (k - 1) * w + w;
      assert (Tally(es, k - 1)[i] + 1) * Total(es) == Tally(es, k - 1)[i] * Total(es) + Total(es);
    }
  }

  lemma {:induction false} RunSumIsZero(es: seq<Entry>, k: nat)
    requires Initial(es)
    ensures Sum(Currents(Run(es, k))) == 0
  {
    hide Step;
    if k == 0 {
      SumToZeros(Currents(es), |es|);
    } else {
      RunSumIsZero(es, k - 1);
      StepConservesSum(Run(es, k - 1));
    }
  }

  /** The greatest of several integers with a positive sum is positive. */
  lemma ChosenIsPositive(es: seq<Entry>)
    requires es != [] && Sum(Currents(es)) + Sum(Effectives(es)) > 0
    ensures Raise(es[Chosen(es)]).current > 0
  {
    hide SumTo;
    var raised := seq(|es|, i requires 0 <= i < |es| => Raise(es[i]).current);
    SumToAdd(Currents(es), Effectives(es), raised, |es|);
    if Raise(es[Chosen(es)]).current <= 0 {
      SumToAtMostZero(raised, |es|);
    }
  }

  lemma {:induction false} RunLowerBound(es: seq<Entry>, k: nat)
    requires Initial(es) && NonNegative(es) && Total(es) > 0
    ensures forall i :: 0 <= i < |es| ==> 1 - Total(es) <= Run(es, k)[i].current
  {
    hide Step;
    if k > 0 {
      var prev := Run(es, k - 1);
      RunLowerBound(es, k - 1);
      RunKeepsWeights(es, k - 1);
      RunSumIsZero(es, k - 1);
      ChosenIsPositive(prev);
      forall i | 0 <= i < |es| ensures 1 - Total(es) <= Run(es, k)[i].current {
        StepEntry(prev, i);
      }
    }
  }

  /** Every current weight lies in `[1 - W, (n - 1)(W - 1)]`. */
  lemma RunBounds(es: seq<Entry>, k: nat, i: nat)
    requires Initial(es) && NonNegative(es) && Total(es) > 0 && i < |es|
    ensures 1 - Total(es) <= Run(es, k)[i].current <= (|es| - 1) * (Total(es) - 1)
  {
    hide Step;
    RunLowerBound(es, k);
    RunSumIsZero(es, k);
    ElementAtMost(Currents(Run(es, k)), i, 1 - Total(es));
    assert (|es| - 1) * (1 - Total(es)) == -((|es| - 1) * (Total(es) - 1));
  }

  lemma DivideOut(w: int, x: int, y: int)
    requires w > 0
    ensures w * x < w * y + w ==> x <= y
  {
    if x > y {
      assert w * (x - y - 1) >= 0;
    }
  }

  /** No prefix of the schedule favours a server by a whole turn, and none starves it by more than `n - 1`. */
  lemma PrefixFairness(es: seq<Entry>, k: nat, i: nat)
    requires Initial(es) && NonNegative(es) && Total(es) > 0 && i < |es|
    ensures Total(es) * Tally(es, k)[i] < k * es[i].weight + Total(es)
    ensures k * es[i].weight <= Total(es) * Tally(es, k)[i] + (|es| - 1) * (Total(es) - 1)
    ensures es[i].weight == 0 ==> Tally(es, k)[i] == 0
  {
    hide Step, Chosen, Run, Tally, Total;
    RunBounds(es, k, i);
    RunFormula(es, k, i);
    if es[i].weight == 0 {
      DivideOut(Total(es), Tally(es, k)[i], 0);
    }
  }

  lemma {:induction false} TallyTotal(es: seq<Entry>, k: nat)
    requires es != []
    ensures Sum(Tally(es, k)) == k
  {
    hide Step, Chosen;
    if k == 0 {
      SumToZeros(Tally(es, 0), |es|);
    } else {
      TallyTotal(es, k - 1);
      var t, b := Tally(es, k - 1), Chosen(Run(es, k - 1));
      SumToUpdate(t, b, t[b] + 1, |es|);
    }
  }

  lemma PeriodShare(es: seq<Entry>, i: nat)
    requires Initial(es) && NonNegative(es) && Total(es) > 0 && i < |es|
    ensures Tally(es, Total(es))[i] <= es[i].weight
  {
    hide *;
    PrefixFairness(es, Total(es), i);
    DivideOut(Total(es), Tally(es, Total(es))[i], es[i].weight);
  }

  lemma PeriodEntry(es: seq<Entry>, i: nat)
    requires Initial(es) && Total(es) > 0 && i < |es| && Tally(es, Total(es))[i] == es[i].weight
    ensures Run(es, Total(es))[i] == es[i]
  {
    hide Step, Chosen, Run, Tally, Total;
    RunFormula(es, Total(es), i);
    assert Total(es) * es[i].weight == es[i].weight * Total(es);
  }

  /** One period: `W` calls choose each server exactly its weight's number of times and undo themselves. */
  lemma OnePeriod(es: seq<Entry>)
    requires Initial(es) && NonNegative(es) && Total(es) > 0
    ensures Tally(es, Total(es)) == Weights(es)
    ensures Run(es, Total(es)) == es
  {
    hide Step, Chosen, Run, Tally, SumTo;
    var w := Total(es);
    forall i | 0 <= i < |es| ensures Tally(es, w)[i] <= Weights(es)[i] {
      PeriodShare(es, i);
    }
    TallyTotal(es, w);
    EqualSumsOfOrdered(Tally(es, w), Weights(es));
    forall i | 0 <= i < |es| ensures Run(es, w)[i] == es[i] {
      PeriodEntry(es, i);
    }
  }

  lemma {:induction false} RunCompose(es: seq<Entry>, j: nat, k: nat)
    requires es != []
    ensures Run(es, j + k) == Run(Run(es, j), k)
  {
    hide Step;
    if k > 0 {
      RunCompose(es, j, k - 1);
    }
  }

  /** From any point of a run, the next `W` calls serve each server its weight and restore the state. */
  lemma EveryWindow(es: seq<Entry>, k: nat, i: nat)
    requires Initial(es) && NonNegative(es) && Total(es) > 0 && i < |es|
    ensures Run(es, k + Total(es)) == Run(es, k)
    ensures Tally(es, k + Total(es))[i] == Tally(es, k)[i] + es[i].weight
    ensures Chosen(Run(es, k + Total(es))) == Chosen(Run(es, k))
  {
    hide Step, Chosen, Run, Tally, Total;
    var w, c := Total(es), es[i].weight;
    OnePeriod(es);
    RunCompose(es, w, k);
    RunFormula(es, k, i);
    RunFormula(es, k + w, i);
    var before, after := Tally(es, k)[i], Tally(es, k + w)[i];
    assert w * after == w * (before + c) by {
      assert (k + w) * c == k * c + w * c;
    }
    DivideOut(w, after, before + c);
    DivideOut(w, before + c, after);
  }

  /** The weights are parsed from text, so they may be negative: the period law holds exactly when none is. */
  lemma PeriodIffNonNegative(es: seq<Entry>)
    requires Initial(es) && Total(es) >= 0
    ensures Tally(es, Total(es)) == Weights(es) <==> NonNegative(es)
  {
    hide Step, Chosen, Run, Sum, Weights;
    if NonNegative(es) && Total(es) > 0 {
      OnePeriod(es);
    } else if NonNegative(es) {
      forall i | 0 <= i < |es| ensures es[i].weight == 0 {
        ElementAtMost(Weights(es), i, 0);
        assert Weights(es)[i] == es[i].weight;
      }
    } else {
      var i :| 0 <= i < |es| && es[i].weight < 0;
      assert Tally(es, Total(es))[i] >= 0;
    }
  }

  lemma RunningTotal(es: seq<Entry>, k: nat, i: nat)
    requires Initial(es) && NonNegative(es) && i < |es|
    ensures 0 <= SumTo(Effectives(Run(es, k)), i + 1) <= Total(es)
  {
    hide Step, Chosen, Run, Tally;
    assert Effectives(Run(es, k)) == Weights(es) by {
      forall j | 0 <= j < |es| ensures Effectives(Run(es, k))[j] == Weights(es)[j] {
        RunFormula(es, k, j);
      }
    }
    SumToGrows(Weights(es), i + 1, |es|);
    SumToGrows(Weights(es), 0, i + 1);
  }

  /**
   * Every value `nextWeighted` forms, its running total included, stays within `n * W`, so Go's 64-bit
   * integers do not wrap when that fits.
   */
  lemma NoOverflow(es: seq<Entry>, k: nat, i: nat)
    requires Initial(es) && NonNegative(es) && Total(es) > 0 && i < |es|
    ensures -Total(es) < Run(es, k)[i].current <= Run(es, k)[i].current + Run(es, k)[i].effective
         <= |es| * Total(es)
    ensures 0 <= SumTo(Effectives(Run(es, k)), i + 1) <= Total(es)
  {
    hide Step, Chosen, Run, Tally;
    RunningTotal(es, k, i);
    RunBounds(es, k, i);
    RunFormula(es, k, i);
    var n, w := |es|, Total(es);
    assert es[i].weight <= w by {
      ElementAtMost(Weights(es), i, 0);
    }
    assert (n - 1) * (w - 1) + w == n * w - (n - 1);
  }

  // ----- The code

  class Weighted {
    const Server: string
    var Weight: int
    var CurrentWeight: int
    var EffectiveWeight: int

    constructor (server: string, weight: int)
      ensures Server == server && Value() == Entry(weight, 0, weight)
    {
      Server, Weight, CurrentWeight, EffectiveWeight := server, weight, 0, weight;
    }

    ghost function Value(): Entry
      reads this
    {
      Entry(Weight, CurrentWeight, EffectiveWeight)
    }

    /** The loop body of `nextWeighted` on this server. */
    method Gain() returns (effective: int)
      modifies this
      ensures effective == old(EffectiveWeight)
      ensures Value() == Raise(old(Value()))
    {
      effective := EffectiveWeight;
      CurrentWeight := CurrentWeight + EffectiveWeight;
      if EffectiveWeight < Weight {
        EffectiveWeight := EffectiveWeight + 1;
      }
    }
  }

  /** The servers that are not nil among the first `n`, in order; nil entries are skipped. */
  ghost function LiveTo(servers: seq<Weighted?>, n: nat): (ws: seq<Weighted>)
    requires n <= |servers|
  {
    if n == 0 then []
    else LiveTo(servers, n - 1) + if servers[n - 1] == null then [] else [servers[n - 1]]
  }

  ghost function Live(servers: seq<Weighted?>): (ws: seq<Weighted>) {
    LiveTo(servers, |servers|)
  }

  ghost predicate Distinct(ws: seq<Weighted>) {
    forall i, j :: 0 <= i < j < |ws| ==> ws[i] != ws[j]
  }

  ghost function Values(ws: seq<Weighted>): (es: seq<Entry>)
    reads ws
    ensures |es| == |ws| && forall i :: 0 <= i < |ws| ==> es[i] == ws[i].Value()
  {
    if ws == [] then [] else Values(ws[..|ws| - 1]) + [ws[|ws| - 1].Value()]
  }

  lemma {:induction false} LivePrefix(servers: seq<Weighted?>, n: nat)
    requires n <= |servers|
    ensures LiveTo(servers, n) <= Live(servers)
    decreases |servers| - n
  {
    if n < |servers| {
      LivePrefix(servers, n + 1);
    }
  }

  lemma LiveAll(servers: seq<Weighted?>)
    ensures Live(servers) == LiveTo(servers, |servers|)
  {
  }

  /** A live server sits in `Live` at the number of live servers before it. */
  lemma LiveAt(servers: seq<Weighted?>, i: nat)
    requires i < |servers| && servers[i] != null
    ensures |LiveTo(servers, i)| < |Live(servers)|
    ensures Live(servers)[|LiveTo(servers, i)|] == servers[i]
  {
    LivePrefix(servers, i + 1);
  }

  lemma LiveSteps(servers: seq<Weighted?>, i: nat)
    requires i <= |servers|
    ensures LiveTo(servers, 0) == []
    ensures i < |servers| ==> |LiveTo(servers, i + 1)| == |LiveTo(servers, i)| + if servers[i] == null then 0 else 1
  {
  }

  lemma SumToStep(xs: seq<int>, n: nat)
    requires n <= |xs|
    ensures SumTo(xs, 0) == 0
    ensures n < |xs| ==> SumTo(xs, n + 1) == SumTo(xs, n) + xs[n]
  {
  }

  lemma BestStep(es: seq<Entry>, n: nat)
    requires n < |es|
    ensures Best(es, n + 1)
         == if n > 0 && Raise(es[n]).current <= Raise(es[Best(es, n)]).current then Best(es, n) else n
  {
  }

  /** The loop: every live server gains its effective weight, and the best one is remembered. */
  method GainAll(servers: seq<Weighted?>) returns (best: Weighted?, total: int)
    requires Distinct(Live(servers))
    modifies Live(servers)
    ensures var live, before := Live(servers), old(Values(Live(servers)));
      && total == Sum(Effectives(before))
      && (forall j :: 0 <= j < |live| ==> live[j].Value() == Raise(before[j]))
      && best == if live == [] then null else live[Chosen(before)]
  {
    hide Live, LiveTo, Raise, Effectives, Values, SumTo, Best;
    LiveSteps(servers, 0);
    ghost var live := Live(servers);
    ghost var before, done := Values(live), 0;
    SumToStep(Effectives(before), 0);
    best, total := null, 0;
    for i := 0 to |servers|
      invariant 0 <= done == |LiveTo(servers, i)| <= |live|
      invariant total == SumTo(Effectives(before), done)
      invariant forall j :: 0 <= j < done ==> live[j].Value() == Raise(before[j])
      invariant forall j :: done <= j < |live| ==> live[j].Value() == before[j]
      invariant best == if done == 0 then null else live[Best(before, done)]
    {
      var w := servers[i];
      LiveSteps(servers, i);
      if w != null {
        LiveAt(servers, i);
        SumToStep(Effectives(before), done);
        BestStep(before, done);
        var effective := w.Gain();
        total := total + effective;
        if best == null || w.CurrentWeight > best.CurrentWeight {
          best := w;
        }
        done := done + 1;
      }
    }
    LiveAll(servers);
  }

  method NextWeighted(servers: seq<Weighted?>) returns (best: Weighted?)
    requires Distinct(Live(servers))
    modifies Live(servers)
    ensures best == null <==> Live(servers) == []
    ensures best != null ==>
      && Values(Live(servers)) == Step(old(Values(Live(servers))))
      && best == Live(servers)[Chosen(old(Values(Live(servers))))]
    ensures var live := Live(servers);
      best != null ==> exists b :: 0 <= b < |live| && live[b] == best && forall j :: 0 <= j < |live| ==>
        && old(live[j].CurrentWeight + live[j].EffectiveWeight) <= old(live[b].CurrentWeight + live[b].EffectiveWeight)
        && (j < b ==>
              old(live[j].CurrentWeight + live[j].EffectiveWeight) < old(live[b].CurrentWeight + live[b].EffectiveWeight))
    ensures var live, total := Live(servers), Sum(Effectives(old(Values(Live(servers)))));
      forall j :: 0 <= j < |live| ==>
        && live[j].CurrentWeight
           == old(live[j].CurrentWeight + live[j].EffectiveWeight) - (if live[j] == best then total else 0)
        && live[j].EffectiveWeight
           == old(if live[j].EffectiveWeight < live[j].Weight then live[j].EffectiveWeight + 1 else live[j].EffectiveWeight)
        && live[j].Weight == old(live[j].Weight)
  {
    hide Live, Step, Chosen, Sum, Effectives, Values;
    ghost var live := Live(servers);
    ghost var before := Values(live);
    var total;
    best, total := GainAll(servers);
    if best != null {
      best.CurrentWeight := best.CurrentWeight - total;
      ghost var b := Chosen(before);
      forall j | 0 <= j < |live|
        ensures Values(live)[j] == Step(before)[j]
        ensures before[j].current + before[j].effective <= before[b].current + before[b].effective
        ensures j < b ==> before[j].current + before[j].effective < before[b].current + before[b].effective
      {
        StepEntry(before, j);
        ChosenIsFirstGreatest(before, j);
      }
      assert live[b] == best;
    }
  }

  lemma {:induction false} LiveOfLive(ws: seq<Weighted>, n: nat)
    requires n <= |ws|
    ensures LiveTo(ws, n) == ws[..n]
  {
    if n > 0 {
      LiveOfLive(ws, n - 1);
    }
  }

  /** The weight a server's metadata asks for, or 1; `parse` stands for the query and integer parsers. */
  function WeightOf(parse: string -> Option<int>, metadata: string): int {
    match parse(metadata)
    case None => 1
    case Some(w) => w
  }

  method CreateWeighted(servers: map<string, string>, names: seq<string>, parse: string -> Option<int>)
    returns (ws: seq<Weighted>)
    requires IsIterationOrder(names, servers)
    ensures fresh(ws) && Distinct(ws) && |ws| == |names|
    ensures forall i :: 0 <= i < |ws| ==> ws[i].Server == names[i]
    ensures forall i :: 0 <= i < |ws| ==>
      var w := WeightOf(parse, servers[names[i]]); Values(ws)[i] == Entry(w, 0, w)
  {
    ws := [];
    for i := 0 to |names|
      invariant |ws| == i && fresh(ws) && Distinct(ws)
      invariant forall j :: 0 <= j < i ==> ws[j].Server == names[j]
      invariant forall j :: 0 <= j < i ==>
        var w := WeightOf(parse, servers[names[j]]); ws[j].Value() == Entry(w, 0, w)
    {
      var w := new Weighted(names[i], WeightOf(parse, servers[names[i]]));
      ws := ws + [w];
    }
  }

  class Selector {
    var servers: seq<Weighted?>

    ghost predicate Valid()
      reads this
    {
      Distinct(Live(servers))
    }

    constructor ()
      ensures Valid() && servers == []
    {
      servers := [];
    }

    /** Installs new servers, forgetting every weight of the old ones. */
    method UpdateServer(names: seq<string>, metadata: map<string, string>, parse: string -> Option<int>)
      requires IsIterationOrder(names, metadata)
      modifies this
      ensures Valid() && fresh(Live(servers))
      ensures |Live(servers)| == |names|
      ensures forall i :: 0 <= i < |names| ==> Live(servers)[i].Server == names[i]
      ensures names != [] ==> Initial(Values(Live(servers)))
    {
      var ws := CreateWeighted(metadata, names, parse);
      servers := ws;
      LiveOfLive(ws, |ws|);
      assert Live(servers) == ws;
    }

    method Select() returns (server: string)
      requires Valid()
      modifies Live(servers)
      ensures Valid()
      ensures Live(servers) == [] ==> server == ""
      ensures Live(servers) != [] ==>
        && Values(Live(servers)) == Step(old(Values(Live(servers))))
        && server == Live(servers)[Chosen(old(Values(Live(servers))))].Server
      ensures var live := Live(servers);
        live != [] ==> exists b :: 0 <= b < |live| && live[b].Server == server && forall j :: 0 <= j < |live| ==>
          && old(live[j].CurrentWeight + live[j].EffectiveWeight) <= old(live[b].CurrentWeight + live[b].EffectiveWeight)
          && (j < b ==>
                old(live[j].CurrentWeight + live[j].EffectiveWeight) < old(live[b].CurrentWeight + live[b].EffectiveWeight))
    {
      hide Live, Step, Chosen, Values;
      var w := NextWeighted(servers);
      server := if w == null then "" else w.Server;
    }
  }
}
