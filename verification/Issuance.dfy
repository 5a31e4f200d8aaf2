/** Issuing the vested tokens in batches, each sent with the supply that must stand after it. */
module Issuance {

  const MAX_HOLDERS_IN_ONE_TX: nat := 30

  datatype Batch = Batch(holders: seq<string>, amounts: seq<int>, endTotalSupply: int)

  function Sum(amounts: seq<int>): int {
    if amounts == [] then 0 else Sum(amounts[..|amounts| - 1]) + amounts[|amounts| - 1]
  }

  method BigSum(amounts: seq<int>, initialAmount: int) returns (sum: int)
    ensures sum == initialAmount + Sum(amounts)
  {
    sum := initialAmount;
    for i := 0 to |amounts|
      invariant sum == initialAmount + Sum(amounts[..i])
    {
      assert amounts[..i + 1][..i] == amounts[..i];
      sum := sum + amounts[i];
    }
    assert amounts[..|amounts|] == amounts;
  }

  lemma {:induction false} SumConcat(x: seq<int>, y: seq<int>)
    ensures Sum(x + y) == Sum(x) + Sum(y)
  {
    if y == [] {
      assert x + y == x;
    } else {
      assert (x + y)[..|x + y| - 1] == x + y[..|y| - 1];
      SumConcat(x, y[..|y| - 1]);
    }
  }

  function AllHolders(batches: seq<Batch>): seq<string> {
    if batches == [] then [] else AllHolders(batches[..|batches| - 1]) + batches[|batches| - 1].holders
  }

  function AllAmounts(batches: seq<Batch>): seq<int> {
    if batches == [] then [] else AllAmounts(batches[..|batches| - 1]) + batches[|batches| - 1].amounts
  }

  /** `array.slice(from, to)`: cut at the end of the array. */
  function Slice<T>(s: seq<T>, from: nat, to: nat): seq<T>
    requires from <= to
  {
    s[if from < |s| then from else |s|..if to < |s| then to else |s|]
  }

  function Min(a: int, b: int): int {
    if a < b then a else b
  }

  /** A batch of at most 30 holders with their amounts, and the supply of all batches up to it. */
  ghost predicate BatchOk(batches: seq<Batch>, i: nat)
    requires i < |batches|
  {
    && 0 < |batches[i].holders| == |batches[i].amounts| <= MAX_HOLDERS_IN_ONE_TX
    && batches[i].endTotalSupply == Sum(AllAmounts(batches[..i + 1]))
  }

  /** Where batch `i` starts. */
  function StartOf(i: nat, h: nat): nat {
    if i == 0 then 0 else StartOf(i - 1, h) + h
  }

  /** Batch `i` starts inside a list of `n` holders. */
  predicate StartsInside(i: nat, h: nat, n: nat) {
    StartOf(i, h) < n
  }

  lemma {:induction false} StartIsProduct(i: nat, h: nat)
    ensures StartOf(i, h) == i * h
  {
    if i > 0 {
      StartIsProduct(i - 1, h);
      assert i * h == (i - 1) * h + h;
    }
  }

  lemma {:induction false} ProductGrows(i: nat, j: nat, h: nat)
    requires i <= j
    ensures i * h <= j * h
  {}

  /** `Math.ceil(n / h)`: one batch for every start that lies inside the list. For an empty list
      that is 0/0, not a number, and no batch is sent. */
  method TotalTxes(n: nat, h: nat) returns (total: nat)
    requires h == 0 ==> n == 0
    ensures forall i: nat :: i < total <==> StartsInside(i, h, n)
  {
    if h == 0 {
      return 0;
    }
    total := (n + h - 1) / h;
    forall i: nat ensures i < total <==> StartsInside(i, h, n) {
      InsideIsBelowCeiling(n, h, total, i);
    }
  }

  lemma {:induction false} InsideIsBelowCeiling(n: nat, h: nat, q: nat, i: nat)
    requires h > 0 && q == (n + h - 1) / h
    ensures i < q <==> StartsInside(i, h, n)
  {
    assert n + h - 1 == q * h + (n + h - 1) % h;
    StartIsProduct(i, h);
    if i < q {
      ProductGrows(i + 1, q, h);
      assert (i + 1) * h == i * h + h;
    } else {
      ProductGrows(q, i, h);
    }
  }

  lemma {:induction false} PushBatch(batches: seq<Batch>, b: Batch)
    requires forall i | 0 <= i < |batches| :: BatchOk(batches, i)
    requires 0 < |b.holders| == |b.amounts| <= MAX_HOLDERS_IN_ONE_TX
    requires b.endTotalSupply == Sum(AllAmounts(batches)) + Sum(b.amounts)
    ensures forall i | 0 <= i <= |batches| :: BatchOk(batches + [b], i)
    ensures AllHolders(batches + [b]) == AllHolders(batches) + b.holders
    ensures AllAmounts(batches + [b]) == AllAmounts(batches) + b.amounts
  {
    var longer := batches + [b];
    assert longer[..|batches|] == batches && longer[..|longer|] == longer;
    SumConcat(AllAmounts(batches), b.amounts);
    forall i | 0 <= i <= |batches| ensures BatchOk(longer, i) {
      if i < |batches| {
        assert BatchOk(batches, i) && longer[..i + 1] == batches[..i + 1];
      }
    }
  }

  /** The first `count` batches hold `h` holders each. */
  ghost predicate Full(batches: seq<Batch>, h: int, count: int)
    requires count <= |batches|
  {
    forall i | 0 <= i < count :: |batches[i].holders| == h
  }

  /** The batches cover the first `to` holders, in order; only the last one may be short. */
  ghost predicate Covers(batches: seq<Batch>, holders: seq<string>, amounts: seq<int>, to: nat) {
    && (forall i | 0 <= i < |batches| :: BatchOk(batches, i))
    && Full(batches, Min(MAX_HOLDERS_IN_ONE_TX, |holders|), if to <= |holders| then |batches| else |batches| - 1)
    && AllHolders(batches) == Slice(holders, 0, to)
    && AllAmounts(batches) == Slice(amounts, 0, to)
  }

  lemma {:induction false} CoversMore(batches: seq<Batch>, b: Batch, holders: seq<string>, amounts: seq<int>,
                                      from: nat, to: nat)
    requires |holders| == |amounts| && from < |holders| && to == from + Min(MAX_HOLDERS_IN_ONE_TX, |holders|)
    requires Covers(batches, holders, amounts, from)
    requires b.holders == Slice(holders, from, to) && b.amounts == Slice(amounts, from, to)
    requires b.endTotalSupply == Sum(Slice(amounts, 0, from)) + Sum(b.amounts)
    ensures Covers(batches + [b], holders, amounts, to)
    ensures Sum(Slice(amounts, 0, to)) == b.endTotalSupply
  {
    PushBatch(batches, b);
    SliceGrows(holders, from, to);
    SliceGrows(amounts, from, to);
    SumConcat(Slice(amounts, 0, from), b.amounts);
    FullMore(batches, b, Min(MAX_HOLDERS_IN_ONE_TX, |holders|), if to <= |holders| then |batches| + 1 else |batches|);
  }

  lemma {:induction false} FullMore(batches: seq<Batch>, b: Batch, h: int, count: int)
    requires count <= |batches| + 1 && Full(batches, h, if count <= |batches| then count else |batches|)
    requires count == |batches| + 1 ==> |b.holders| == h
    ensures Full(batches + [b], h, count)
  {
    var longer := batches + [b];
    forall i | 0 <= i < count ensures |longer[i].holders| == h {
      assert i < |batches| ==> longer[i] == batches[i];
    }
  }

  method IssueTokens(holders: seq<string>, amounts: seq<int>, unvestedTokensAmount: int)
    returns (totalSupply: int, batches: seq<Batch>)
    requires |holders| == |amounts|
    ensures totalSupply == unvestedTokensAmount + Sum(amounts)
    ensures forall i | 0 <= i < |batches| :: BatchOk(batches, i)
    ensures AllHolders(batches) == holders && AllAmounts(batches) == amounts
    ensures ThirtyEach(batches)
    ensures holders != [] ==>
              |batches| > 0 && totalSupply == batches[|batches| - 1].endTotalSupply + unvestedTokensAmount
  {
    totalSupply := BigSum(amounts, unvestedTokensAmount);
    batches := [];
    var holdersInOneTx := Min(MAX_HOLDERS_IN_ONE_TX, |holders|);
    var totalTxes := TotalTxes(|holders|, holdersInOneTx);
    var endTotalSupply := 0;
    for i := 0 to totalTxes
      invariant |batches| == i && Covers(batches, holders, amounts, StartOf(i, holdersInOneTx))
      invariant endTotalSupply == Sum(Slice(amounts, 0, StartOf(i, holdersInOneTx)))
      invariant i > 0 ==> batches[i - 1].endTotalSupply == endTotalSupply
    {
      assert StartsInside(i, holdersInOneTx, |holders|);
      var startIndex := StartIndex(i, holdersInOneTx);
      batches, endTotalSupply := SendBatch(batches, holders, amounts, startIndex, holdersInOneTx, endTotalSupply);
      assert StartOf(i + 1, holdersInOneTx) == startIndex + holdersInOneTx;
    }
    AllCovered(batches, holders, amounts, totalTxes, holdersInOneTx);
    FullMeansThirty(batches, holders);
  }

  /** If there is more than one batch, there are more holders than fit in one. */
  lemma {:induction false} FullMeansThirty(batches: seq<Batch>, holders: seq<string>)
    requires AllHolders(batches) == holders && forall i | 0 <= i < |batches| :: BatchOk(batches, i)
    requires Full(batches, Min(MAX_HOLDERS_IN_ONE_TX, |holders|), |batches| - 1)
    ensures ThirtyEach(batches)
  {
    forall i | 0 <= i < |batches| ensures 0 < |batches[i].holders| <= 30 {
      assert BatchOk(batches, i);
    }
    if |batches| > 1 {
      NotMoreThanAll(batches, 0, |batches| - 1);
      assert |batches[0].holders| == Min(MAX_HOLDERS_IN_ONE_TX, |holders|);
    }
  }

  /** Thirty holders in every batch but the last, which has at least one and at most thirty. */
  ghost predicate ThirtyEach(batches: seq<Batch>) {
    && (forall i | 0 <= i < |batches| :: 0 < |batches[i].holders| <= 30)
    && (forall i | 0 <= i < |batches| - 1 :: |batches[i].holders| == 30)
  }

  lemma {:induction false} NotMoreThanAll(batches: seq<Batch>, i: nat, last: nat)
    requires i < last < |batches|
    ensures |batches[i].holders| + |batches[last].holders| <= |AllHolders(batches)|
  {
    if last < |batches| - 1 {
      NotMoreThanAll(batches[..|batches| - 1], i, last);
    } else {
      OneOfAll(batches[..last], i);
    }
  }

  lemma {:induction false} OneOfAll(batches: seq<Batch>, i: nat)
    requires i < |batches|
    ensures |batches[i].holders| <= |AllHolders(batches)|
  {
    if i < |batches| - 1 {
      OneOfAll(batches[..|batches| - 1], i);
    }
  }

  /** One round of the loop: the next holders, their amounts, and the supply with them included. */
  method SendBatch(batches: seq<Batch>, holders: seq<string>, amounts: seq<int>, startIndex: nat,
                   holdersInOneTx: nat, supply: int)
    returns (batches': seq<Batch>, endTotalSupply: int)
    requires |holders| == |amounts| && startIndex < |holders|
    requires holdersInOneTx == Min(MAX_HOLDERS_IN_ONE_TX, |holders|)
    requires Covers(batches, holders, amounts, startIndex) && supply == Sum(Slice(amounts, 0, startIndex))
    ensures |batches'| == |batches| + 1 && batches'[|batches|].endTotalSupply == endTotalSupply
    ensures Covers(batches', holders, amounts, startIndex + holdersInOneTx)
    ensures endTotalSupply == Sum(Slice(amounts, 0, startIndex + holdersInOneTx))
  {
    var iHolders := Slice(holders, startIndex, startIndex + holdersInOneTx);
    var iAmounts := Slice(amounts, startIndex, startIndex + holdersInOneTx);
    var batchSum := BigSum(iAmounts, 0);
    endTotalSupply := supply + batchSum;
    var batch := Batch(iHolders, iAmounts, endTotalSupply);
    CoversMore(batches, batch, holders, amounts, startIndex, startIndex + holdersInOneTx);
    batches' := batches + [batch];
  }

  method StartIndex(i: nat, holdersInOneTx: nat) returns (startIndex: nat)
    ensures startIndex == StartOf(i, holdersInOneTx)
  {
    StartIsProduct(i, holdersInOneTx);
    startIndex := i * holdersInOneTx;
  }

  lemma {:induction false} AllCovered(batches: seq<Batch>, holders: seq<string>, amounts: seq<int>, n: nat, h: nat)
    requires |holders| == |amounts|
    requires h == Min(MAX_HOLDERS_IN_ONE_TX, |holders|) && forall i: nat :: i < n <==> StartsInside(i, h, |holders|)
    requires Covers(batches, holders, amounts, StartOf(n, h))
    ensures AllHolders(batches) == holders && AllAmounts(batches) == amounts
    ensures Slice(amounts, 0, StartOf(n, h)) == amounts == Slice(amounts, 0, |amounts|)
    ensures holders != [] ==> n > 0
  {
    assert !StartsInside(n, h, |holders|);
    assert 0 < n <==> StartsInside(0, h, |holders|);
  }

  lemma {:induction false} SliceGrows<T>(s: seq<T>, from: nat, to: nat)
    requires from <= to
    ensures Slice(s, 0, to) == Slice(s, 0, from) + Slice(s, from, to)
  {}

  // ---------------------------------------------------------------------------------------------
  // The check made after the deployment.

  /** `amounts.reduce((acc, value) => acc.add(value), initial)`. */
  function Reduce(amounts: seq<int>, acc: int): int {
    if amounts == [] then acc else Reduce(amounts[1..], acc + amounts[0])
  }

  /** The supply that the deployment check expects is the one the issuer announces. */
  lemma {:induction false} ExpectedTotalSupply(amounts: seq<int>, unvestedTokensAmount: int)
    ensures Reduce(amounts, unvestedTokensAmount) == unvestedTokensAmount + Sum(amounts)
  {
    if amounts != [] {
      ExpectedTotalSupply(amounts[1..], unvestedTokensAmount + amounts[0]);
      assert amounts == [amounts[0]] + amounts[1..];
      SumConcat([amounts[0]], amounts[1..]);
      assert [amounts[0]][..0] == [];
      assert Sum([amounts[0]]) == amounts[0];
    }
  }
}
