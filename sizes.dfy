/** Size discovery (dsde.cpp:28-33): the sparse send plan of one process becomes
    a dense vector with one size per destination, and the all-to-all exchange of
    these vectors, seen over all processes at once, transposes the matrix whose
    row r is process r's dense send-size vector. */
module Sizes {
  import opened Shape

  /** Every destination rank of the plan names a process of a group of size p. */
  predicate RanksInGroup(p: nat, sranks: seq<int>)
  {
    forall i :: 0 <= i < |sranks| ==> 0 <= sranks[i] < p
  }

  /** The dense vector after the first i entries of the plan have been stored
      (one more iteration of the loop at dsde.cpp:31 per step). */
  function DenseUpTo(p: nat, sranks: seq<int>, sendcounts: seq<nat>, i: nat): (s: seq<nat>)
    requires |sranks| == |sendcounts| && i <= |sranks|
    requires RanksInGroup(p, sranks)
    ensures |s| == p
  {
    if i == 0 then seq(p, _ => 0)
    else DenseUpTo(p, sranks, sendcounts, i - 1)[sranks[i - 1] := sendcounts[i - 1]]
  }

  /** `ssizes` once the whole plan has been stored. */
  function DenseSizesOf(p: nat, sranks: seq<int>, sendcounts: seq<nat>): (s: seq<nat>)
    requires |sranks| == |sendcounts|
    requires RanksInGroup(p, sranks)
    ensures |s| == p
  {
    DenseUpTo(p, sranks, sendcounts, |sranks|)
  }

  /** A rank that no entry among the first i names is still 0. */
  lemma {:induction false} DenseUpToUnwritten(p: nat, sranks: seq<int>, sendcounts: seq<nat>, i: nat, r: nat)
    requires |sranks| == |sendcounts| && i <= |sranks|
    requires RanksInGroup(p, sranks)
    requires r < p
    requires forall j :: 0 <= j < i ==> sranks[j] != r
    ensures DenseUpTo(p, sranks, sendcounts, i)[r] == 0
  {
    if i > 0 {
      DenseUpToUnwritten(p, sranks, sendcounts, i - 1, r);
    }
  }

  /** A rank named by entry j, and by no later entry among the first i, holds
      the count of entry j: the last write wins. */
  lemma {:induction false} DenseUpToLastWrite(p: nat, sranks: seq<int>, sendcounts: seq<nat>, i: nat, j: nat, r: nat)
    requires |sranks| == |sendcounts| && i <= |sranks|
    requires RanksInGroup(p, sranks)
    requires r < p
    requires j < i && sranks[j] == r
    requires forall j' :: j < j' < i ==> sranks[j'] != r
    ensures DenseUpTo(p, sranks, sendcounts, i)[r] == sendcounts[j]
  {
    if j < i - 1 {
      DenseUpToLastWrite(p, sranks, sendcounts, i - 1, j, r);
    }
  }

  /** The same for the complete plan. */
  lemma DenseSizesAt(p: nat, sranks: seq<int>, sendcounts: seq<nat>, r: nat)
    requires |sranks| == |sendcounts|
    requires RanksInGroup(p, sranks)
    requires r < p
    ensures (forall j :: 0 <= j < |sranks| ==> sranks[j] != r) ==> DenseSizesOf(p, sranks, sendcounts)[r] == 0
    ensures forall j :: 0 <= j < |sranks| && sranks[j] == r && (forall j' :: j < j' < |sranks| ==> sranks[j'] != r) ==>
              DenseSizesOf(p, sranks, sendcounts)[r] == sendcounts[j]
  {
    if forall j :: 0 <= j < |sranks| ==> sranks[j] != r {
      DenseUpToUnwritten(p, sranks, sendcounts, |sranks|, r);
    }
    forall j | 0 <= j < |sranks| && sranks[j] == r && (forall j' :: j < j' < |sranks| ==> sranks[j'] != r)
      ensures DenseSizesOf(p, sranks, sendcounts)[r] == sendcounts[j]
    {
      DenseUpToLastWrite(p, sranks, sendcounts, |sranks|, j, r);
    }
  }

  /** dsde.cpp:30-31: a zero-filled vector of length p, written by index for
      every entry of the send plan in turn. */
  method DenseSizes(p: nat, sranks: seq<int>, sendcounts: seq<nat>) returns (ssizes: seq<nat>)
    requires |sranks| == |sendcounts|
    requires RanksInGroup(p, sranks)
    ensures ssizes == DenseSizesOf(p, sranks, sendcounts)
  {
    var a := new nat[p](_ => 0);
    var i := 0;
    while i < |sranks|
      invariant 0 <= i <= |sranks|
      invariant a[..] == DenseUpTo(p, sranks, sendcounts, i)
    {
      a[sranks[i]] := sendcounts[i];
      i := i + 1;
    }
    ssizes := a[..];
  }

  /** A p-by-p matrix: row q is process q's dense size vector. */
  predicate IsSquare(m: seq<seq<nat>>)
  {
    forall q :: 0 <= q < |m| ==> |m[q]| == |m|
  }

  /** MPI_Alltoall with one int per destination (dsde.cpp:33), over the whole
      group: process q's `rsizes` at r is what process r put at q. */
  function AllToAll(m: seq<seq<nat>>): (t: seq<seq<nat>>)
    requires IsSquare(m)
    ensures IsSquare(t) && |t| == |m|
  {
    seq(|m|, q requires 0 <= q < |m| => seq(|m|, r requires 0 <= r < |m| => m[r][q]))
  }

  /** Exchanging twice gives every process its own vector back. */
  lemma AllToAllInvolutive(m: seq<seq<nat>>)
    requires IsSquare(m)
    ensures AllToAll(AllToAll(m)) == m
  {
    var t := AllToAll(AllToAll(m));
    forall q | 0 <= q < |m|
      ensures t[q] == m[q]
    {
    }
  }

  /** One send plan per process: destination ranks with their counts and
      displacements. */
  datatype SendPlan = SendPlan(sranks: seq<int>, sendcounts: seq<nat>, sdispls: seq<nat>)

  predicate PlanValid(p: nat, plan: SendPlan)
  {
    |plan.sranks| == |plan.sendcounts| == |plan.sdispls| && RanksInGroup(p, plan.sranks)
  }

  /** Row q of the global size matrix is what DenseSizes computes on process q. */
  predicate IsSizeMatrix(plans: seq<SendPlan>, m: seq<seq<nat>>)
  {
    |m| == |plans| &&
    (forall q :: 0 <= q < |plans| ==> PlanValid(|plans|, plans[q])) &&
    (forall q :: 0 <= q < |plans| ==>
      m[q] == DenseSizesOf(|plans|, plans[q].sranks, plans[q].sendcounts))
  }

  /** After the exchange, process q learns for every source r exactly what r's
      plan sends to q: nothing if r's plan never names q, else the count of the
      last entry of r's plan that names q. */
  lemma ReceivedFromPlan(plans: seq<SendPlan>, m: seq<seq<nat>>, q: nat, r: nat)
    requires IsSizeMatrix(plans, m)
    requires q < |plans| && r < |plans|
    ensures IsSquare(m)
    ensures (forall j :: 0 <= j < |plans[r].sranks| ==> plans[r].sranks[j] != q) ==> AllToAll(m)[q][r] == 0
    ensures forall j :: (0 <= j < |plans[r].sranks| && plans[r].sranks[j] == q &&
                         (forall j' :: j < j' < |plans[r].sranks| ==> plans[r].sranks[j'] != q)) ==>
              AllToAll(m)[q][r] == plans[r].sendcounts[j]
  {
    DenseSizesAt(|plans|, plans[r].sranks, plans[r].sendcounts, q);
  }

  // Sums over a matrix, used to state that the exchange conserves volume.

  /** Sum of the first i rows of m. */
  function RowsTotal(m: seq<seq<nat>>, i: nat): (sum: nat)
    requires i <= |m|
  {
    if i == 0 then 0 else RowsTotal(m, i - 1) + Total(m[i - 1])
  }

  /** Sum of column j over the first i rows of m. */
  function ColumnUpTo(m: seq<seq<nat>>, j: nat, i: nat): (sum: nat)
    requires i <= |m|
    requires forall q :: 0 <= q < i ==> j < |m[q]|
  {
    if i == 0 then 0 else ColumnUpTo(m, j, i - 1) + m[i - 1][j]
  }

  /** Sum of the first k columns over the first i rows of m. */
  function ColumnsUpTo(m: seq<seq<nat>>, k: nat, i: nat): (sum: nat)
    requires i <= |m|
    requires forall q :: 0 <= q < i ==> k <= |m[q]|
  {
    if k == 0 then 0 else ColumnsUpTo(m, k - 1, i) + ColumnUpTo(m, k - 1, i)
  }

  lemma {:induction false} ColumnsAddRow(m: seq<seq<nat>>, k: nat, i: nat)
    requires i < |m|
    requires forall q :: 0 <= q <= i ==> k <= |m[q]|
    ensures ColumnsUpTo(m, k, i + 1) == ColumnsUpTo(m, k, i) + SumUpTo(m[i], k)
  {
    if k > 0 {
      ColumnsAddRow(m, k - 1, i);
    }
  }

  lemma {:induction false} ColumnsOfNoRows(m: seq<seq<nat>>, k: nat)
    ensures ColumnsUpTo(m, k, 0) == 0
  {
    if k > 0 {
      ColumnsOfNoRows(m, k - 1);
    }
  }

  lemma {:induction false} RowsEqualColumns(m: seq<seq<nat>>, w: nat, i: nat)
    requires i <= |m|
    requires forall q :: 0 <= q < |m| ==> |m[q]| == w
    ensures RowsTotal(m, i) == ColumnsUpTo(m, w, i)
  {
    if i > 0 {
      RowsEqualColumns(m, w, i - 1);
      ColumnsAddRow(m, w, i - 1);
      assert Total(m[i - 1]) == SumUpTo(m[i - 1], w);
    } else {
      ColumnsOfNoRows(m, w);
    }
  }

  lemma {:induction false} ReceivedPrefix(m: seq<seq<nat>>, q: nat, i: nat)
    requires IsSquare(m) && q < |m| && i <= |m|
    ensures SumUpTo(AllToAll(m)[q], i) == ColumnUpTo(m, q, i)
  {
    if i > 0 {
      ReceivedPrefix(m, q, i - 1);
    }
  }

  /** Process q's `rbufsize` is the sum, over all processes, of what each of
      them put at index q of its dense send-size vector. */
  lemma ReceivedTotal(m: seq<seq<nat>>, q: nat)
    requires IsSquare(m) && q < |m|
    ensures Total(AllToAll(m)[q]) == ColumnUpTo(m, q, |m|)
  {
    ReceivedPrefix(m, q, |m|);
  }

  lemma {:induction false} ReceivedRows(m: seq<seq<nat>>, k: nat)
    requires IsSquare(m) && k <= |m|
    ensures RowsTotal(AllToAll(m), k) == ColumnsUpTo(m, k, |m|)
  {
    if k > 0 {
      ReceivedRows(m, k - 1);
      ReceivedTotal(m, k - 1);
    }
  }

  /** Over the whole group, the elements all processes will receive add up to
      the totals of all dense send-size vectors. */
  lemma ExchangeConservesVolume(m: seq<seq<nat>>)
    requires IsSquare(m)
    ensures RowsTotal(AllToAll(m), |m|) == RowsTotal(m, |m|)
  {
    ReceivedRows(m, |m|);
    RowsEqualColumns(m, |m|, |m|);
  }

  // What the plans send, as opposed to what their dense vectors announce.

  /** The elements the first i entries of a plan send to rank q: one
      `MPI_Isend` per entry (dsde.cpp:40-42). */
  function SentTo(sranks: seq<int>, sendcounts: seq<nat>, q: nat, i: nat): (sent: nat)
    requires |sranks| == |sendcounts| && i <= |sranks|
  {
    if i == 0 then 0
    else SentTo(sranks, sendcounts, q, i - 1) + (if sranks[i - 1] == q then sendcounts[i - 1] else 0)
  }

  /** No destination rank appears twice in the plan. */
  predicate NoRepeatedDestination(sranks: seq<int>)
  {
    forall j, j' :: 0 <= j < j' < |sranks| ==> sranks[j] != sranks[j']
  }

  /** Without a repeated destination, the dense vector holds at q exactly the
      elements the plan sends to q. */
  lemma {:induction false} DenseUpToIsSentTo(p: nat, sranks: seq<int>, sendcounts: seq<nat>, i: nat, q: nat)
    requires |sranks| == |sendcounts| && i <= |sranks|
    requires RanksInGroup(p, sranks) && NoRepeatedDestination(sranks)
    requires q < p
    ensures DenseUpTo(p, sranks, sendcounts, i)[q] == SentTo(sranks, sendcounts, q, i)
  {
    if i > 0 {
      DenseUpToIsSentTo(p, sranks, sendcounts, i - 1, q);
      if sranks[i - 1] == q {
        DenseUpToUnwritten(p, sranks, sendcounts, i - 1, q);
      }
    }
  }

  /** The elements the first i processes' plans send to q. */
  function PlansSentTo(plans: seq<SendPlan>, q: nat, i: nat): (sent: nat)
    requires i <= |plans|
    requires forall r :: 0 <= r < i ==> |plans[r].sranks| == |plans[r].sendcounts|
  {
    if i == 0 then 0
    else PlansSentTo(plans, q, i - 1) +
         SentTo(plans[i - 1].sranks, plans[i - 1].sendcounts, q, |plans[i - 1].sranks|)
  }

  lemma {:induction false} ColumnIsPlansSentTo(plans: seq<SendPlan>, m: seq<seq<nat>>, q: nat, i: nat)
    requires IsSizeMatrix(plans, m) && q < |plans| && i <= |plans|
    requires forall r :: 0 <= r < |plans| ==> NoRepeatedDestination(plans[r].sranks)
    ensures forall r :: 0 <= r < i ==> q < |m[r]|
    ensures ColumnUpTo(m, q, i) == PlansSentTo(plans, q, i)
  {
    if i > 0 {
      ColumnIsPlansSentTo(plans, m, q, i - 1);
      var plan := plans[i - 1];
      DenseUpToIsSentTo(|plans|, plan.sranks, plan.sendcounts, |plan.sranks|, q);
    }
  }

  /** When no plan names a destination twice, the total a process receives is
      the sum, over every process including itself, of the counts that
      process's plan sends to it. */
  lemma ReceivedTotalFromPlans(plans: seq<SendPlan>, m: seq<seq<nat>>, q: nat)
    requires IsSizeMatrix(plans, m) && q < |plans|
    requires forall r :: 0 <= r < |plans| ==> NoRepeatedDestination(plans[r].sranks)
    ensures IsSquare(m)
    ensures Total(AllToAll(m)[q]) == PlansSentTo(plans, q, |plans|)
  {
    ReceivedTotal(m, q);
    ColumnIsPlansSentTo(plans, m, q, |plans|);
  }

  /** A plan that names rank 1 twice, with 2 and then 3 elements: two sends of
      5 elements in all are posted, but the dense vector announces only the
      last write, 3, so rank 1 posts a single receive of 3. */
  lemma RepeatedDestinationUndercounts()
    ensures DenseSizesOf(2, [1, 1], [2, 3]) == [0, 3]
    ensures SentTo([1, 1], [2, 3], 1, 2) == 5
  {
    assert DenseUpTo(2, [1, 1], [2, 3], 1) == [0, 2];
  }
}
