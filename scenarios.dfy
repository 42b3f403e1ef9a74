/** Whole-group situations, from the send plans to the descriptors: what one
    process sends another is recorded by the receiver, a process nobody sends
    to, a four-process exchange in which only process 0 sends, and an exchange
    in which every process sends one element to every other. */
module Scenarios {
  import opened Shape
  import opened Sizes
  import opened Layout
  import opened Descriptors

  /** A process with no incoming transfers records zero sources and still gets
      a block: the header followed by an empty payload and empty descriptor
      sections, never nothing. */
  lemma NoIncomingTransfers(rsizes: seq<nat>, extent: nat)
    requires forall r :: 0 <= r < |rsizes| ==> rsizes[r] == 0
    ensures NonzeroCount(rsizes) == 0 && Total(rsizes) == 0
    ensures Descriptor(rsizes) == []
    ensures AllocationSize(Total(rsizes), NonzeroCount(rsizes), extent) == HEADER_BYTES
  {
    NoSendersNoEntries(rsizes, |rsizes|);
    SendersBoundVolume(rsizes, |rsizes|);
  }

  /** A vector in which only rank 0 has a nonzero size yields one entry. */
  lemma {:induction false} OnlyFirstSends(s: seq<nat>, i: nat)
    requires 1 <= i <= |s| && s[0] != 0
    requires forall r :: 1 <= r < |s| ==> s[r] == 0
    ensures DescrUpTo(s, i) == [Entry(0, s[0], 0)]
  {
    if i > 1 {
      OnlyFirstSends(s, i - 1);
    }
  }

  /** Four processes; process 0 sends 3 elements to process 2 and 5 elements
      to process 3, the others send nothing. Process 2 then records the single
      source 0 with count 3, process 3 the single source 0 with count 5, and
      processes 0 and 1 record no source. */
  lemma FourProcessesOneSender()
    ensures DenseSizesOf(4, [2, 3], [3, 5]) == [0, 0, 3, 5]
    ensures DenseSizesOf(4, [], []) == [0, 0, 0, 0]
    ensures var m := [[0, 0, 3, 5], [0, 0, 0, 0], [0, 0, 0, 0], [0, 0, 0, 0]];
            Descriptor(AllToAll(m)[0]) == [] &&
            Descriptor(AllToAll(m)[1]) == [] &&
            Descriptor(AllToAll(m)[2]) == [Entry(0, 3, 0)] &&
            Descriptor(AllToAll(m)[3]) == [Entry(0, 5, 0)]
  {
    var m: seq<seq<nat>> := [[0, 0, 3, 5], [0, 0, 0, 0], [0, 0, 0, 0], [0, 0, 0, 0]];
    assert IsSquare(m);
    var t := AllToAll(m);
    assert t[0] == [0, 0, 0, 0];
    assert t[1] == [0, 0, 0, 0];
    assert t[2] == [3, 0, 0, 0];
    assert t[3] == [5, 0, 0, 0];
    forall j | 1 <= j <= 4
      ensures DescrUpTo(t[2], j) == [Entry(0, 3, 0)] && DescrUpTo(t[3], j) == [Entry(0, 5, 0)]
    {
      OnlyFirstSends(t[2], j);
      OnlyFirstSends(t[3], j);
    }
    NoSendersNoEntries(t[0], 4);
    NoSendersNoEntries(t[1], 4);
    assert DenseUpTo(4, [2, 3], [3, 5], 1) == [0, 0, 3, 0];
  }

  /** If process r's plan sends a nonzero count c to process q, and no later
      entry of that plan names q, then q's descriptor has an entry with
      source r and count c. */
  lemma SentIsRecorded(plans: seq<SendPlan>, m: seq<seq<nat>>, q: nat, r: nat, j: nat)
    requires IsSizeMatrix(plans, m) && q < |plans| && r < |plans|
    requires j < |plans[r].sranks| && plans[r].sranks[j] == q && plans[r].sendcounts[j] != 0
    requires forall j' :: j < j' < |plans[r].sranks| ==> plans[r].sranks[j'] != q
    ensures IsSquare(m)
    ensures exists k :: 0 <= k < |Descriptor(AllToAll(m)[q])| &&
              Descriptor(AllToAll(m)[q])[k].rank == r &&
              Descriptor(AllToAll(m)[q])[k].count == plans[r].sendcounts[j]
  {
    ReceivedFromPlan(plans, m, q, r);
    DescriptorCorrect(AllToAll(m)[q]);
  }

  /** Rank r's plan when every process sends one element to every other one:
      the other ranks in ascending order. */
  function OthersOf(p: nat, r: nat): (o: seq<int>)
    requires r < p
    ensures |o| == p - 1 && RanksInGroup(p, o)
    ensures forall k :: 0 <= k < p - 1 ==> o[k] != r
  {
    seq(p - 1, k => if k < r then k else k + 1)
  }

  /** n counts of one element. */
  function Ones(n: nat): (c: seq<nat>)
  {
    seq(n, _ => 1)
  }

  /** Every process's plan in that pattern, the k-th send taking element k of
      the send buffer. */
  function OneEachPlans(p: nat): (plans: seq<SendPlan>)
  {
    seq(p, r requires 0 <= r < p => SendPlan(OthersOf(p, r), Ones(p - 1), seq(p - 1, k => k)))
  }

  /** Such a plan's dense vector: 1 for every other rank, 0 for itself. */
  lemma OthersDense(p: nat, r: nat)
    requires r < p
    ensures DenseSizesOf(p, OthersOf(p, r), Ones(p - 1)) == seq(p, q => if q == r then 0 else 1)
  {
    var o := OthersOf(p, r);
    var v := DenseSizesOf(p, o, Ones(p - 1));
    forall q | 0 <= q < p
      ensures v[q] == (if q == r then 0 else 1)
    {
      if q == r {
        DenseUpToUnwritten(p, o, Ones(p - 1), p - 1, q);
      } else {
        var j := if q < r then q else q - 1;
        DenseUpToLastWrite(p, o, Ones(p - 1), p - 1, j, q);
      }
    }
  }

  /** Scenario B: every process sends one element to every other process.
      After the all-to-all of the dense vectors, process q records the P - 1
      other ranks in ascending order, count 1 each, at displacements
      0, 1, ..., P - 2. */
  lemma EveryoneSendsOneToEveryOther(p: nat, m: seq<seq<nat>>, q: nat)
    requires IsSizeMatrix(OneEachPlans(p), m) && q < p
    ensures IsSquare(m)
    ensures |Descriptor(AllToAll(m)[q])| == p - 1
    ensures forall k :: 0 <= k < p - 1 ==>
              Descriptor(AllToAll(m)[q])[k] == Entry(if k < q then k else k + 1, 1, k)
  {
    forall r | 0 <= r < p
      ensures m[r] == seq(p, q' => if q' == r then 0 else 1)
    {
      OthersDense(p, r);
    }
    var s := AllToAll(m)[q];
    assert OneFromEachOther(s, q);
    OneFromEachOtherDescriptor(s, q);
  }
}
