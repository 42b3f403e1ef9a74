/** The receive descriptor (dsde.cpp:107-116): one (source rank, count,
    displacement) entry per rank whose incoming size is nonzero, in ascending
    rank order, each displacement the running offset into the payload. */
module Descriptors {
  import opened Shape

  /** One receive: `count` elements from `rank`, stored from element `displ`. */
  datatype Entry = Entry(rank: nat, count: nat, displ: nat)

  /** One more iteration of the loop at dsde.cpp:109-116 per step: the entries
      recorded once ranks 0 .. i-1 have been visited. */
  function DescrUpTo(s: seq<nat>, i: nat): (d: seq<Entry>)
    requires i <= |s|
    ensures |d| == NonzeroUpTo(s, i)
  {
    if i == 0 then []
    else if s[i - 1] != 0 then DescrUpTo(s, i - 1) + [Entry(i - 1, s[i - 1], SumUpTo(s, i - 1))]
    else DescrUpTo(s, i - 1)
  }

  /** Visiting rank i appends its entry at the running offset when its size
      is nonzero and records nothing otherwise. */
  lemma DescrStep(s: seq<nat>, i: nat)
    requires i < |s|
    ensures s[i] != 0 ==> DescrUpTo(s, i + 1) == DescrUpTo(s, i) + [Entry(i, s[i], SumUpTo(s, i))]
    ensures s[i] == 0 ==> DescrUpTo(s, i + 1) == DescrUpTo(s, i)
  {
  }

  /** The descriptor of the whole dense receive-size vector. */
  function Descriptor(s: seq<nat>): (d: seq<Entry>)
    ensures |d| == NonzeroCount(s)
  {
    DescrUpTo(s, |s|)
  }

  /** Sum of the counts of a list of entries. */
  function CountSum(d: seq<Entry>): (n: nat)
  {
    if d == [] then 0 else CountSum(d[..|d| - 1]) + d[|d| - 1].count
  }

  /** Each entry names one of the first i ranks, carries that rank's size, and
      that size is nonzero. */
  predicate EntriesMatch(d: seq<Entry>, s: seq<nat>, i: nat)
    requires i <= |s|
  {
    forall k :: 0 <= k < |d| ==> d[k].rank < i && d[k].count == s[d[k].rank] && d[k].count != 0
  }

  /** Ranks appear in strictly ascending order. */
  predicate RanksAscending(d: seq<Entry>)
  {
    forall k, l :: 0 <= k < l < |d| ==> d[k].rank < d[l].rank
  }

  /** Every one of the first i ranks with a nonzero size has an entry. */
  predicate ListsEveryNonzero(d: seq<Entry>, s: seq<nat>, i: nat)
    requires i <= |s|
  {
    forall r :: 0 <= r < i && s[r] != 0 ==> exists k :: 0 <= k < |d| && d[k].rank == r
  }

  /** Displacements are running offsets over a payload of `total` elements:
      the first is 0, each next one is the previous plus its count, and the
      last entry ends exactly at `total` (which is 0 when there is no entry). */
  predicate RunningOffsets(d: seq<Entry>, total: nat)
  {
    (|d| == 0 ==> total == 0) &&
    (|d| > 0 ==> d[0].displ == 0 && d[|d| - 1].displ + d[|d| - 1].count == total) &&
    forall k :: 0 <= k < |d| - 1 ==> d[k + 1].displ == d[k].displ + d[k].count
  }

  /** The payload slices [displ, displ + count) lie within [0, total) and do
      not overlap: an earlier slice ends no later than a later one begins. */
  predicate DisjointSlices(d: seq<Entry>, total: nat)
  {
    (forall k :: 0 <= k < |d| ==> d[k].displ + d[k].count <= total) &&
    (forall k, l :: 0 <= k < l < |d| ==> d[k].displ + d[k].count <= d[l].displ)
  }

  lemma {:induction false} DescrEntries(s: seq<nat>, i: nat)
    requires i <= |s|
    ensures EntriesMatch(DescrUpTo(s, i), s, i)
  {
    if i > 0 {
      DescrEntries(s, i - 1);
    }
  }

  lemma {:induction false} DescrSorted(s: seq<nat>, i: nat)
    requires i <= |s|
    ensures RanksAscending(DescrUpTo(s, i))
  {
    if i > 0 {
      DescrSorted(s, i - 1);
      DescrEntries(s, i - 1);
    }
  }

  lemma {:induction false} DescrExactRanks(s: seq<nat>, i: nat)
    requires i <= |s|
    ensures ListsEveryNonzero(DescrUpTo(s, i), s, i)
  {
    if i > 0 {
      DescrExactRanks(s, i - 1);
      var d := DescrUpTo(s, i);
      var d' := DescrUpTo(s, i - 1);
      forall r | 0 <= r < i && s[r] != 0
        ensures exists k :: 0 <= k < |d| && d[k].rank == r
      {
        if r == i - 1 {
          assert d == d' + [Entry(i - 1, s[i - 1], SumUpTo(s, i - 1))];
          assert d[|d| - 1].rank == r;
        } else {
          var k :| 0 <= k < |d'| && d'[k].rank == r;
          assert d[k] == d'[k];
        }
      }
    }
  }

  lemma {:induction false} DescrDispls(s: seq<nat>, i: nat)
    requires i <= |s|
    ensures RunningOffsets(DescrUpTo(s, i), SumUpTo(s, i))
  {
    if i > 0 {
      DescrDispls(s, i - 1);
    }
  }

  lemma {:induction false} DescrSlicesDisjoint(s: seq<nat>, i: nat)
    requires i <= |s|
    ensures DisjointSlices(DescrUpTo(s, i), SumUpTo(s, i))
  {
    if i > 0 {
      DescrSlicesDisjoint(s, i - 1);
    }
  }

  /** The counts of the descriptor add up to the size of the payload. */
  lemma {:induction false} DescrCountSum(s: seq<nat>, i: nat)
    requires i <= |s|
    ensures CountSum(DescrUpTo(s, i)) == SumUpTo(s, i)
  {
    if i > 0 {
      DescrCountSum(s, i - 1);
      var d := DescrUpTo(s, i);
      if s[i - 1] != 0 {
        assert d[..|d| - 1] == DescrUpTo(s, i - 1);
      }
    }
  }

  /** The descriptor of a complete receive-size vector: one entry per nonzero
      rank and none for a zero rank, ranks ascending, counts equal to the sizes,
      displacements the running offsets, slices disjoint inside the payload,
      and counts adding up to the payload size. */
  lemma DescriptorCorrect(s: seq<nat>)
    ensures |Descriptor(s)| == NonzeroCount(s)
    ensures EntriesMatch(Descriptor(s), s, |s|)
    ensures ListsEveryNonzero(Descriptor(s), s, |s|)
    ensures RanksAscending(Descriptor(s))
    ensures RunningOffsets(Descriptor(s), Total(s))
    ensures DisjointSlices(Descriptor(s), Total(s))
    ensures CountSum(Descriptor(s)) == Total(s)
  {
    DescrEntries(s, |s|);
    DescrSorted(s, |s|);
    DescrExactRanks(s, |s|);
    DescrDispls(s, |s|);
    DescrSlicesDisjoint(s, |s|);
    DescrCountSum(s, |s|);
  }

  /** A process that nobody sends to records no sources. */
  lemma {:induction false} NoSendersNoEntries(s: seq<nat>, i: nat)
    requires i <= |s|
    requires forall r :: 0 <= r < |s| ==> s[r] == 0
    ensures DescrUpTo(s, i) == []
  {
    if i > 0 {
      NoSendersNoEntries(s, i - 1);
    }
  }

  /** Every peer but process q sends exactly one element to q. */
  predicate OneFromEachOther(s: seq<nat>, q: nat)
  {
    q < |s| && forall r :: 0 <= r < |s| ==> s[r] == (if r == q then 0 else 1)
  }

  lemma {:induction false} OneFromEachOtherUpTo(s: seq<nat>, q: nat, i: nat)
    requires OneFromEachOther(s, q) && i <= |s|
    ensures SumUpTo(s, i) == (if i <= q then i else i - 1)
    ensures |DescrUpTo(s, i)| == (if i <= q then i else i - 1)
    ensures forall k :: 0 <= k < |DescrUpTo(s, i)| ==>
              DescrUpTo(s, i)[k] == Entry(if k < q then k else k + 1, 1, k)
  {
    if i > 0 {
      OneFromEachOtherUpTo(s, q, i - 1);
    }
  }

  /** When every other process sends process q one element, q records the P - 1
      other ranks in ascending order, each with count 1, at displacements
      0, 1, ..., P - 2. */
  lemma OneFromEachOtherDescriptor(s: seq<nat>, q: nat)
    requires OneFromEachOther(s, q)
    ensures |Descriptor(s)| == |s| - 1
    ensures forall k :: 0 <= k < |s| - 1 ==> Descriptor(s)[k] == Entry(if k < q then k else k + 1, 1, k)
  {
    OneFromEachOtherUpTo(s, q, |s|);
  }
}
