/** Receive-shape accounting: how many peers will send to this process and how
    many elements arrive in all, computed from the dense receive-size vector
    that the all-to-all step delivered (dsde.cpp:51-56). */
module Shape {

  /** Number of ranks r < i with a nonzero incoming size. */
  function NonzeroUpTo(s: seq<nat>, i: nat): (n: nat)
    requires i <= |s|
    ensures n <= i
  {
    if i == 0 then 0
    else NonzeroUpTo(s, i - 1) + (if s[i - 1] != 0 then 1 else 0)
  }

  /** Sum of the incoming sizes of ranks r < i. */
  function SumUpTo(s: seq<nat>, i: nat): (sum: nat)
    requires i <= |s|
  {
    if i == 0 then 0 else SumUpTo(s, i - 1) + s[i - 1]
  }

  /** `num_incoming`: the number of peers that send something. */
  function NonzeroCount(s: seq<nat>): (n: nat)
  {
    NonzeroUpTo(s, |s|)
  }

  /** `rbufsize`: the total number of incoming elements. */
  function Total(s: seq<nat>): (sum: nat)
  {
    SumUpTo(s, |s|)
  }

  /** Counting the nonzero entries in a longer prefix never gives less. */
  lemma {:induction false} NonzeroUpToMonotone(s: seq<nat>, i: nat, j: nat)
    requires i <= j <= |s|
    ensures NonzeroUpTo(s, i) <= NonzeroUpTo(s, j)
    decreases j - i
  {
    if i < j {
      NonzeroUpToMonotone(s, i, j - 1);
    }
  }

  /** Every sender contributes at least one element, so the number of senders
      never exceeds the number of incoming elements, and there are no senders
      exactly when nothing arrives. */
  lemma {:induction false} SendersBoundVolume(s: seq<nat>, i: nat)
    requires i <= |s|
    ensures NonzeroUpTo(s, i) <= SumUpTo(s, i)
    ensures NonzeroUpTo(s, i) == 0 <==> SumUpTo(s, i) == 0
  {
    if i > 0 {
      SendersBoundVolume(s, i - 1);
    }
  }

  /** The ranks r < i whose incoming size is nonzero. */
  function NonzeroRanks(s: seq<nat>, i: nat): (ranks: set<nat>)
    requires i <= |s|
  {
    set r: nat | r < i && s[r] != 0
  }

  /** Visiting one more rank adds it to the set exactly when its size is
      nonzero. */
  lemma NonzeroRanksStep(s: seq<nat>, i: nat)
    requires 0 < i <= |s|
    ensures NonzeroRanks(s, i) == NonzeroRanks(s, i - 1) + (if s[i - 1] != 0 then {i - 1} else {})
    ensures i - 1 !in NonzeroRanks(s, i - 1)
  {
    var extra: set<nat> := if s[i - 1] != 0 then {i - 1} else {};
    forall r: nat
      ensures r in NonzeroRanks(s, i) <==> r in NonzeroRanks(s, i - 1) + extra
    {
    }
  }

  /** The number of senders is the size of the set of ranks whose incoming
      size is nonzero. */
  lemma {:induction false} NonzeroUpToIsCardinality(s: seq<nat>, i: nat)
    requires i <= |s|
    ensures NonzeroUpTo(s, i) == |NonzeroRanks(s, i)|
  {
    if i > 0 {
      NonzeroUpToIsCardinality(s, i - 1);
      NonzeroRanksStep(s, i);
    } else {
      assert NonzeroRanks(s, 0) == {};
    }
  }

  /** The loop at dsde.cpp:51-56: one pass over the dense receive-size vector
      that counts the senders and adds up their sizes. */
  method ReceiveShape(rsizes: seq<nat>) returns (numIncoming: nat, rbufsize: nat)
    ensures numIncoming == NonzeroCount(rsizes)
    ensures rbufsize == Total(rsizes)
    ensures numIncoming == |NonzeroRanks(rsizes, |rsizes|)|
  {
    rbufsize := 0;
    numIncoming := 0;
    var i := 0;
    while i < |rsizes|
      invariant 0 <= i <= |rsizes|
      invariant numIncoming == NonzeroUpTo(rsizes, i)
      invariant rbufsize == SumUpTo(rsizes, i)
    {
      if rsizes[i] != 0 {
        numIncoming := numIncoming + 1;
        rbufsize := rbufsize + rsizes[i];
      }
      i := i + 1;
    }
    NonzeroUpToIsCardinality(rsizes, |rsizes|);
  }
}
