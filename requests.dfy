/** The vector of non-blocking requests that the exchange waits on
    (dsde.cpp:35, 40-42, 104-110): one slot per send of the plan followed by
    one slot per receive. Only which operation occupies which slot is
    modelled; the transfers themselves are not. */
module Requests {
  import opened Descriptors

  /** A request slot: never posted, a posted send, or a posted receive. */
  datatype Req =
    | Unposted
    | SendReq(dest: int, count: nat, displ: nat)
    | RecvReq(source: nat, count: nat, displ: nat)

  /** The receive posted for one descriptor entry. */
  function RecvReqOf(e: Entry): (r: Req)
  {
    RecvReq(e.rank, e.count, e.displ)
  }

  /** The receives posted for a descriptor, in its order. */
  function RecvReqs(d: seq<Entry>): (rs: seq<Req>)
  {
    seq(|d|, k requires 0 <= k < |d| => RecvReqOf(d[k]))
  }

  /** n slots that `reqs.resize` adds and nothing has been posted to yet. */
  function Blank(n: nat): (b: seq<Req>)
  {
    seq(n, _ => Unposted)
  }

  /** `reqs` after `recvs[k]` has been stored at slot `start + k` for every k,
      one after the other, as the receive loop does with `reqoffset++`. */
  function PlaceFrom(reqs: seq<Req>, start: nat, recvs: seq<Req>): (r: seq<Req>)
    requires start + |recvs| <= |reqs|
    ensures |r| == |reqs|
    decreases |recvs|
  {
    if |recvs| == 0 then reqs
    else PlaceFrom(reqs[start := recvs[0]], start + 1, recvs[1..])
  }

  /** Receive k ends up at slot `start + k`; every other slot keeps its
      request. */
  lemma {:induction false} PlaceFromAt(reqs: seq<Req>, start: nat, recvs: seq<Req>, j: nat)
    requires start + |recvs| <= |reqs| && j < |reqs|
    ensures PlaceFrom(reqs, start, recvs)[j] ==
            (if start <= j < start + |recvs| then recvs[j - start] else reqs[j])
    decreases |recvs|
  {
    if |recvs| != 0 {
      PlaceFromAt(reqs[start := recvs[0]], start + 1, recvs[1..], j);
    }
  }

  /** One more descriptor entry adds one receive at the end. */
  lemma RecvReqsAppend(d: seq<Entry>, e: Entry)
    ensures RecvReqs(d + [e]) == RecvReqs(d) + [RecvReqOf(e)]
  {
    assert forall k :: 0 <= k < |d| ==> (d + [e])[k] == d[k];
  }

  /** Placing one more receive is storing it in the slot right after the
      receives already placed; nothing else changes. */
  lemma PlaceFromAppend(reqs: seq<Req>, start: nat, recvs: seq<Req>, x: Req)
    requires start + |recvs| + 1 <= |reqs|
    ensures PlaceFrom(reqs, start, recvs + [x]) == PlaceFrom(reqs, start, recvs)[start + |recvs| := x]
  {
    var lhs := PlaceFrom(reqs, start, recvs + [x]);
    var rhs := PlaceFrom(reqs, start, recvs)[start + |recvs| := x];
    forall j | 0 <= j < |reqs|
      ensures lhs[j] == rhs[j]
    {
      PlaceFromAt(reqs, start, recvs + [x], j);
      PlaceFromAt(reqs, start, recvs, j);
      if start <= j < start + |recvs| {
        assert (recvs + [x])[j - start] == recvs[j - start];
      }
    }
  }

  /** dsde.cpp:104-110 as written: the first receive goes to slot
      `reqs.size() - 1`, taken before the resize, i.e. the last send's slot.
      With no sends at all that index is -1, outside the vector, which is why
      this function needs at least one send. */
  function RequestsAsWritten(sends: seq<Req>, recvs: seq<Req>): (reqs: seq<Req>)
    requires |sends| >= 1
  {
    PlaceFrom(sends + Blank(|recvs|), |sends| - 1, recvs)
  }

  /** As written, the first receive overwrites the request of the last send, so
      that send is never waited for, and the last slot stays unposted, so the
      final wait is handed a request that was never started. */
  lemma AsWrittenLosesLastSend(sends: seq<Req>, recvs: seq<Req>)
    requires |sends| >= 1 && |recvs| >= 1
    requires forall j :: 0 <= j < |sends| ==> sends[j].SendReq?
    requires forall k :: 0 <= k < |recvs| ==> recvs[k].RecvReq?
    ensures RequestsAsWritten(sends, recvs)[|sends| - 1].RecvReq?
    ensures RequestsAsWritten(sends, recvs)[|sends| + |recvs| - 1] == Unposted
    ensures RequestsAsWritten(sends, recvs) != sends + recvs
  {
    var all := sends + Blank(|recvs|);
    var r := RequestsAsWritten(sends, recvs);
    PlaceFromAt(all, |sends| - 1, recvs, |sends| - 1);
    PlaceFromAt(all, |sends| - 1, recvs, |sends| + |recvs| - 1);
    assert r[|sends| - 1] == recvs[0];
    assert (sends + recvs)[|sends| - 1] == sends[|sends| - 1];
  }

  /** The intended indexing: the first receive goes to slot `srankcount`. */
  function RequestsIntended(sends: seq<Req>, recvs: seq<Req>): (reqs: seq<Req>)
  {
    PlaceFrom(sends + Blank(|recvs|), |sends|, recvs)
  }

  /** With the intended indexing every send keeps its slot, each receive gets
      a slot of its own after them, and no slot is left unposted. */
  lemma RequestsIntendedExact(sends: seq<Req>, recvs: seq<Req>)
    ensures RequestsIntended(sends, recvs) == sends + recvs
  {
    var r := RequestsIntended(sends, recvs);
    forall j | 0 <= j < |r|
      ensures r[j] == (sends + recvs)[j]
    {
      PlaceFromAt(sends + Blank(|recvs|), |sends|, recvs, j);
    }
  }
}
