/** The exchange primitive itself (dsde.cpp:23-121) and the release of its
    handle (dsde.cpp:123-135). The transport is outside the model: what the
    all-to-all delivers to this process is the parameter `rsizes`, and posting
    a send or a receive is recorded as a request slot. */
module Dsde {
  import opened Shape
  import opened Sizes
  import opened Layout
  import opened Descriptors
  import opened Requests

  /** The status every call of the core returns. */
  const MPI_SUCCESS: int := 0
  /** handle_type tag of a handle whose value is the block to free (dsde.cpp:8). */
  const DSDE_HT_BUF: int := 1
  /** The alignment of every address malloc returns on an LP64 target
      (alignof(max_align_t) = 16 on x86-64). */
  const MALLOC_ALIGNMENT: nat := 16
  /** An `int` covers the low 32 bits of a word. */
  const WORD_RANGE: nat := 0x1_0000_0000

  /** The `int` found at the first four bytes of a variable that holds the
      address `addr`, on a little-endian target: the low 32 bits of the
      address, read as a signed value. */
  function LowWord(addr: nat): (w: int)
    ensures -0x8000_0000 <= w < 0x8000_0000
    ensures (w - addr) % WORD_RANGE == 0
  {
    var low := addr % WORD_RANGE;
    if low < 0x8000_0000 then low else low - WORD_RANGE
  }

  /** The low word of an address that malloc returned keeps its alignment, so
      it is never the tag DSDE_HT_BUF. */
  lemma AlignedWordIsNotTag(addr: nat)
    requires addr % MALLOC_ALIGNMENT == 0
    ensures LowWord(addr) % MALLOC_ALIGNMENT == 0
    ensures LowWord(addr) != DSDE_HT_BUF
  {
    var q := addr / WORD_RANGE;
    var low := addr % WORD_RANGE;
    var a := addr / MALLOC_ALIGNMENT;
    assert addr == q * WORD_RANGE + low;
    assert addr == MALLOC_ALIGNMENT * a;
    assert low == MALLOC_ALIGNMENT * (a - q * 0x1000_0000);
    assert low - WORD_RANGE == MALLOC_ALIGNMENT * (a - q * 0x1000_0000 - 0x1000_0000);
  }

  /** The single block that backs an exchange handle: the handle fields at its
      start (`tag`, `rrankcount` and views of the three descriptor arrays), its
      size and its layout. `live` says that it has not been freed yet. */
  class Block {
    var tag: int
    const size: nat
    const layout: BlockLayout
    var rrankcount: nat
    /** The address malloc returned for the block. */
    const addr: nat
    const rranks: array<int>
    const recvcounts: array<int>
    const rdispls: array<int>
    ghost var live: bool

    /** The layout tiles the block, and the descriptor arrays, which stand for
        the ranks, counts and displacement sections, have one slot per source
        and are distinct. */
    ghost predicate Valid()
      reads this
    {
      Tiles(layout.Sections(), size) &&
      rranks.Length == rrankcount && recvcounts.Length == rrankcount && rdispls.Length == rrankcount &&
      layout.ranks.len == INT_BYTES * rrankcount &&
      layout.counts.len == AINT_BYTES * rrankcount &&
      layout.displs.len == AINT_BYTES * rrankcount &&
      rranks != recvcounts && rranks != rdispls && recvcounts != rdispls
    }

    /** malloc at dsde.cpp:59: a fresh block of `size` bytes at address
        `addr`, carved as `layout`, with room for n descriptor entries; the
        handle fields are not set yet. */
    constructor (size: nat, layout: BlockLayout, n: nat, addr: nat)
      ensures this.size == size && this.layout == layout && this.addr == addr && live
      ensures tag == 0 && rrankcount == 0
      ensures fresh(rranks) && fresh(recvcounts) && fresh(rdispls)
      ensures rranks.Length == n && recvcounts.Length == n && rdispls.Length == n
      ensures rranks != recvcounts && rranks != rdispls && recvcounts != rdispls
    {
      this.size := size;
      this.layout := layout;
      this.addr := addr;
      tag := 0;
      rrankcount := 0;
      rranks := new int[n];
      recvcounts := new int[n];
      rdispls := new int[n];
      live := true;
    }
  }

  /** The caller's `DSDE_Handle` variable: null (DSDE_HANDLE_NULL) or the block
      it owns. `live` says that the variable's own storage has not been
      released. */
  class HandleSlot {
    var block: Block?
    ghost var live: bool

    constructor ()
      ensures block == null && live
    {
      block := null;
      live := true;
    }

    /** The `int` stored at the start of the variable itself: the low half of
        the address it holds, 0 for the null handle. */
    function FirstWord(): (w: int)
      reads this
    {
      if block == null then 0 else LowWord(block.addr)
    }
  }

  /** dsde.cpp:35, 40-42: one send request per entry of the plan, in plan order. */
  method PostSends(sranks: seq<int>, sendcounts: seq<nat>, sdispls: seq<nat>) returns (reqs: seq<Req>)
    requires |sranks| == |sendcounts| == |sdispls|
    ensures |reqs| == |sranks|
    ensures forall i :: 0 <= i < |sranks| ==> reqs[i] == SendReq(sranks[i], sendcounts[i], sdispls[i])
  {
    reqs := Blank(|sranks|);
    var i := 0;
    while i < |sranks|
      invariant 0 <= i <= |sranks| && |reqs| == |sranks|
      invariant forall j :: 0 <= j < i ==> reqs[j] == SendReq(sranks[j], sendcounts[j], sdispls[j])
    {
      reqs := reqs[i := SendReq(sranks[i], sendcounts[i], sdispls[i])];
      i := i + 1;
    }
  }

  /** The descriptor arrays hold the entries of d in their first |d| slots. */
  ghost predicate Recorded(rranks: array<int>, recvcounts: array<int>, rdispls: array<int>, d: seq<Entry>)
    reads rranks, recvcounts, rdispls
  {
    |d| <= rranks.Length && |d| <= recvcounts.Length && |d| <= rdispls.Length &&
    forall k :: 0 <= k < |d| ==>
      rranks[k] == d[k].rank && recvcounts[k] == d[k].count && rdispls[k] == d[k].displ
  }

  /** dsde.cpp:111-113: record entry e at descriptor index `index`, right after
      the entries d already recorded. */
  method RecordEntry(rranks: array<int>, recvcounts: array<int>, rdispls: array<int>,
                     index: nat, e: Entry, ghost d: seq<Entry>)
    requires rranks != recvcounts && rranks != rdispls && recvcounts != rdispls
    requires index == |d| && index < rranks.Length && index < recvcounts.Length && index < rdispls.Length
    requires Recorded(rranks, recvcounts, rdispls, d)
    modifies rranks, recvcounts, rdispls
    ensures rranks[..] == old(rranks[..])[index := e.rank]
    ensures recvcounts[..] == old(recvcounts[..])[index := e.count]
    ensures rdispls[..] == old(rdispls[..])[index := e.displ]
    ensures Recorded(rranks, recvcounts, rdispls, d + [e])
  {
    rranks[index] := e.rank;
    recvcounts[index] := e.count;
    rdispls[index] := e.displ;
  }

  /** One iteration of the loop at dsde.cpp:109-116: rank i is visited after
      the ranks before it have been recorded at `index` entries and `offset`
      elements, and their receives placed from slot `srankcount`. */
  method VisitRank(rsizes: seq<nat>, i: nat, reqs: seq<Req>, reqoffset: nat, offset: nat, index: nat,
                   rranks: array<int>, recvcounts: array<int>, rdispls: array<int>,
                   ghost reqsIn: seq<Req>, ghost srankcount: nat)
    returns (reqs': seq<Req>, reqoffset': nat, offset': nat, index': nat)
    requires i < |rsizes|
    requires rranks.Length == NonzeroCount(rsizes)
    requires recvcounts.Length == NonzeroCount(rsizes)
    requires rdispls.Length == NonzeroCount(rsizes)
    requires rranks != recvcounts && rranks != rdispls && recvcounts != rdispls
    requires |reqsIn| == srankcount + NonzeroCount(rsizes)
    requires index == NonzeroUpTo(rsizes, i) && offset == SumUpTo(rsizes, i) && reqoffset == srankcount + index
    requires Recorded(rranks, recvcounts, rdispls, DescrUpTo(rsizes, i))
    requires reqs == PlaceFrom(reqsIn, srankcount, RecvReqs(DescrUpTo(rsizes, i)))
    modifies rranks, recvcounts, rdispls
    ensures index' == NonzeroUpTo(rsizes, i + 1) && offset' == SumUpTo(rsizes, i + 1)
    ensures reqoffset' == srankcount + index'
    ensures Recorded(rranks, recvcounts, rdispls, DescrUpTo(rsizes, i + 1))
    ensures reqs' == PlaceFrom(reqsIn, srankcount, RecvReqs(DescrUpTo(rsizes, i + 1)))
    ensures rsizes[i] == 0 ==> unchanged(rranks, recvcounts, rdispls)
    ensures rsizes[i] != 0 ==>
              rranks[..] == old(rranks[..])[index := i] &&
              recvcounts[..] == old(recvcounts[..])[index := rsizes[i]] &&
              rdispls[..] == old(rdispls[..])[index := offset]
  {
    reqs', reqoffset', offset', index' := reqs, reqoffset, offset, index;
    ghost var d := DescrUpTo(rsizes, i);
    DescrStep(rsizes, i);
    if rsizes[i] != 0 {
      NonzeroUpToMonotone(rsizes, i + 1, |rsizes|);
      var e := Entry(i, rsizes[i], offset);
      RecvReqsAppend(d, e);
      PlaceFromAppend(reqsIn, srankcount, RecvReqs(d), RecvReqOf(e));
      reqs' := reqs[reqoffset := RecvReq(i, rsizes[i], offset)];
      reqoffset' := reqoffset + 1;
      RecordEntry(rranks, recvcounts, rdispls, index, e, d);
      offset' := offset + rsizes[i];
      index' := index + 1;
    }
  }

  /** dsde.cpp:104-116 with the receive slots starting at `srankcount`: visit
      the ranks in ascending order, skip zero sizes, and for every other rank
      post a receive into the next unused slice of the payload and record
      (rank, count, running offset) at the next descriptor index. */
  method RecordReceives(rsizes: seq<nat>, reqsIn: seq<Req>, srankcount: nat,
                        rranks: array<int>, recvcounts: array<int>, rdispls: array<int>)
    returns (reqs: seq<Req>, offset: nat, index: nat)
    requires rranks.Length == NonzeroCount(rsizes)
    requires recvcounts.Length == NonzeroCount(rsizes)
    requires rdispls.Length == NonzeroCount(rsizes)
    requires rranks != recvcounts && rranks != rdispls && recvcounts != rdispls
    requires |reqsIn| == srankcount + NonzeroCount(rsizes)
    modifies rranks, recvcounts, rdispls
    ensures index == NonzeroCount(rsizes) && offset == Total(rsizes)
    ensures forall k :: 0 <= k < index ==>
              rranks[k] == Descriptor(rsizes)[k].rank &&
              recvcounts[k] == Descriptor(rsizes)[k].count &&
              rdispls[k] == Descriptor(rsizes)[k].displ
    ensures reqs == PlaceFrom(reqsIn, srankcount, RecvReqs(Descriptor(rsizes)))
  {
    offset := 0;
    index := 0;
    var reqoffset := srankcount;
    reqs := reqsIn;
    var i := 0;
    while i < |rsizes|
      invariant 0 <= i <= |rsizes|
      invariant index == NonzeroUpTo(rsizes, i) && offset == SumUpTo(rsizes, i)
      invariant reqoffset == srankcount + index
      invariant Recorded(rranks, recvcounts, rdispls, DescrUpTo(rsizes, i))
      invariant reqs == PlaceFrom(reqsIn, srankcount, RecvReqs(DescrUpTo(rsizes, i)))
    {
      reqs, reqoffset, offset, index :=
        VisitRank(rsizes, i, reqs, reqoffset, offset, index, rranks, recvcounts, rdispls, reqsIn, srankcount);
      i := i + 1;
    }
  }

  /** Every receive posted for d writes only bytes of the payload section, and
      no two of them write the same byte. */
  ghost predicate ReceivesInPayload(payload: Section, extent: nat, d: seq<Entry>)
  {
    (forall k :: 0 <= k < |d| ==>
       payload.start <= ReceiveBytes(payload, extent, d[k].displ, d[k].count).start &&
       ReceiveBytes(payload, extent, d[k].displ, d[k].count).End() <= payload.End()) &&
    (forall k, l :: 0 <= k < l < |d| ==>
       ReceiveBytes(payload, extent, d[k].displ, d[k].count).End() <=
       ReceiveBytes(payload, extent, d[l].displ, d[l].count).start)
  }

  /** The receives of dsde.cpp:110 land in disjoint byte ranges of the payload
      that malloc sized for `rbufsize` elements of `extent` bytes. */
  lemma DescriptorReceivesInPayload(rsizes: seq<nat>, extent: nat, payload: Section)
    requires payload.len == Total(rsizes) * extent
    ensures ReceivesInPayload(payload, extent, Descriptor(rsizes))
  {
    var d := Descriptor(rsizes);
    DescrSlicesDisjoint(rsizes, |rsizes|);
    assert DisjointSlices(d, Total(rsizes));
    forall k | 0 <= k < |d|
      ensures payload.start <= ReceiveBytes(payload, extent, d[k].displ, d[k].count).start
      ensures ReceiveBytes(payload, extent, d[k].displ, d[k].count).End() <= payload.End()
    {
      ReceiveInPayload(payload, extent, Total(rsizes), d[k].displ, d[k].count);
    }
    forall k, l | 0 <= k < l < |d|
      ensures ReceiveBytes(payload, extent, d[k].displ, d[k].count).End() <=
              ReceiveBytes(payload, extent, d[l].displ, d[l].count).start
    {
      ReceivesOrdered(payload, extent, d[k].displ, d[k].count, d[l].displ, d[l].count);
    }
  }

  /** DSDE_Exchange (dsde.cpp:23-121) without the transport: build the dense
      size vector, post the sends, count and sum the incoming sizes, allocate
      and carve the single block, tag it, hand it to the caller's handle, post
      the receives and record the descriptor. */
  method Exchange(p: nat, sranks: seq<int>, sendcounts: seq<nat>, sdispls: seq<nat>,
                  rsizes: seq<nat>, extent: nat, addr: nat, handle: HandleSlot)
    returns (status: int, ssizes: seq<nat>, reqs: seq<Req>, block: Block, rrankcount: nat)
    requires |sranks| == |sendcounts| == |sdispls| && RanksInGroup(p, sranks)
    requires |rsizes| == p
    modifies handle`block
    ensures status == MPI_SUCCESS
    ensures ssizes == DenseSizesOf(p, sranks, sendcounts)
    ensures fresh(block) && block.Valid() && block.live && block.tag == DSDE_HT_BUF
    ensures fresh(block.rranks) && fresh(block.recvcounts) && fresh(block.rdispls)
    ensures block.addr == addr
    ensures handle.block == block
    ensures rrankcount == block.rrankcount == NonzeroCount(rsizes)
    ensures block.size == AllocationSize(Total(rsizes), NonzeroCount(rsizes), extent)
    ensures block.layout.header.len == HEADER_BYTES
    ensures block.layout.payload.len == Total(rsizes) * extent
    ensures ReceivesInPayload(block.layout.payload, extent, Descriptor(rsizes))
    ensures forall k :: 0 <= k < rrankcount ==>
              block.rranks[k] == Descriptor(rsizes)[k].rank &&
              block.recvcounts[k] == Descriptor(rsizes)[k].count &&
              block.rdispls[k] == Descriptor(rsizes)[k].displ
    ensures |reqs| == |sranks| + rrankcount
    ensures forall i :: 0 <= i < |sranks| ==> reqs[i] == SendReq(sranks[i], sendcounts[i], sdispls[i])
    ensures forall k :: 0 <= k < rrankcount ==> reqs[|sranks| + k] == RecvReqOf(Descriptor(rsizes)[k])
  {
    ssizes := DenseSizes(p, sranks, sendcounts);
    // MPI_Alltoall of ssizes delivers rsizes.
    var sends := PostSends(sranks, sendcounts, sdispls);
    var numIncoming, rbufsize := ReceiveShape(rsizes);
    var size, layout, bump := CarveBlock(rbufsize, numIncoming, extent);
    block := new Block(size, layout, numIncoming, addr);
    block.tag := DSDE_HT_BUF;
    block.rrankcount := numIncoming;
    rrankcount := block.rrankcount;
    handle.block := block;
    var offset, index;
    reqs, offset, index := RecordReceives(rsizes, sends + Blank(numIncoming), |sranks|,
                                          block.rranks, block.recvcounts, block.rdispls);
    RequestsIntendedExact(sends, RecvReqs(Descriptor(rsizes)));
    DescriptorReceivesInPayload(rsizes, extent, block.layout.payload);
    status := MPI_SUCCESS;
  }

  /** DSDE_Free (dsde.cpp:124-135) as its comments intend, working on the
      handle value `*handle`: a null handle is left alone; a handle whose
      block is tagged DSDE_HT_BUF has its block freed and is reset to null; a
      handle with any other tag is left alone. The status is always success. */
  method Free(handle: HandleSlot) returns (status: int)
    requires handle.block != null ==> handle.block.live
    modifies handle`block, handle.block
    ensures status == MPI_SUCCESS
    ensures handle.live == old(handle.live)
    ensures old(handle.block) == null ==> handle.block == null
    ensures old(handle.block) != null && old(handle.block.tag) == DSDE_HT_BUF ==>
              handle.block == null && !old(handle.block).live
    ensures old(handle.block) != null && old(handle.block.tag) != DSDE_HT_BUF ==>
              handle.block == old(handle.block) && handle.block.live
    ensures old(handle.block) != null ==> unchanged(old(handle.block)`tag, old(handle.block)`rrankcount)
  {
    if handle.block != null {
      var tag := handle.block.tag;
      if tag == DSDE_HT_BUF {
        handle.block.live := false;
        handle.block := null;
      }
    }
    status := MPI_SUCCESS;
  }

  /** DSDE_Free as written (dsde.cpp:126-131). The test, the tag read and the
      `free` all use `handle`, the address of the caller's variable, not the
      handle value it holds. That address is never null, the "tag" is the
      first `int` of the variable itself, `free` would release the variable's
      own storage, and `*handle = DSDE_HANDLE_NULL` then writes through the
      pointer just freed. The block is not touched in either case. */
  method FreeAsWritten(handle: HandleSlot) returns (status: int)
    modifies handle
    ensures status == MPI_SUCCESS
    ensures old(handle.FirstWord()) == DSDE_HT_BUF ==> handle.block == null && !handle.live
    ensures old(handle.FirstWord()) != DSDE_HT_BUF ==>
              handle.block == old(handle.block) && handle.live == old(handle.live)
  {
    // handle != DSDE_HANDLE_NULL holds for the address of any variable.
    var tag := handle.FirstWord();
    if tag == DSDE_HT_BUF {
      handle.live := false;
      handle.block := null;
    }
    status := MPI_SUCCESS;
  }

  /** The handle lifecycle: an exchange leaves the handle owning a live block;
      the first release frees that block and nulls the handle; a second release
      of the now-null handle changes nothing and still succeeds. */
  method ExchangeThenReleaseTwice(p: nat, sranks: seq<int>, sendcounts: seq<nat>, sdispls: seq<nat>,
                                  rsizes: seq<nat>, extent: nat, addr: nat)
    returns (first: int, second: int, block: Block, handle: HandleSlot)
    requires |sranks| == |sendcounts| == |sdispls| && RanksInGroup(p, sranks)
    requires |rsizes| == p
    ensures first == MPI_SUCCESS && second == MPI_SUCCESS
    ensures fresh(block) && !block.live
    ensures handle.block == null && handle.live
  {
    handle := new HandleSlot();
    var status, ssizes, reqs, rrankcount;
    status, ssizes, reqs, block, rrankcount := Exchange(p, sranks, sendcounts, sdispls, rsizes, extent, addr, handle);
    assert handle.block == block && block.live;
    first := Free(handle);
    assert handle.block == null && !block.live;
    second := Free(handle);
  }

  /** The same lifecycle with the release as written, for a block at an
      address malloc may return: neither release frees the block or resets the
      handle, so the block stays live and owned by a handle that still points
      at it, and is never freed. */
  method ExchangeThenReleaseAsWritten(p: nat, sranks: seq<int>, sendcounts: seq<nat>, sdispls: seq<nat>,
                                      rsizes: seq<nat>, extent: nat, addr: nat)
    returns (first: int, second: int, block: Block, handle: HandleSlot)
    requires |sranks| == |sendcounts| == |sdispls| && RanksInGroup(p, sranks)
    requires |rsizes| == p
    requires addr % MALLOC_ALIGNMENT == 0
    ensures first == MPI_SUCCESS && second == MPI_SUCCESS
    ensures fresh(block) && block.live && block.tag == DSDE_HT_BUF
    ensures handle.block == block && handle.live
  {
    handle := new HandleSlot();
    var status, ssizes, reqs, rrankcount;
    status, ssizes, reqs, block, rrankcount := Exchange(p, sranks, sendcounts, sdispls, rsizes, extent, addr, handle);
    AlignedWordIsNotTag(addr);
    first := FreeAsWritten(handle);
    second := FreeAsWritten(handle);
  }
}
