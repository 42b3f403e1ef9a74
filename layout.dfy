/** The single allocation behind an exchange handle (dsde.cpp:58-94): one block
    sized for the handle fields, the receive payload and the three descriptor
    arrays, carved in that order by a bump pointer. Addresses are byte offsets
    from the start of the block. */
module Layout {

  /** sizeof(handle_dsde_exchange_t) on an LP64 target: a 4-byte enum padded to
      8, a pointer, a 4-byte int padded to 8 and three more pointers. */
  const HEADER_BYTES: nat := 48
  /** sizeof(int), the element of the source-rank list. */
  const INT_BYTES: nat := 4
  /** sizeof(MPI_Aint), the element of the count and displacement lists. */
  const AINT_BYTES: nat := 8

  /** A byte range [start, start + len) of the block. */
  datatype Section = Section(start: nat, len: nat) {
    function End(): (e: nat) { start + len }
    predicate Contains(b: int) { start <= b < start + len }
  }

  /** Where the loop-free carving code places each part of the block. */
  datatype BlockLayout = BlockLayout(header: Section, payload: Section, ranks: Section,
                                     counts: Section, displs: Section)
  {
    /** The parts in the order the bump pointer visits them. */
    function Sections(): (secs: seq<Section>) { [header, payload, ranks, counts, displs] }
  }

  /** The argument passed to malloc at dsde.cpp:59-65. */
  function AllocationSize(rbufsize: nat, numIncoming: nat, extent: nat): (bytes: nat)
  {
    HEADER_BYTES + rbufsize * extent + INT_BYTES * numIncoming
      + AINT_BYTES * numIncoming + AINT_BYTES * numIncoming
  }

  /** Each section starts where the previous one ends. */
  predicate Consecutive(secs: seq<Section>)
  {
    forall k :: 0 <= k < |secs| - 1 ==> secs[k + 1].start == secs[k].End()
  }

  /** The sections start at offset 0, follow each other without gaps and the
      last one ends at the end of a block of `size` bytes. */
  predicate Tiles(secs: seq<Section>, size: nat)
  {
    |secs| > 0 && secs[0].start == 0 && Consecutive(secs) && secs[|secs| - 1].End() == size
  }

  /** Byte b lies in one of the sections. */
  predicate Covered(secs: seq<Section>, b: int)
  {
    exists k :: 0 <= k < |secs| && secs[k].Contains(b)
  }

  /** Consecutive sections are ordered: an earlier one ends no later than a
      later one begins. */
  lemma {:induction false} ConsecutiveOrdered(secs: seq<Section>, k: nat, l: nat)
    requires Consecutive(secs)
    requires k < l < |secs|
    ensures secs[k].End() <= secs[l].start
    decreases l - k
  {
    if k + 1 < l {
      ConsecutiveOrdered(secs, k + 1, l);
    }
  }

  /** A byte below the end of section n - 1 and not before the first section
      lies in one of the first n sections. */
  lemma {:induction false} ConsecutiveCovers(secs: seq<Section>, n: nat, b: int)
    requires Consecutive(secs)
    requires 0 < n <= |secs|
    requires secs[0].start <= b < secs[n - 1].End()
    ensures exists k :: 0 <= k < n && secs[k].Contains(b)
  {
    if b < secs[n - 1].start {
      ConsecutiveCovers(secs, n - 1, b);
    } else {
      assert secs[n - 1].Contains(b);
    }
  }

  /** Sections that tile a block are pairwise disjoint, lie inside the block and
      together cover every byte of it. */
  lemma TilesPartition(secs: seq<Section>, size: nat)
    requires Tiles(secs, size)
    ensures forall k, l :: 0 <= k < l < |secs| ==> secs[k].End() <= secs[l].start
    ensures forall k, b :: 0 <= k < |secs| && secs[k].Contains(b) ==> 0 <= b < size
    ensures forall b :: 0 <= b < size ==> Covered(secs, b)
  {
    forall k, l | 0 <= k < l < |secs|
      ensures secs[k].End() <= secs[l].start
    {
      ConsecutiveOrdered(secs, k, l);
    }
    forall k | 0 <= k < |secs| - 1
      ensures secs[k].End() <= size
    {
      ConsecutiveOrdered(secs, k, |secs| - 1);
    }
    forall b | 0 <= b < size
      ensures Covered(secs, b)
    {
      ConsecutiveCovers(secs, |secs|, b);
    }
  }

  /** dsde.cpp:59-94: size the block, then walk a bump pointer through it,
      taking the header, the payload (rbufsize elements of `extent` bytes), the
      source ranks, the counts and the displacements in turn. Returns the
      allocation size, the carved layout and the final bump offset. */
  method CarveBlock(rbufsize: nat, numIncoming: nat, extent: nat)
    returns (size: nat, layout: BlockLayout, bump: nat)
    ensures size == HEADER_BYTES + rbufsize * extent + (INT_BYTES + 2 * AINT_BYTES) * numIncoming
    ensures layout.header.len == HEADER_BYTES
    ensures layout.payload.len == rbufsize * extent
    ensures layout.ranks.len == INT_BYTES * numIncoming
    ensures layout.counts.len == AINT_BYTES * numIncoming
    ensures layout.displs.len == AINT_BYTES * numIncoming
    ensures Tiles(layout.Sections(), size)
    ensures bump == size
  {
    size := AllocationSize(rbufsize, numIncoming, extent);
    var tmp: nat := 0;
    var header := Section(tmp, HEADER_BYTES);
    tmp := tmp + HEADER_BYTES;
    var payload := Section(tmp, rbufsize * extent);
    tmp := tmp + rbufsize * extent;
    var ranks := Section(tmp, INT_BYTES * numIncoming);
    tmp := tmp + INT_BYTES * numIncoming;
    var counts := Section(tmp, AINT_BYTES * numIncoming);
    tmp := tmp + AINT_BYTES * numIncoming;
    var displs := Section(tmp, AINT_BYTES * numIncoming);
    tmp := tmp + AINT_BYTES * numIncoming;
    layout := BlockLayout(header, payload, ranks, counts, displs);
    bump := tmp;
  }

  /** The bytes a receive of `count` elements at element displacement `displ`
      writes, for elements of `extent` bytes (dsde.cpp:110). */
  function ReceiveBytes(payload: Section, extent: nat, displ: nat, count: nat): (bytes: Section)
  {
    Section(payload.start + extent * displ, extent * count)
  }

  /** Scaling by the extent keeps the order of element offsets. */
  lemma ScaleOrdered(extent: nat, a: nat, b: nat)
    requires a <= b
    ensures extent * a <= extent * b
  {
    assert extent * b == extent * a + extent * (b - a);
  }

  /** A receive of `count` elements at element displacement `displ` of a payload
      of `rbufsize` elements touches only bytes of the payload section. */
  lemma ReceiveInPayload(payload: Section, extent: nat, rbufsize: nat, displ: nat, count: nat)
    requires payload.len == rbufsize * extent
    requires displ + count <= rbufsize
    ensures payload.start <= ReceiveBytes(payload, extent, displ, count).start
    ensures ReceiveBytes(payload, extent, displ, count).End() <= payload.End()
  {
    assert extent * displ + extent * count == extent * (displ + count);
    ScaleOrdered(extent, displ + count, rbufsize);
  }

  /** A receive that ends, in elements, before another begins also ends before
      it in bytes. */
  lemma ReceivesOrdered(payload: Section, extent: nat, displ: nat, count: nat, displ': nat, count': nat)
    requires displ + count <= displ'
    ensures ReceiveBytes(payload, extent, displ, count).End() <= ReceiveBytes(payload, extent, displ', count').start
  {
    assert extent * displ + extent * count == extent * (displ + count);
    ScaleOrdered(extent, displ + count, displ');
  }
}
