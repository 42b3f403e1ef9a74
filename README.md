# Dynamic sparse data exchange: a verified model of `DSDE_Exchange` and `DSDE_Free`

`DSDE_Exchange` lets every process of a group send data to the peers it chooses. No process knows beforehand who will send to it. The call works in five steps:

1. It turns the sparse send plan (`sranks`, `sendcounts`) into a dense vector `ssizes` with one entry per rank.
2. It exchanges these vectors with an all-to-all, so every process learns `rsizes`, the number of elements each peer will send it.
3. It counts the senders (`num_incoming`) and adds up their sizes (`rbufsize`).
4. It allocates one block and carves it with a bump pointer into the handle fields, the receive payload and three descriptor arrays (`rranks`, `recvcounts`, `rdispls`).
5. It posts one receive per sender, in ascending rank order, into consecutive slices of the payload, and records (rank, count, displacement) for it.

`DSDE_Free` is meant to release the block behind a handle and reset the handle to null. As written, it works on the address of the caller's handle variable instead of on the handle value, and so releases nothing (see "## Findings").

The model is imperative where the code is. Each loop is a method with invariants, proved against a specification function:

- the loop that fills `ssizes` is `Sizes.DenseSizes`;
- the counting loop is `Shape.ReceiveShape`;
- the descriptor loop is `Dsde.RecordReceives`.

The bump pointer is `Layout.CarveBlock`. The block and the caller's handle variable are classes: `Dsde.Block` and `Dsde.HandleSlot`. The properties are lemmas about the specification functions:

- last write wins in the dense vector;
- the all-to-all transposes the group's size matrix and conserves volume;
- the five sections of the block tile it exactly;
- the descriptor has the right entries, with ascending ranks, running-offset displacements and disjoint slices inside the payload.

Modules, one per component: `Shape` (shape.dfy), `Sizes` (sizes.dfy), `Layout` (layout.dfy), `Descriptors` (descriptors.dfy), `Requests` (requests.dfy), `Dsde` (dsde.dfy) and `Scenarios` (scenarios.dfy).

External inputs enter as parameters:

- What the all-to-all delivers to this process is the parameter `rsizes` of `Dsde.Exchange`. The whole-group view of that step is `Sizes.AllToAll`, over the matrix whose row q is process q's `ssizes`.
- The extent of the element type is the parameter `extent`.
- Posting a send or a receive is recorded as a `Requests.Req` in the request vector.

The code never inspects the status of any transport call and always returns `MPI_SUCCESS`. The model does the same: it has no failure path for the transport or for `malloc`.

Where the code and its documented design differ, the model follows the code except in these three places:

- `DSDE_Free` as written ends with `return MPI_SUCCESS:`, which does not compile. It is modelled as an unconditional success return, as intended.
- The first receive's request slot is `reqs.size() - 1`. That behaviour is modelled by `Requests.RequestsAsWritten` and exhibited by `Requests.AsWrittenLosesLastSend` under "## Findings". The rest of the model uses the intended `srankcount`.
- `DSDE_Free` tests, reads and frees `handle` rather than `*handle`. That behaviour is modelled by `Dsde.FreeAsWritten` under "## Findings". `Dsde.Free` and the exchange lifecycle use the intended release of `*handle`.

## Model

| member | source | states |
|---|---|---|
| `Sizes.DenseSizes` | dsde.cpp:30-31 | the vector written in place by the plan loop is `DenseSizesOf(p, sranks, sendcounts)`, a length-p vector |
| `Sizes.DenseUpToUnwritten` | dsde.cpp:30-31 | a rank that no entry of the plan names keeps the initial 0 |
| `Sizes.DenseUpToLastWrite` | dsde.cpp:31 | a rank named by entry j and by no later entry holds `sendcounts[j]`: for a repeated rank the last write wins |
| `Sizes.DenseSizesAt` | dsde.cpp:30-31 | for the complete plan, every rank not listed is 0 and every listed rank holds the count of its last occurrence |
| `Sizes.AllToAll` | dsde.cpp:33 | the all-to-all over a square size matrix gives every process a vector of the group's length |
| `Sizes.AllToAllInvolutive` | dsde.cpp:33 | the exchange is a transpose: doing it twice gives every process its own vector back |
| `Sizes.ReceivedFromPlan` | dsde.cpp:30-33 | after the exchange, process q's `rsizes[r]` is 0 when r's plan never names q, and otherwise the count of the last entry of r's plan that names q |
| `Sizes.ReceivedTotal` | dsde.cpp:33 | process q's total incoming volume is the sum over all processes of what each put at index q of its dense vector |
| `Sizes.ExchangeConservesVolume` | dsde.cpp:33 | over the whole group, the elements all processes receive add up to the totals of all dense send-size vectors |
| `Sizes.DenseUpToIsSentTo` | dsde.cpp:30-42 | for a plan that names no destination twice, the dense vector holds at q exactly the elements the plan's sends carry to q |
| `Sizes.ReceivedTotalFromPlans` | dsde.cpp:30-42 | when no plan names a destination twice, the total process q receives is the sum, over every process, of the counts its plan sends to q |
| `Scenarios.SentIsRecorded` | dsde.cpp:30-116 | if process r's plan sends a nonzero count c to q, and no later entry names q, then q's descriptor has an entry with source r and count c |
| `Sizes.RepeatedDestinationUndercounts` | dsde.cpp:31-42 | a plan naming rank 1 twice with 2 and 3 elements posts sends of 5 elements to it, while its dense vector announces only 3 |
| `Shape.ReceiveShape` | dsde.cpp:51-56 | `num_incoming` is the number of nonzero `rsizes` entries (also as the size of that set of ranks), and `rbufsize` is the sum of all entries |
| `Shape.NonzeroUpToIsCardinality` | dsde.cpp:53-54 | the running sender count equals the size of the set of ranks with nonzero size |
| `Shape.SendersBoundVolume` | dsde.cpp:51-56 | there are never more senders than incoming elements, and there are no senders exactly when nothing arrives |
| `Shape.NonzeroUpToMonotone` | dsde.cpp:53-54 | the sender count of a prefix never exceeds that of a longer prefix, so descriptor indices stay below `num_incoming` |
| `Layout.CarveBlock` | dsde.cpp:59-94 | the block size is header + `rbufsize*extent` + `sizeof(int)*n` + `2*sizeof(MPI_Aint)*n`; the five sections have those lengths, start at successive offsets from 0, and the final bump offset equals the block size |
| `Layout.TilesPartition` | dsde.cpp:67-94 | sections that tile a block are pairwise disjoint, lie inside it and cover every byte of it |
| `Layout.ConsecutiveOrdered` | dsde.cpp:67-94 | of two sections carved one after the other, the earlier ends no later than the later begins |
| `Layout.ConsecutiveCovers` | dsde.cpp:67-94 | every byte between the start of the first section and the end of the last lies in some section |
| `Layout.ReceiveInPayload` | dsde.cpp:110 | a receive of `count` elements at element offset `displ`, with `displ + count <= rbufsize`, writes only bytes of the payload section |
| `Layout.ReceivesOrdered` | dsde.cpp:110 | a receive that ends, in elements, before another begins also ends before it in bytes |
| `Descriptors.DescrUpTo` | dsde.cpp:107-116 | after visiting ranks 0..i-1, the loop has recorded as many entries as there are nonzero ranks among them |
| `Descriptors.DescrEntries` | dsde.cpp:109-112 | each entry names a visited rank, its count is that rank's `rsizes` entry, and that count is nonzero, so a zero-size rank has no entry |
| `Descriptors.DescrSorted` | dsde.cpp:109-111 | recorded ranks are strictly increasing |
| `Descriptors.DescrExactRanks` | dsde.cpp:109-111 | every visited rank with nonzero size has an entry |
| `Descriptors.DescrDispls` | dsde.cpp:107-114 | `rdispls[0] == 0`, `rdispls[k+1] == rdispls[k] + recvcounts[k]`, and the last entry ends at the running offset (0 when there is no entry) |
| `Descriptors.DescrSlicesDisjoint` | dsde.cpp:110-114 | the payload slices `[rdispls[k], rdispls[k] + recvcounts[k])` are pairwise disjoint and lie within `[0, rbufsize)` |
| `Descriptors.DescrCountSum` | dsde.cpp:112-114 | the recorded counts add up to the elements received so far |
| `Descriptors.DescriptorCorrect` | dsde.cpp:107-116 | for a whole vector: `num_incoming` entries, exactly the nonzero ranks, in ascending order, with their sizes, running-offset displacements, disjoint slices inside the payload, and counts summing to `rbufsize` |
| `Descriptors.NoSendersNoEntries` | dsde.cpp:109 | a process that nobody sends to records no entry |
| `Descriptors.OneFromEachOtherDescriptor` | dsde.cpp:107-116 | when every other process sends one element to q, q records the P-1 other ranks in ascending order with count 1 at displacements 0, 1, ..., P-2 |
| `Requests.PlaceFromAt` | dsde.cpp:110 | storing the receives one by one from slot `start` with a post-incremented index puts receive k at slot `start + k` and leaves every other slot unchanged |
| `Requests.AsWrittenLosesLastSend` | dsde.cpp:104-110 | with the index as written, the last send's slot is overwritten by the first receive and the last slot is never posted |
| `Requests.RequestsIntendedExact` | dsde.cpp:104-110 | with the first receive slot at `srankcount`, the request vector is exactly the sends followed by the receives |
| `Dsde.PostSends` | dsde.cpp:40-42 | one send request per plan entry, in plan order, with the entry's destination, count and displacement |
| `Dsde.RecordReceives` | dsde.cpp:104-116 | after the loop `index == num_incoming` and `offset == rbufsize`; the three arrays hold the ranks, counts and displacements of `Descriptor(rsizes)`; receive k goes to request slot `srankcount + k` |
| `Dsde.VisitRank` | dsde.cpp:109-115 | one iteration: a rank with nonzero size advances `index`, `offset` and `reqoffset` by one entry, its size and one slot, writes the entry at `index` only and places its receive at the next slot; a rank with size zero changes nothing; afterwards the state matches the descriptor of one more rank |
| `Dsde.RecordEntry` | dsde.cpp:111-113 | the three arrays change only at `index`, where they receive the entry's rank, count and displacement; the entries recorded before are kept |
| `Dsde.DescriptorReceivesInPayload` | dsde.cpp:107-114 | every receive posted for the descriptor writes only bytes of a payload sized `rbufsize * extent`, and no two receives write the same byte |
| `Dsde.Exchange` | dsde.cpp:23-121 | returns success, the dense `ssizes`, a fresh live block at malloc's address, tagged `DSDE_HT_BUF` and owned by the handle, of the size given by the malloc formula, with its sections tiling it, fresh descriptor arrays holding the descriptor and receives in disjoint payload ranges; sends occupy slots 0..srankcount-1 and receives the slots after them |
| `Dsde.Block.constructor` | dsde.cpp:59-65 | allocation gives a fresh live block with three distinct descriptor arrays of `num_incoming` slots |
| `Dsde.Free` | dsde.cpp:124-135 | the intended release of `*handle`: always returns success; the caller's handle variable itself stays live; a null handle stays null; a `DSDE_HT_BUF` handle has its block freed once and becomes null; a handle with another tag is left alone |
| `Dsde.LowWord` | dsde.cpp:127 | the `int` read from the start of a variable holding an address is a signed 32-bit value congruent to that address modulo 2^32 |
| `Dsde.AlignedWordIsNotTag` | dsde.cpp:127-128 | the low word of an address malloc returns is a multiple of the alignment, so it never equals `DSDE_HT_BUF` |
| `Dsde.FreeAsWritten` | dsde.cpp:124-135 | as written: when the first `int` of the caller's variable is `DSDE_HT_BUF`, the variable's own storage is released and nulled; otherwise nothing changes; the block is never freed; the status is success |
| `Dsde.ExchangeThenReleaseTwice` | dsde.cpp:124-134 | exchange, release, release with the intended release: both releases succeed, the block is freed, and the handle ends null and still live, so the second release is a no-op on live storage |
| `Dsde.ExchangeThenReleaseAsWritten` | dsde.cpp:124-134 | exchange, release, release with the release as written: both succeed, but the block stays live and the handle still points at it, so the block leaks |
| `Scenarios.NoIncomingTransfers` | dsde.cpp:51-94 | a process with no incoming transfers has zero sources, zero volume, an empty descriptor and an allocation of exactly the header size, not zero bytes |
| `Scenarios.OnlyFirstSends` | dsde.cpp:109-116 | a vector whose only nonzero entry is rank 0 yields the single entry (0, size, 0) |
| `Scenarios.OthersDense` | dsde.cpp:30-31 | the plan that names every other rank once with one element gives the dense vector with 1 for every other rank and 0 for itself |
| `Scenarios.EveryoneSendsOneToEveryOther` | dsde.cpp:30-116 | when every process sends one element to every other, process q records the P-1 other ranks in ascending order, count 1 each, at displacements 0..P-2 |
| `Scenarios.FourProcessesOneSender` | dsde.cpp:30-116 | four processes, process 0 sends 3 to rank 2 and 5 to rank 3: rank 2 records [(0, 3, 0)], rank 3 records [(0, 5, 0)], ranks 0 and 1 record nothing |

## Left out

- The transport: `MPI_Comm_size`, `MPI_Alltoall`, `MPI_Isend`, `MPI_Irecv` and `MPI_Waitall` are calls into a library outside the model. The group size and the all-to-all result are parameters. Posting is recorded in the request vector.
- Data movement: the payload bytes are not modelled. Matching on tag 999 and the completion and overlap of non-blocking requests are concurrency and transport behaviour. So `Dsde.Exchange` does not state that the payload ends up holding the senders' data.
- The use of `MPI_COMM_WORLD` for discovery and of `comm` for the transfers (dsde.cpp:29, 33 against 41, 110) is a transport-level matter with no logic to verify.
- `MPI_Type_get_extent` (dsde.cpp:38): the extent is the parameter `extent`, and the lower bound is unused, as in the code.
- The send/receive type conversion (dsde.cpp:49) is not implemented in the code, so it is not modelled.
- The asserts at dsde.cpp:44-47 compare the addresses of the out-parameters with NULL, not the slots they point to. The out-parameters of a Dafny method are always fresh, so neither the check nor its intent ("output slots empty") has a counterpart here.
- Raw `malloc`/`free` and pointer arithmetic: the block is a `Dsde.Block` whose layout is integer byte offsets. Free is the ghost flag `live` going false. The three descriptor arrays are Dafny arrays that stand for the ranks, counts and displacement sections; that they lie inside the one block is stated by the layout only. An allocation failure is not modelled, because the code does not check for one.
- Layout.CarveBlock: section alignment is not modelled. The code packs the sections without padding. The `int` rank array starts at byte 48 + `rbufsize*extent`, so it is misaligned whenever `rbufsize*extent` is not a multiple of 4. The `MPI_Aint` count array starts at byte 48 + `rbufsize*extent` + 4n, so it is misaligned whenever `rbufsize*extent + 4n` is not a multiple of 8.
- Layout.CarveBlock: the header is taken to be 48 bytes, `int` 4 bytes and `MPI_Aint` 8 bytes, which is the LP64 layout of `handle_dsde_exchange_t`. Other ABIs are not modelled.
- Sizes.DenseSizes: counts are unbounded non-negative integers. The conversion of each `MPI_Aint` count to `int` at dsde.cpp:31 is not modelled, and neither is a negative count (a transport error). Counts beyond the native integer range are outside the design.
- Shape.ReceiveShape: `rbufsize` and `num_incoming` are unbounded. The overflow of the `int` accumulators at dsde.cpp:53-56, and of `rbufsize * extent` in the malloc argument, is not modelled.
- Dsde.Free: this is the intended release, which reads the tag of the block the handle points to. The code as written reads the caller's variable instead and frees nothing; `Dsde.FreeAsWritten` models that under "## Findings".
- Dsde.ExchangeThenReleaseTwice: the block ends freed only because this lifecycle uses the intended `Dsde.Free`. With the release as written, `Dsde.ExchangeThenReleaseAsWritten` shows that the block is never freed.
- Dsde.FreeAsWritten: the release of the caller's variable is the ghost flag `live` of `Dsde.HandleSlot`. A later use of that released storage is not modelled. The tag word assumes a little-endian LP64 target. The address of a block is the parameter `addr` of `Dsde.Exchange`, which stands for what malloc returns. `Dsde.ExchangeThenReleaseAsWritten` requires it to have malloc's 16-byte alignment.
- Sizes.DenseSizes: a plan that names a destination twice keeps only the last count (dsde.cpp:31), but dsde.cpp:40-42 still posts one send per entry. The receiver then posts one receive of the last count for several messages, and the exchange does not deliver what was sent. `Sizes.RepeatedDestinationUndercounts` shows such an input. `Sizes.ReceivedTotalFromPlans` states the per-plan conservation only for plans without a repeated destination.
- Dsde.Free: releasing a non-null handle whose block was already freed is undefined behaviour in the code, so `Free` requires a live block. A handle reset by an earlier `Free` is null, and releasing it again is allowed and is a no-op.
- Dsde.RecordReceives: the receive slots start at `srankcount`, not at `reqs.size() - 1` as written. See "## Findings".

## Findings

| source | as written | input that shows it | evidently intended | confidence | as-written member | corrected member |
|---|---|---|---|---|---|---|
| dsde.cpp:104 | `reqoffset = reqs.size() - 1` is read before the resize. The first receive is stored in the last send's slot, so that send request is lost. The last slot is never posted. With no sends the first index is -1, outside the vector. | `srankcount = 1` with one peer sending: the request vector becomes [receive, unposted] instead of [send, receive] | `reqoffset = srankcount`: receive k in slot `srankcount + k` | not executed | `Requests.AsWrittenLosesLastSend` | `Requests.RequestsIntendedExact` |
| dsde.cpp:126-131 | `DSDE_Free` tests `handle != DSDE_HANDLE_NULL`, reads the tag as `*(int*) handle`, calls `free(handle)` and then writes `*handle`. `handle` is the address of the caller's variable, so the "tag" is the low half of the block's address, which malloc aligns and which is never 1. The block is never freed and the handle keeps pointing at it. If the word ever were 1, the caller's variable itself would be freed and then written. | any live handle returned by `DSDE_Exchange`, for a block at a 16-byte-aligned address: after `DSDE_Free` the block is still allocated and the handle unchanged | test `*handle`, read the tag through `*handle`, `free(*handle)`, then `*handle = DSDE_HANDLE_NULL` | not executed | `Dsde.FreeAsWritten` | `Dsde.Free` |
