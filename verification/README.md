# A verified model of the split virtqueue and the demand pager

This project models the hand-written split virtqueue of `toy-virtq-raw`: the byte region that driver and device
share, the layout of the three rings in it, both halves of the queue, and the notification handshake between them. It
proves that the two halves and the bytes together behave like a FIFO. A smaller part models the fault handler of
`toy-uffd-raw`. Section numbers refer to VIRTIO 1.2.

## How it is built

| files | what they hold |
|---|---|
| `words`, `mem` | 16-bit wrapping arithmetic, little-endian numbers, the region with its bounds check |
| `layout`, `rings`, `fields` | every field of the rings as a value with an address and a width; the bytes of the rings read as one record; loads and stores that may be refused |
| `chain`, `acceptance` | the walk over a descriptor chain, which chains it accepts, and where it stops with which error |
| `device_spec`, `device_facts`, `scatter`, `steady`, `passes`, `tally`, `overlap`, `device` | the device: what it does to bytes as functions, what that means for one chain and for a whole pass, and the class |
| `driver_spec`, `driver_facts`, `roundtrip`, `arena`, `driver` | the same for the driver |
| `queue`, `runs`, `results`, `decisions`, `ordering` | unbounded counters and a log beside the 16-bit fields; the invariant of every run and its consequences; what the other side sees between two stores |
| `session`, `bench`, `handout`, `demo` | driver and device objects whose every call is a step of such a run; the notification loop; requests answered and read back |
| `wire` | the bytes of the rings and what the two halves store there, by address and weight |
| `notify`, `wakeup` | the notification predicate, and the kick handshake interleaved access by access |
| `pager` | the fault handler against a model of the kernel |

Three layers carry the main results. Bytes: storing into a field updates one component of a record (`ViewOfPut`) and the
record determines the bytes (`ViewDetermines`). Counters: `Queue.Inv` ties each 16-bit counter to an unbounded count
and says which ring slots, table entries and free-list entries are live. Runs: every operation keeps `Queue.Inv`
(`Runs.StepKeeps`), so it holds after every run, and each method of the classes is one such operation.

The methods of the two halves are proved against functions over the region's bytes, for any region, also one that cuts the
rings off. What those functions mean is stated by lemmas that do not mention them: paths through the table, contents of
buffers, order of a log, counts of an unbounded counter. `Demo.Exchange` joins the two at the level of objects: what
the driver reads back is the closure applied to what it wrote.

Five operations have two specifications. Primary are those for any region, with refused accesses: `PendingIn`, `HeadIn`,
`Turn` and `After`, `Rearm`, `CollectIn`, and the lists of stores behind `Complete` and `WriteAll`. The methods are proved
against these. `Pending`, `Head`, `ServeNext` and `Drain`, `Rearmed`, `Collect`, `PutUsed` and `PutChain` are what they become
when the rings lie in the region, where nothing is refused (`PendingShown`, `TurnServes`, `AfterDrains`, `RearmStores`,
`CollectInShows`, `CompletePuts`, `WriteAllPuts`); the theorems about runs use these.

## Where the code and its documentation differ

- `TooLong` is described as meaning a cycle. The length test comes before the index test, so a chain that visits every
  descriptor and then names one outside the table reports `TooLong` as well (`Acceptance.TooLongWithoutCycle`). It means
  a cycle if and only if the last descriptor names one inside the table (`Acceptance.TooLongExactly`,
  `Acceptance.CycleNeverEnds`).
- `rejected` is described as having one entry per refused chain. An accepted chain adds one for each readable buffer
  outside the region, and one more if and only if a writable buffer ends outside it before the response is used up
  (`ScatterGather.ServeReports`, `ScatterGather.ScatterEnds`); `ScatterGather.OneChainTwoReports` shows a chain with two.
- The rule that readable descriptors come first is cited as section 2.7.5.3; it is section 2.7.4.2.
- `alloc` cuts the length of its data to 32 bits before reserving room. What it stores stays inside its own allocation
  exactly when the data is shorter than 2^32 bytes (`Arena.AllocStaysWithin`); longer data that the region accepts is stored
  over the next allocation (`Arena.LongDataOverlaps`).
- `arm_used_event` does not look again after arming. The interrupt it asks for comes exactly when the previous decision
  had not already passed what the driver collected (`Decisions.ArmedInterruptExactly`); `Decisions.ArmedTooLate` is a run
  where it does not.
- `process` reads `avail.idx` again on every turn. It ends when no pending chain makes the device write over the bytes
  it reads, which are the descriptor table, `avail.idx` and the avail slots (`Steadiness.SteadyPassEnds`). When a pending
  chain's writable bytes, up to some point inside the region, contain both bytes of `avail.idx`, there is a closure with
  which it never ends (`Overlap.OverlapNeverEnds`); a driver can submit such a chain (`Overlap.DriverCanOverlap`).

## Model

| member | source | states |
|---|---|---|
| Memory.SharedMem.Range | rung-02-virtio/toy-virtq-raw/src/mem.rs:86-96 | the bounds check accepts exactly the accesses that end inside the region, also when `addr + len` exceeds 64 bits |
| Memory.SharedMem.ReadSlice | rung-02-virtio/toy-virtq-raw/src/mem.rs:98-100 | an accepted read returns exactly the bytes of its range |
| Memory.SharedMem.ReadWord | rung-02-virtio/toy-virtq-raw/src/mem.rs:108-121 | a typed read is accepted exactly if it ends inside the region, and its value then has the byte at `addr + i` as its digit of weight 256^i; otherwise it reports the refused range |
| Memory.SharedMem.WriteSlice | rung-02-virtio/toy-virtq-raw/src/mem.rs:102-106 | a store replaces its whole range and no other byte, or nothing |
| Memory.SharedMem.WriteWord | rung-02-virtio/toy-virtq-raw/src/mem.rs:123-129 | after a typed store the byte at `addr + i` is the digit of weight 256^i of the value and no other byte differs; a refused store changes nothing |
| Words.DecodeEncode | rung-02-virtio/toy-virtq-raw/src/mem.rs:123-129 | decoding an encoded number gives it back, for every width |
| Words.EncodeDecode | rung-02-virtio/toy-virtq-raw/src/mem.rs:108-121 | encoding a decoded number gives the bytes back |
| VirtqLayout.New | rung-02-virtio/toy-virtq-raw/src/layout.rs:141-159 | for every power-of-two size up to 32768 and every base for which the rings end below 2^64, the rings are aligned 16/2/4, in order and without overlap, at the first aligned address |
| VirtqLayout.FieldsApart | rung-02-virtio/toy-virtq-raw/src/layout.rs:174-223 | any two different fields of the rings, descriptors and slots included, occupy disjoint bytes inside `[desc_table, end)` |
| VirtqLayout.FieldsCover | rung-02-virtio/toy-virtq-raw/src/layout.rs:161-170 | the fields and the padding leave no byte of `[desc_table, end)` uncovered, and `avail_event` ends at `end` |
| VirtqLayout.FieldsFollow | rung-02-virtio/toy-virtq-raw/src/layout.rs:174-223 | the order of the fields: each ring begins with its first one, every other begins where the one before it ends, and the widths are 8, 4, 2, 2 in a descriptor, 2 for flags, indices, slots and events, 4 and 4 in a used element |
| VirtqLayout.WrapKeepsSlot | rung-02-virtio/toy-virtq-raw/src/layout.rs:137-140 | a wrapped counter names the slot its unbounded count names, because the queue size divides 65536 |
| VirtqLayout.SlotsDistinct | rung-02-virtio/toy-virtq-raw/src/layout.rs:193-218 | any `queue_size` consecutive entries have different slots, across the wrap too |
| VirtqLayout.SlotsInTurn | rung-02-virtio/toy-virtq-raw/src/layout.rs:193-218 | entry 0 goes to slot 0, each further one to the next slot, and after the last slot comes slot 0 again |
| Rings.FlagBits | rung-02-virtio/toy-virtq-raw/src/layout.rs:91-101 | bit 0 of the flags says that there is a next descriptor, bit 1 that the device may write, bit 2 that the descriptor is indirect, whatever the other bits are |
| Rings.NumOfPut | rung-02-virtio/toy-virtq-raw/src/layout.rs:172-223 | storing into one field changes that field and no other |
| Rings.ViewOfPut | rung-02-virtio/toy-virtq-raw/src/layout.rs:172-223 | the bytes of the rings refine a record: a store into a field is an update of one component |
| Rings.ViewDetermines | rung-02-virtio/toy-virtq-raw/src/layout.rs:141-223 | the record misses nothing: regions that agree outside the rings and show the same record are equal |
| Wire.DescriptorsOnWire | rung-02-virtio/toy-virtq-raw/src/device.rs:179-188 | a descriptor stands at 16 times its index in the table as 8 bytes of address, 4 of length, 2 of flags and 2 of the next index, least significant byte first |
| Wire.AvailOnWire | rung-02-virtio/toy-virtq-raw/src/layout.rs:184-201 | the bytes of the avail ring: flags at 0, index at 2, the slots from 4 on, `used_event` after the last slot |
| Wire.UsedOnWire | rung-02-virtio/toy-virtq-raw/src/layout.rs:205-223 | the bytes of the used ring: flags at 0, index at 2, pairs of a head and a length from 4 on, `avail_event` after the last pair |
| Wire.ChainOnWire | rung-02-virtio/toy-virtq-raw/src/driver.rs:128-158 | the bytes `add_chain` leaves: for each buffer its address, its length, flag 2 if the device may write it, flag 1 and the next index unless it is the last; the head in the slot of the entry; the count of entries |
| Wire.CompletionOnWire | rung-02-virtio/toy-virtq-raw/src/device.rs:292-302 | the bytes `add_used` leaves: head and length in the slot of the completion, and the count of completions |
| ChainWalk.ChainIter.constructor | rung-02-virtio/toy-virtq-raw/src/device.rs:102-116 | a walk begins at the head with `ttl` equal to the queue size |
| ChainWalk.ChainIter.Next | rung-02-virtio/toy-virtq-raw/src/device.rs:121-177 | one step of the iterator is one `Advance` over the table the bytes hold, whatever they are |
| Acceptance.AcceptsExactly | rung-02-virtio/toy-virtq-raw/src/device.rs:57-81 | the walk accepts exactly the chains that end when followed without limit, in range, without indirect descriptors, readable first, below 2^32 bytes, and yields all of them |
| Acceptance.RefusesExactly | rung-02-virtio/toy-virtq-raw/src/device.rs:121-177 | for a table of any contents and every kind of error: it is reported if and only if a lawful trail of at most as many descriptors as the table has leads from the head to where it is due, which is stated by index, readability, flags, total and length of the trail; the walk has then yielded just that trail |
| Acceptance.TooLongExactly | rung-02-virtio/toy-virtq-raw/src/device.rs:125-137 | `TooLong` is reported exactly for trails as long as the table that still go on, and such a trail goes back to a descriptor it visited if and only if it goes on inside the table |
| Acceptance.CycleNeverEnds | rung-02-virtio/toy-virtq-raw/src/device.rs:124-128 | a trail that goes back to one of its descriptors can be followed to any length |
| Acceptance.TooLongWithoutCycle | rung-02-virtio/toy-virtq-raw/src/device.rs:124-137 | a one-entry table that reports `TooLong` without a cycle |
| Acceptance.ChainFitsTable | rung-02-virtio/toy-virtq-raw/src/device.rs:108-111 | a chain that ends visits no descriptor twice, so `ttl` rejects none |
| Acceptance.WalkBounded | rung-02-virtio/toy-virtq-raw/src/device.rs:152-160 | what a walk yields totals less than 2^32 bytes for any table, errors included |
| DeviceSpec.WrittenFits | rung-02-virtio/toy-virtq-raw/src/device.rs:423-437 | `written` cannot overflow 32 bits |
| DeviceFacts.ViewOfPutUsed | rung-02-virtio/toy-virtq-raw/src/device.rs:292-302 | a completion changes one used slot and the used index, in the record and in the bytes |
| Passes.PassExact | rung-02-virtio/toy-virtq-raw/src/device.rs:366-444 | a pass over `n` chains that keep the device out of the rings, whatever else they overlap: exactly those are popped and completed once each in order, nothing else in the rings changes, and each turn is exact in its request, the bytes it stores, the length it reports and the bytes it leaves alone |
| Passes.PassServes | rung-02-virtio/toy-virtq-raw/src/device.rs:366-444 | a pass over any number of chains outside the rings that do not write into each other: `work` is asked, chain by chain, what the readable buffers held when the pass began; each answer is stored in its own chain's writable buffers; each completion reports exactly what was stored; no other byte outside the rings changes |
| Passes.PassReports | rung-02-virtio/toy-virtq-raw/src/device.rs:423-439 | whatever the buffers overlap, each completion of a pass reports what could be stored of the answer to that chain's request |
| Passes.PassIsClean | rung-02-virtio/toy-virtq-raw/src/device.rs:396-432 | accepted chains all of whose buffers lie in the region add nothing to `rejected` |
| Tally.PassCounts | rung-02-virtio/toy-virtq-raw/src/device.rs:366-444 | over any region, however many chains a pass has served: `chains` is the number of completions, `descriptors` the descriptors their walks yield, `bytes_read` the bytes of their in-region readable buffers, `bytes_written` the sum of the lengths reported |
| Results.PassCounted | rung-02-virtio/toy-virtq-raw/src/device.rs:366-444 | the same for a pass of a run, by the chains that waited, the requests asked and the completions the log gains; and no complaint if all of them are accepted and in the region |
| Steadiness.SteadyPassEnds | rung-02-virtio/toy-virtq-raw/src/device.rs:369-444 | a pass ends, having taken exactly the chains available at entry in order and completed each once, whenever no chain writes over the bytes the pass reads; overlapping the used ring does not matter |
| Steadiness.AfterTakes | rung-02-virtio/toy-virtq-raw/src/device.rs:366-444 | the same about every turn over any region, the rings lying in it or not |
| DeviceFacts.UsedRingAfterDrain | rung-02-virtio/toy-virtq-raw/src/device.rs:292-302 | all completions of a pass no longer than the ring stand in the used ring |
| DeviceFacts.UsedRingElsewhere | rung-02-virtio/toy-virtq-raw/src/device.rs:292-302 | slots a pass does not complete into keep their contents |
| ScatterGather.GatherSplits | rung-02-virtio/toy-virtq-raw/src/device.rs:407-415 | for any addresses, the request is the buffers inside the region joined in order, and each other buffer is reported once |
| ScatterGather.ScatterEnds | rung-02-virtio/toy-virtq-raw/src/device.rs:425-432 | for any addresses, storing fails if and only if some writable buffer ends outside the region before the response is used up, at the first such buffer, with what the buffers before it hold stored; otherwise everything that fits is stored |
| ScatterGather.EndsOnce | rung-02-virtio/toy-virtq-raw/src/device.rs:425-432 | that condition fixes the length and the failure: no two outcomes satisfy it |
| ScatterGather.ScatterPlaces | rung-02-virtio/toy-virtq-raw/src/device.rs:423-437 | for any buffers, overlapping ones included, each stored byte of the response is at its place, the last one where several share it, and no other byte changes |
| ScatterGather.ScatterExact | rung-02-virtio/toy-virtq-raw/src/device.rs:419-437 | in-region separate buffers, read in order, hold the response cut where they are full and then their old contents; the length is what was stored |
| ScatterGather.ServeExact | rung-02-virtio/toy-virtq-raw/src/device.rs:407-440 | any accepted chain: `work` sees the readable buffers inside the region, the answer is at its places in the writable ones, every other byte is unchanged, and length, statistics and complaints are exact |
| ScatterGather.ServeInRegion | rung-02-virtio/toy-virtq-raw/src/device.rs:407-440 | if the writable buffers lie in the region apart from each other, they read as the answer cut to their room, followed by what they held |
| ScatterGather.ServeRefused | rung-02-virtio/toy-virtq-raw/src/device.rs:396-404 | a malformed chain is reported once and completed with length 0; it reaches neither `work` nor any buffer |
| ScatterGather.ServeReports | rung-02-virtio/toy-virtq-raw/src/device.rs:407-432 | which entries an accepted chain adds to `rejected`: one per readable buffer outside the region, in order with its range, and then one exactly if a writable buffer refuses its share |
| ScatterGather.OneChainTwoReports | rung-02-virtio/toy-virtq-raw/src/device.rs:407-414 | a chain that is reported twice |
| ScatterGather.ServeNextTouches | rung-02-virtio/toy-virtq-raw/src/device.rs:372-440 | for arbitrary bytes, completing a chain changes at most its used slot, the used index and its writable buffers; of a malformed chain's buffers nothing |
| Overlap.OverlapNeverEnds | rung-02-virtio/toy-virtq-raw/src/device.rs:369 | if some pending chain is accepted and its writable bytes, up to some point inside the region, contain both bytes of `avail.idx`, whatever else the region holds, there is a closure with which every turn of the pass is followed by another |
| Overlap.DriverCanOverlap | rung-02-virtio/toy-virtq-raw/src/driver.rs:111-161 | one `add_chain` on a fresh queue builds such a chain |
| DeviceSide.Device.Available | rung-02-virtio/toy-virtq-raw/src/device.rs:262-269 | the wrapped distance from the device's position to `avail.idx`, or the refused read, for any region |
| DeviceSide.Device.PopChainHead | rung-02-virtio/toy-virtq-raw/src/device.rs:272-279 | takes the head at the device's position and moves one on exactly when something is available and its slot can be read; otherwise nothing moves |
| DeviceSide.Device.AddUsed | rung-02-virtio/toy-virtq-raw/src/device.rs:292-302 | stores the element at the device's position and then publishes the next index; a refused store leaves what was stored before it, and the counters move only once the element is stored |
| DeviceSide.Device.NeedsNotification | rung-02-virtio/toy-virtq-raw/src/device.rs:311-320 | decides about every completion since the previous call and starts counting anew |
| DeviceSide.Device.EnableNotification | rung-02-virtio/toy-virtq-raw/src/device.rs:333-345 | stores the request and reports whether chains wait |
| DeviceSide.Device.CollectChain | rung-02-virtio/toy-virtq-raw/src/device.rs:374-394 | the loop over the iterator sorts the walked descriptors by direction |
| DeviceSide.Device.GatherRequest | rung-02-virtio/toy-virtq-raw/src/device.rs:408-414 | the loop computes `Gather` and reports its failures |
| DeviceSide.Device.ScatterResponse | rung-02-virtio/toy-virtq-raw/src/device.rs:423-436 | the loop leaves the region `Scatter` describes |
| DeviceSide.Device.ServeChain | rung-02-virtio/toy-virtq-raw/src/device.rs:370-440 | one turn serves the chain and publishes its completion, or returns the store that was refused, for any region |
| DeviceSide.Device.Process | rung-02-virtio/toy-virtq-raw/src/device.rs:366-444 | for any region and chains that keep off what the pass reads: ends after at most as many chains as were available, with nothing left or with the refused access; over rings in the region it serves exactly those available on entry; the counters returned are those of the completions published, which stand in the used ring |
| DeviceSide.ClearsBitZero | rung-02-virtio/toy-virtq-raw/src/device.rs:336-340 | re-arming with plain flags clears bit 0 and keeps the others |
| DriverFacts.PublishKeeps | rung-02-virtio/toy-virtq-raw/src/driver.rs:128-130 | publishing keeps the partition of descriptors, and its head was not outstanding |
| DriverFacts.RetireKeeps | rung-02-virtio/toy-virtq-raw/src/driver.rs:204-206 | collecting keeps the partition whatever id the used ring names |
| DriverFacts.FreshInOrder | rung-02-virtio/toy-virtq-raw/src/driver.rs:57-58 | a new driver hands out its descriptors in ascending order |
| DriverFacts.FreedIsNext | rung-02-virtio/toy-virtq-raw/src/driver.rs:128-205 | the descriptors of a collected chain are the next to be handed out, the last one first |
| DriverFacts.DescriptorsConserved | rung-02-virtio/toy-virtq-raw/src/driver.rs:111-211 | over any sequence of publications and collections from any used rings, each descriptor is free or in exactly one outstanding list |
| DriverFacts.ViewOfPutChain | rung-02-virtio/toy-virtq-raw/src/driver.rs:132-151 | writing a chain sets exactly its descriptors in the table |
| RoundTrip.WalkHeld | rung-02-virtio/toy-virtq-raw/src/driver.rs:132-151 | walking a written chain yields its buffers in order with their directions if they total less than 2^32 bytes; otherwise it is refused for that, having yielded the longest front part that totals less |
| Arena.AscendExactly | rung-02-virtio/toy-virtq-raw/src/driver.rs:82-92 | the buffers handed out follow each other if and only if none but the last ends where rounding up leaves 64 bits |
| Arena.BumpExactly | rung-02-virtio/toy-virtq-raw/src/driver.rs:82-92 | exactly the requests that end inside the arena are served, at the pointer, which then moves to the first multiple of 8 from their end |
| Arena.AllocationsFollow | rung-02-virtio/toy-virtq-raw/src/driver.rs:82-92 | over any requests, every buffer handed out after the first begins at the first multiple of 8 from the end of the one before |
| Arena.AllocationsSeparate | rung-02-virtio/toy-virtq-raw/src/driver.rs:82-92 | over any requests that leave that room, allocations are disjoint, inside the arena and outside the rings |
| Arena.AllocStaysWithin | rung-02-virtio/toy-virtq-raw/src/driver.rs:75-79 | `alloc` stores below its next allocation if and only if the data is shorter than 2^32 bytes and the pointer can be rounded up |
| Arena.LongDataOverlaps | rung-02-virtio/toy-virtq-raw/src/driver.rs:75-92 | longer data that the region accepts is stored over the next allocation |
| Arena.LongDataFits | rung-02-virtio/toy-virtq-raw/src/driver.rs:75-92 | such data exists for every queue that ends below 2^32 |
| DriverSide.Driver.constructor | rung-02-virtio/toy-virtq-raw/src/driver.rs:51-64 | all counters are 0, every descriptor is free, nothing is outstanding, and the arena begins at the first multiple of 16 after the rings |
| DriverSide.Driver.AllocUninit | rung-02-virtio/toy-virtq-raw/src/driver.rs:82-92 | hands out the bytes at the pointer if they end inside the arena, and moves the pointer to the first multiple of 8 from there; otherwise refuses and moves nothing |
| DriverSide.Driver.Alloc | rung-02-virtio/toy-virtq-raw/src/driver.rs:75-79 | reserves the cut length, then stores all of the data or nothing |
| DriverSide.Driver.AddChain | rung-02-virtio/toy-virtq-raw/src/driver.rs:111-161 | refuses for lack of descriptors and changes nothing, or writes every descriptor, the slot and the index in that order; a refused store leaves exactly what was stored before it and the descriptors taken |
| DriverSide.Driver.NeedsKick | rung-02-virtio/toy-virtq-raw/src/driver.rs:171-180 | decides about every publication since the previous call |
| DriverSide.Driver.ArmUsedEvent | rung-02-virtio/toy-virtq-raw/src/driver.rs:187-189 | asks for an interrupt after the next completion not yet collected |
| DriverSide.Driver.CollectUsed | rung-02-virtio/toy-virtq-raw/src/driver.rs:194-211 | takes every completion up to the used index in order, or stops at the first that cannot be read with those before it taken, keeping the partition for any used ring |
| Queue.InFlight | rung-02-virtio/toy-virtq-raw/src/driver.rs:116-130 | at most `queue_size` chains are published and not collected |
| Queue.PendingChains | rung-02-virtio/toy-virtq-raw/src/device.rs:262-279 | the device finds exactly the published chains it has not taken, in order, and all harmless |
| Queue.CollectInOrder | rung-02-virtio/toy-virtq-raw/src/driver.rs:194-211 | collecting takes the oldest uncollected completions in order and frees exactly their chains |
| Queue.ProcessKeeps | rung-02-virtio/toy-virtq-raw/src/device.rs:366-444 | a pass answers every published chain and keeps the invariant; uncollected completions are not overwritten |
| Runs.StepKeeps | rung-02-virtio/toy-virtq-raw/src/driver.rs:111-211 | every operation of either half, and the guest writing its own memory, keeps the invariant |
| Results.EveryRunIsFifo | rung-02-virtio/toy-virtq-raw/src/layout.rs:34-44 | after any run the device popped exactly the published heads in order, the driver collected exactly the completions in order, each completion reports what a pass of the run stored for its chain, at most `queue_size` are in flight, and every uncollected chain still reads back from the table |
| Ordering.SpareStores | rung-02-virtio/toy-virtq-raw/src/driver.rs:97-110 | any stores into free descriptors, ring slots without a live entry and hint fields, in any order, keep the invariant of the queue |
| Ordering.HalfPublishedIsInvisible | rung-02-virtio/toy-virtq-raw/src/driver.rs:97-158 | after any number of the stores of `add_chain` before the last, the device sees exactly the chains published before, each intact |
| Ordering.PublishStoresAre | rung-02-virtio/toy-virtq-raw/src/driver.rs:132-158 | those stores, then the index, are `add_chain` |
| Ordering.IndexShowsOneMore | rung-02-virtio/toy-virtq-raw/src/driver.rs:97-110 | storing the index makes one more chain visible whatever was stored before it |
| Ordering.HalfCompletedIsInvisible | rung-02-virtio/toy-virtq-raw/src/device.rs:292-302 | after any number of the stores of `add_used` before the last, the driver collects exactly the completions published before |
| Ordering.CompleteStoresAre | rung-02-virtio/toy-virtq-raw/src/device.rs:292-302 | those stores, then the index, are `add_used` |
| Ordering.UsedIndexShowsOneMore | rung-02-virtio/toy-virtq-raw/src/device.rs:292-302 | storing the used index makes one more completion visible whatever was stored before it |
| Ordering.RefusedChainIsInvisible | rung-02-virtio/toy-virtq-raw/src/driver.rs:132-158 | over any region, when a store of `add_chain` is refused, `avail.idx` is as it was |
| Ordering.RefusedCompletionIsInvisible | rung-02-virtio/toy-virtq-raw/src/device.rs:292-302 | over any region, when a store of `add_used` is refused, `used.idx` is as it was; and if the element could not be stored, the device has not moved on |
| Ordering.PopKeeps | rung-02-virtio/toy-virtq-raw/src/device.rs:272-279 | taking a chain keeps the invariant, so it holds while the device works on one |
| Results.PassAndCollect | rung-02-virtio/toy-virtq-raw/src/main.rs:174-186 | a pass and a collection answer everything published and return every descriptor to the free list |
| Results.RequestsAndResponses | rung-02-virtio/toy-virtq-raw/src/device.rs:366-444 | a pass over any number of waiting chains in terms of the buffers the driver submitted: each closure argument, the bytes that arrive, the reported length, and that nothing else outside the rings changes |
| Results.PassReportsNothing | rung-02-virtio/toy-virtq-raw/src/main.rs:183-185 | chains below 2^32 bytes with all buffers in the region leave `rejected` empty |
| Notify.NeedEventExactly | rung-02-virtio/toy-virtq-raw/src/layout.rs:226-253 | the predicate holds exactly when the unbounded counter came due within the distance the wrapped counters show |
| Notify.ChecksTile | rung-02-virtio/toy-virtq-raw/src/layout.rs:247-250 | consecutive checks less than 65536 apart fire exactly once each time the counter comes due, however batches fall |
| Notify.FullLapIsSilent | rung-02-virtio/toy-virtq-raw/src/layout.rs:251-253 | a check a whole lap after the previous one never fires |
| Notify.FiresUnlessPassed | rung-02-virtio/toy-virtq-raw/src/layout.rs:251-253 | a request made at a count fires at a later check exactly if the previous check had not passed it |
| Decisions.DecisionsExactly | rung-02-virtio/toy-virtq-raw/src/device.rs:311-320 | in every run both decisions are about what happened since the previous one of their kind |
| Decisions.ArmedInterruptFires | rung-02-virtio/toy-virtq-raw/src/driver.rs:187-189 | a driver that armed with everything collected is interrupted by the first decision after a further completion |
| Decisions.ArmedInterruptExactly | rung-02-virtio/toy-virtq-raw/src/driver.rs:187-189 | otherwise exactly when the previous decision had not passed what it collected |
| Decisions.ArmedTooLate | rung-02-virtio/toy-virtq-raw/src/driver.rs:187-189 | a run in which the interrupt does not come |
| Wakeup.StepKeeps | rung-02-virtio/toy-virtq-raw/src/device.rs:319-345 | every access of either thread keeps the invariant of the kick handshake |
| Wakeup.NoLostWakeup | rung-02-virtio/toy-virtq-raw/src/device.rs:322-345 | in every state of every interleaving, a device asleep while chains wait has a kick on its way or is owed a check that will kick |
| Wakeup.DistanceIsBacklog | rung-02-virtio/toy-virtq-raw/src/device.rs:262-269 | in every state of every interleaving the wrapped distance the device computes is the number of chains that wait |
| Wakeup.OwedCheckExactly | rung-02-virtio/toy-virtq-raw/src/driver.rs:171-180 | without any bound on publications between checks, in every interleaving: while the device sleeps and chains wait, the next check kicks exactly if the publications since the last one, modulo 65536, reach back to the first waiting chain |
| Wakeup.CheckExactly | rung-02-virtio/toy-virtq-raw/src/driver.rs:171-180 | with at most 65535 publications between checks, the next check sends a device asleep without a kick on its way a kick if and only if a chain waits |
| Wakeup.BoundIsNeeded | rung-02-virtio/toy-virtq-raw/src/driver.rs:171-180 | an interleaving with 65536 publications between checks that ends with the device asleep, chains waiting, no kick on its way and a check that will not kick |
| Wakeup.RecheckIsNeeded | rung-02-virtio/toy-virtq-raw/src/device.rs:322-329 | without the second look a wake-up is lost |
| Session.Session.Alloc | rung-02-virtio/toy-virtq-raw/src/driver.rs:75-92 | hands out the next buffer of the arena and stores the data, a write of the guest outside the rings, if the region accepts it; for data of any length |
| Session.Session.Submit | rung-02-virtio/toy-virtq-raw/src/driver.rs:111-161 | on objects, `add_chain` is the submit step of a run and returns the chain's head |
| Session.Session.Process | rung-02-virtio/toy-virtq-raw/src/device.rs:366-444 | on objects, `process` is the process step of a run without error; its counters are those of the chains that waited and of the completions the log gains; and it answers every waiting chain as above if they do not write into each other |
| Session.Session.CollectUsed | rung-02-virtio/toy-virtq-raw/src/driver.rs:194-211 | on objects, `collect_used` is the collect step and returns what the log gains |
| Session.Session.EnableNotification | rung-02-virtio/toy-virtq-raw/src/device.rs:333-345 | its answer says whether published chains wait |
| Bench.Burst | rung-02-virtio/toy-virtq-raw/src/main.rs:387-418 | a burst of any size that fits costs one kick and one interrupt with EVENT_IDX, and a kick per request without |
| Bench.BenchNotification | rung-02-virtio/toy-virtq-raw/src/main.rs:362-420 | the exact kick and interrupt counts for any total and batch |
| Bench.BenchBursts | rung-02-virtio/toy-virtq-raw/src/main.rs:387-418 | the exact counts for bursts of any non-zero sizes that fit the queue |
| Handout.ArenaIsIndependent | rung-02-virtio/toy-virtq-raw/src/driver.rs:82-92 | chains over consecutive buffers from the arena do not write into each other, and their buffers lie in the region and outside the rings |
| Demo.Fill | rung-02-virtio/toy-virtq-raw/src/main.rs:103-110 | stores the pieces of a request in new readable buffers and leaves every buffer handed out before as it was |
| Demo.Exchange | rung-02-virtio/toy-virtq-raw/src/main.rs:102-187 | any requests in any pieces, on an idle queue with room for them: what the driver reads back by walking its chains is the closure's answer to each joined request, cut to the reply buffer; nothing is reported and every descriptor is back |
| Demo.Demonstrate | rung-02-virtio/toy-virtq-raw/src/main.rs:93-187 | the same from a fresh queue |
| Pager.Pager.Copy | rung-03-uffd/toy-uffd-raw/src/main.rs:144-155 | the kernel's copy as the handler sees it: the absent pages at the front of the run are installed, each with all 4096 bytes of its place in the source; all of them, none or a part gives the byte count, zero or an error |
| Pager.Pager.HandleFault | rung-03-uffd/toy-uffd-raw/src/main.rs:107-157 | one fault installs the clamped run at the faulting page as far as it is absent, counts it if it was installed entirely, and ends the handler if only a part was |
| Pager.Pager.Walk | rung-03-uffd/toy-uffd-raw/src/main.rs:452-463 | an ascending walk takes one fault per batch, installs every page once, never copies onto a present page, and reads each page's own contents |
| Pager.Pager.Rounds | rung-03-uffd/toy-uffd-raw/src/main.rs:452-463 | the same over any number of reset-then-walk rounds, with the bytes read in every round |
| Pager.Pager.TouchAll | rung-03-uffd/toy-uffd-raw/src/main.rs:211-258 | with batch 1, touches in any order fault once per distinct absent page, install exactly those pages, and read each page's own contents |

## Left out

- DeviceSide.Device.Process: requires that no pending chain writes over the descriptor table, `avail.idx` or the avail slots. What a pass over other chains does turn by turn is `DeviceSpec.Turn`; whether it ends depends on every answer of the closure, and no condition on the queue alone that decides it is given beyond the two in `Steadiness.SteadyPassEnds` and `Overlap.OverlapNeverEnds`.
- Overlap.OverlapNeverEnds: covers chains that can write both bytes of `avail.idx`; overlaps with one byte of it only, with avail slots or with the table are between the two conditions, because what they lead to depends on bytes the chain itself replaces.
- Passes.PassServes: the contents at the start of the pass are what matters only for chains that do not write into each other; otherwise each request is that of its turn, as in `Passes.PassReports`.
- DriverSide.Driver.AddChain: the fences between its stores are not observable; `Ordering` states what the other side sees between two stores under sequential consistency.
- DriverSide.Driver.AllocUninit: rounding past 64 bits comes out as 0, as in a build without overflow checks; with them the source panics there.
- DeviceSpec.WrittenFits: statistics are unbounded numbers; only `written`, which the device publishes, is bounded.
- VirtqLayout.New: takes the non-overflow of the addresses as a precondition, where the source would panic or wrap; layouts whose rings are placed independently are not modelled.
- Results.EveryRunIsFifo: concerns a driver that lets the device write outside the rings only; what holds for arbitrary bytes is stated per chain, per pass and per driver.
- Demo.Exchange: takes enough room in arena and table, and totals below 2^32 bytes, as preconditions, where the program would stop; the traces it prints are not modelled.
- Pager.Pager.Touch: requires the pages ahead that a fault would install to be absent, as the source's forward walk does; batches with out-of-order touches are not modelled.
- Wakeup.NoLostWakeup: the two threads touch `avail.idx` and `avail_event`; descriptors and ring slots are left to `Ordering` and to the runs, whose operations are whole calls.
- `disable_notification` and the two coarse suppression flags, which neither half reads to decide on a notification.
- The unused error constructor for a buffer outside the region, the accessors that only return a field, and the `Display` impls.
- Indirect descriptors and packed queues, which the source does not implement.
- The system calls behind the pager, and its threads: a touch waits for its fault, so one handler turn runs per fault.
- Timing, quantiles, argument parsing and CSV output of the two programs, and the demonstration of malformed chains.
- All of `rung-01-kvm`, and the variants built on published crates whose source is not part of this model.
