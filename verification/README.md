# io_uring port scanner core, modelled in Dafny

This project models the scan engine of an io_uring-based TCP port scanner
that looks for game servers across the whole IPv4 space. It has three
pieces, and the model proves properties of each:

- **The slot pool** (`EntryAllocator<T>`, module `EntryAlloc`). It is a
  fixed vector of optional cells plus a LIFO stack of free indices.
  The partition invariant `Valid` says the free list has no duplicates and a
  cell is empty exactly when its index is on the free list. `New`, `Alloc`
  and `Dealloc` establish or keep that invariant. Each of them touches only
  the chosen cell. The queries `IsFull`, `IsEmpty` and `Size` are read off
  the free-list length, and they are proved to agree with the actual number
  of occupied cells.
- **The address enumerator** (`IpIterator`, module `IpIterator`). It runs
  the additive recurrence `pick := (pick + c) mod 2^32`, a linear
  congruential generator with unit multiplier. The main theorem
  `FullPeriod` says that when gcd(2^32, c) = 1, a fresh iterator yields
  exactly 2^32 pairwise distinct addresses covering `[0, 2^32)`, and then
  `None` forever. `NonCoprimeStepCutsShort` is the converse: without
  coprimality the iterator stops early. Both rest on Euclid's lemma and
  Bezout's identity in module `NumberTheory`, which are proved for a
  general modulus and then used with M = 2^32. The step filter of
  `pick_random_coprime` accepts only odd steps in `[2^30, 3·2^30]`, so
  `pick + c` cannot overflow a `u64`.
- **The scan loop** of `main` (module `ScanLoop`), with the kernel queue
  abstracted away.
  - The fill phase `Fill` allocates until the pool is full. It tags each
    connect with its slot index and each linked timeout with `u64::MAX`,
    and it panics when the enumerator is exhausted.
  - The drain phase `HandleCompletion`/`Drain` skips timeout completions and
    frees the named slot. It hands the record to the probe exactly when the
    result is 0, and panics on a slot that is not occupied.
  - `chat_to_str` (module `ChatText`) is proved to be the pre-order
    concatenation of the chat tree's texts.

Every entity is an immutable datatype and every operation is a pure
function, except the fill loop, which is a method with loop invariants.

## Model

| member | source | states |
|---|---|---|
| EntryAlloc.New | src/entry_alloc.rs:7-12 | `new(size)` has `size` empty cells and free list `0..size-1` in order; the pool satisfies the partition invariant and has no occupied cell |
| EntryAlloc.Alloc | src/entry_alloc.rs:14-17 | fails exactly when the pool is full, leaving it unchanged; otherwise returns the last free index, which was empty, pops exactly that index, stores the value there, leaves every other cell unchanged, keeps the invariant, and adds exactly that index to the occupied set |
| EntryAlloc.Dealloc | src/entry_alloc.rs:19-27 | on an occupied cell returns its payload, empties it and pushes the index; on an empty cell returns None and changes nothing; touches no other cell, keeps the invariant and removes exactly that index from the occupied set; an index past the cells is excluded, as it panics in the source |
| EntryAlloc.IsFull | src/entry_alloc.rs:29-31 | for a valid pool, the free list is empty exactly when every cell is occupied |
| EntryAlloc.IsEmpty | src/entry_alloc.rs:33-35 | for a valid pool, the free list covers all cells exactly when no cell is occupied |
| EntryAlloc.Size | src/entry_alloc.rs:37-39 | for a valid pool, capacity minus free-list length is the number of occupied cells and at most the capacity |
| EntryAlloc.SizeCountsOccupied | src/entry_alloc.rs:2-3 | under the partition invariant, free-list length plus number of occupied cells equals the number of cells |
| EntryAlloc.AllocSucceedsBelowCapacity | src/entry_alloc.rs:14-15 | a valid pool accepts an allocation exactly while fewer cells than its capacity are occupied, so N allocations succeed from empty and the next one fails |
| EntryAlloc.DeallocThenAllocReuses | src/entry_alloc.rs:15-22 | LIFO reuse: releasing an occupied index and then allocating hands out that same index |
| EntryAlloc.DeallocTwiceReleasesOnce | src/entry_alloc.rs:19-26 | a second dealloc of the same index finds the cell empty, returns None and changes nothing |
| IpIterator.PickRandomCoprime | src/ip_iterator.rs:47-55 | among draws from `[end/4, end - end/4]`, returns the first one coprime to `end`; it returns None only if no draw is coprime |
| IpIterator.AcceptedStepIsOddInRange | src/ip_iterator.rs:47-54 | for M = 2^32 a draw passes the filter exactly when it is odd and lies in `[2^30, 3·2^30]`, so the filter can succeed |
| IpIterator.CoprimeToMIffOdd | src/ip_iterator.rs:7-7 | for M = 2^32, gcd(M, c) = 1 holds exactly when c is odd |
| IpIterator.New | src/ip_iterator.rs:17-26 | given draws from the step range, the step is the first odd draw, and there is none exactly when every draw is even; the fresh iterator is active, starts at `first_pick` and satisfies the state invariant (picks below M, no `u64` overflow) |
| IpIterator.Next | src/ip_iterator.rs:31-44 | when inactive, returns None and leaves the state unchanged; when active, the new pick is `(pick + c) mod M` and is returned as the address, the iterator deactivates exactly when the new pick equals `first_pick`, `c` and `first_pick` never change, and the state invariant is kept |
| IpIterator.ValidHasNoOverflow | src/ip_iterator.rs:37-37 | in every valid state, `pick + c` fits in a `u64` |
| IpIterator.Run | src/ip_iterator.rs:29-44 | `n` successive calls of `next` yield `n` results, keep the state invariant and never change `c` or `first_pick` |
| IpIterator.RunWhileActive | src/ip_iterator.rs:36-43 | while the orbit has not returned to `first_pick`, the k-th call yields `(pick + k·c) mod M` and the iterator stays active; it deactivates on the call that reaches `first_pick` |
| IpIterator.StaysExhausted | src/ip_iterator.rs:32-34 | once inactive, every further call returns None and the state stays the same |
| IpIterator.NoEarlyReturn | src/ip_iterator.rs:39-41 | with gcd(M, c) = 1 a fresh orbit does not revisit `first_pick` before step M |
| IpIterator.FirstPeriod | src/ip_iterator.rs:36-43 | with gcd(M, c) = 1 the first M calls on a fresh iterator yield pairwise-distinct addresses below M that cover `[0, M)`; the M-th is `first_pick`, after which the iterator is inactive |
| IpIterator.FullPeriod | src/ip_iterator.rs:31-44 | with gcd(M, c) = 1, for any number of calls n >= M, the first M results form a permutation of `[0, M)` ending at `first_pick`, and every result after the M-th is None |
| IpIterator.NonCoprimeStepCutsShort | src/ip_iterator.rs:52-53 | with gcd(M, c) != 1 a fresh iterator returns None within its first M calls, so the coprimality filter is necessary |
| IpIterator.ReturnEndsRun | src/ip_iterator.rs:39-43 | if the orbit is back at `first_pick` after k steps, one of the first k + 1 calls returns None |
| ChatText.ChatToStr | src/main.rs:23-32 | `chat_to_str` equals the pre-order reading of the chat tree; a chat without extras maps to its own text, and the text is always a prefix of the result |
| ChatText.RecurseAppends | src/main.rs:24-27 | the buffer-passing `recurse` appends exactly the pre-order reading of the chat to whatever the buffer held |
| ChatText.ChatToStrIsPreorder | src/main.rs:23-32 | `chat_to_str(chat)` is `chat.text` followed by `chat_to_str(e)` for each `e` in `chat.extra`, in order |
| ScanLoop.Start | src/main.rs:55-57 | the loop starts from an empty pool of `MAX_CONNECTIONS` cells, all free, and a fresh active enumerator at `first_pick`, and satisfies the scanner invariant; it fails exactly when no draw is odd |
| ScanLoop.Fill | src/main.rs:60-78 | the fill phase panics exactly when the enumerator yields None within the free slots' worth of calls. Otherwise the pool ends full and the invariant holds. One linked pair is submitted per free slot, slots are taken from the top of the free list down, and the k-th attempt targets the k-th address yielded, on port 25565. Every connect tag is a distinct slot index below `MAX_CONNECTIONS`, never `u64::MAX`, and every timeout tag is `u64::MAX`. Each tagged cell holds its attempt record, and attempts already in flight are untouched |
| ScanLoop.FillStep | src/main.rs:61-75 | one fill iteration on a non-full pool always allocates (the `alloc(...).unwrap()` cannot fail) and extends the record of submitted pairs by the slot and address just taken |
| ScanLoop.FillDone | src/main.rs:60-60 | when the fill loop stops because the pool is full, every free slot received an attempt whose address came from a non-exhausted enumerator |
| ScanLoop.HandleCompletion | src/main.rs:82-88 | a timeout completion leaves the pool unchanged and dispatches nothing. Any other completion panics exactly when its slot is past the pool or empty. Otherwise it empties and frees exactly that slot, touching no other, and dispatches the released record exactly when the result is 0. The invariant is kept |
| ScanLoop.Drain | src/main.rs:82-88 | handling a batch keeps the pool invariant and capacity, and no more records are dispatched than slots freed |
| ScanLoop.DrainInFlight | src/main.rs:82-88 | a batch whose slot completions name distinct occupied slots never panics, frees exactly the named slots, and dispatches, in completion order, the records of exactly the connects whose result is 0 |
| ScanLoop.ReleasedOnce | src/main.rs:84-84 | after a completion has freed its slot, a second completion naming the same slot panics rather than freeing it twice |
| ScanLoop.CapacityBound | src/main.rs:55-55 | in every valid scanner state the number of in-flight attempts is at most `MAX_CONNECTIONS` |

## Left out

- Kernel I/O is not modelled: io_uring creation, `push_multiple`, `submit_and_wait(RING_BATCH_SIZE)` and completion iteration (src/main.rs:54, 77, 80, 82). The fill phase instead returns the linked pairs it would push. The drain phase consumes completions as an abstract sequence of `(user_data, result)` pairs, so batching by `RING_BATCH_SIZE` has no counterpart.
- The linked-timeout semantics (a 500 ms `CONNECT_TIMEOUT` cancelling the connect) belong to the kernel. Only their tags are modelled: a cancelled connect is just a completion with a non-zero result.
- Socket creation and its fatal `?` error are not modelled. Neither are `SockaddrIn`/`SocketAddrV4` and `Timespec` construction (src/main.rs:52, 64-65). An attempt record is the target address and port, without the socket handle.
- The probe is not modelled: `process`, the craftping handshake, socket timeouts, `println!` and `std::thread::spawn` (src/main.rs:34-49, 86). A dispatch is modelled as the record appearing in the `dispatched` output.
- The outer `loop` is not modelled as a whole. Fill and drain are separate transitions, and `Valid` is the invariant linking them.
- Randomness (`thread_rng().gen_range`, src/ip_iterator.rs:18, 52) becomes parameters. `IpIterator.New` and `ScanLoop.Start` take the first pick and a finite prefix of the draw stream, and so does `PickRandomCoprime`. Termination of the rejection-sampling loop is probabilistic and is not claimed.
- PickRandomCoprime: returns None when no draw in the given prefix is coprime. The source's endless stream would keep drawing instead, so its `unwrap` cannot fail.
- IpIterator.New: returns None when no draw in the given prefix is odd, for the same reason; the source never fails here.
- ScanLoop.Start: returns None exactly when `IpIterator.New` does.
- The `gcd` crate is replaced by Euclid's algorithm `NumberTheory.Gcd`, which computes the same value. `Ipv4Addr::from(pick as u32)` is the pick itself; the cast is lossless because `pick < 2^32`.
- `chat_to_str` pre-reserves `String::with_capacity(chat.text.len())`. That is an allocation hint with no observable effect, so it is not modelled. The `Chat` type is modelled only through its `text` and `extra` fields.
- `cq.user_data() as usize` is modelled as the identity, which holds on 64-bit targets.
