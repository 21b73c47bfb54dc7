# Double-buffered persistent command log (pb-redis)

This project is a Dafny model of the persistent command log that pb-redis keeps in
persistent memory (`src/pmem.c`). It also covers the thin client commands that drive the log.

The pool root holds:
- two chain-head slots (`first_head` and `second_head`);
- a flag (`current_head`) that says which slot is "current";
- a counter (`num_logs`).

Each slot heads a chain of `persistent_aof_log` nodes linked through `next`; in the C code each node's `prev` names the node in front of it, and the head's `prev` is null. The model proves that append keeps this back-link shape (`BufferInvariant.AppendKeepsBackLinks`); `BufferInvariant.Valid` does not track it, so nothing is proved about it for the switch or the clears. Each node carries the handle of a command payload. The log operations are:
- resolving the current or the other head;
- writing the slot the flag selects;
- inserting a node at the head of the current chain;
- flipping the flag;
- clearing a whole chain;
- the startup drain, which clears both chains.

The model uses these pieces:
- **Handles** are natural numbers, with 0 as the null handle.
- **The pool** is an immutable record: the root, a map from handle to log node, the set of live payload handles, and an allocator break.
- **The allocator** is a bump allocator. It hands out the break and raises it, so every handle it gives out is fresh.
- **Operations** are pure functions. The clear and the startup drain are methods, because the clear is a loop in the C code.
- **Chains** are described by ghost witness sequences (`Chains.IsChain`). A witness is the list of handles met when following `next` from a head to null, with no handle repeated. The C code does not check acyclicity; the clear and the startup drain require it (see "## Left out"). It gives the clear loop its termination measure.

The central invariant is `BufferInvariant.Valid`:
- the two slots head disjoint acyclic chains;
- together those chains hold every live log node;
- `num_logs` is the sum of their lengths.

Append, the switch, a clear of either slot's own head, the startup drain and the add, switch and clear-current commands preserve it (`PbCommands.AddCommandKeepsInvariant`, `PbCommands.SwitchCommandKeepsInvariant`, `PbCommands.ClearCommandKeepsInvariant`). The slot writes alone do not, and neither does a clear started anywhere else; pb-redis only uses them in those combinations. The model also proves two round trips: appending then clearing, and the startup drain.

Modules: `Arena` (handles, records, allocator), `Chains` (chain witnesses and their lemmas), `PersistentBuffer` (`src/pmem.c`), `BufferInvariant` (the counter invariant and round trips), `PbCommands` (the transaction wrappers of `src/t_pmem.c`).

Two points where the code is narrower than a plain reading of the operations, and the model follows the code:
- **The clear nulls the other slot whenever the cleared head is not the current head**, even if the cleared head matches neither slot (`src/pmem.c:135-139`). A plain reading would null "whichever slot held the cleared head". The two agree for every call in the code, because the callers only ever pass a slot's own head. `BufferInvariant.ClearOtherKeepsInvariant` covers the one overlap: when both heads are null, the code writes the current slot, and this does no harm.
- **The flag switch is C's `!`**, so after one switch the flag is 0 or 1 whatever it was before. Two switches therefore restore both resolutions, but they restore the flag itself only when it was 0 or 1 (`BufferInvariant.SwitchTwice`).

## Model

| member | source | states |
|---|---|---|
| Arena.Alloc | src/pmem.c:85-86 | zero-initialising allocation returns a handle that is not null and not in use by any log node or payload, and changes nothing else in the pool |
| PersistentBuffer.HeadsResolveOpposite | src/pmem.c:43-53 | the current and other resolutions always name opposite slots: flag 0 gives (first, second), any other flag gives (second, first) |
| PersistentBuffer.SetCurrentHead | src/pmem.c:55-63 | afterwards the current resolution is the new handle; the other resolution, the flag and the counter are unchanged; exactly one slot was written |
| PersistentBuffer.SetAnotherHead | src/pmem.c:65-73 | afterwards the other resolution is the new handle; the current resolution, the flag and the counter are unchanged; exactly one slot was written |
| PersistentBuffer.AddToPBList | src/pmem.c:74-107 | the returned node is fresh, holds the command, has a null back-link and links to the old current head; the old head (if any) is back-linked to it and no other node changes; it becomes the current head; the other head and flag stay; the counter rises by exactly one |
| PersistentBuffer.SwitchDoubleBuffer | src/pmem.c:109-113 | the flag is negated (it is 0 afterwards exactly when it was non-zero before), so the new current head is the old other head and vice versa; the flag becomes 0 or 1; slots, counter, nodes and payloads are untouched |
| PersistentBuffer.ClearPBList | src/pmem.c:115-142 | for an acyclic chain from the head, the loop terminates, frees exactly the chain's nodes and their payloads and nothing else, lowers the counter by the chain length, and nulls the current slot if the head is the current head, else the other slot, leaving the unchosen slot and the flag unchanged |
| PersistentBuffer.ReconstructPB | src/pmem.c:36-41 | clearing the current chain and then the chain the other slot names afterwards leaves both slots null, frees exactly the nodes and payloads of both chains, lowers the counter by both lengths and returns C_OK |
| BufferInvariant.CountIsLiveNodes | src/pmem.c:74-142 | under the invariant the counter equals the number of live log nodes |
| BufferInvariant.AppendKeepsInvariant | src/pmem.c:92-104 | append keeps the counter invariant: the current chain becomes the new node followed by the old current chain, and the other chain is unchanged |
| BufferInvariant.ChainsDeterminedByRoot | src/pmem.c:122-134 | the walk along `next` from each head slot is determined by the slot: any two witnesses of the invariant for the same pool agree |
| BufferInvariant.AppendKeepsBackLinks | src/pmem.c:92-100 | after an append the current chain is still back-linked: the new head's `prev` is null, the old head's `prev` is the new node, and every other member's `prev` is still the member in front of it |
| BufferInvariant.SwitchKeepsInvariant | src/pmem.c:109-113 | switching keeps the invariant and exchanges the roles of the two chains |
| BufferInvariant.SwitchTwice | src/pmem.c:109-113 | two switches restore both resolutions, slots, counter and heap; the whole pool is restored exactly when the flag was 0 or 1 |
| BufferInvariant.ClearCurrentKeepsInvariant | src/pmem.c:135-141 | clearing the current head keeps the invariant with an empty current chain and the other chain unchanged |
| BufferInvariant.ClearOtherKeepsInvariant | src/pmem.c:135-141 | clearing the other head keeps the invariant with an empty other chain and the current chain unchanged, including when both heads are null |
| BufferInvariant.AppendAll | src/pmem.c:74-107 | a run of appends yields one new node per command, keeps the other head, the flag and the payloads, and raises the counter by the number of commands |
| BufferInvariant.AppendAllFrame | src/pmem.c:85-100 | a run of appends adds exactly its new nodes, all of them fresh, and changes no old node except the old current head |
| BufferInvariant.AppendAllThenFree | src/pmem.c:74-142 | starting from an empty current buffer, freeing the nodes a run of appends created gives back the old heap exactly |
| BufferInvariant.AppendAllKeepsInvariant | src/pmem.c:92-104 | after a run of appends the current chain is the new nodes newest first, followed by the old current chain, and the invariant holds |
| BufferInvariant.AppendThenClearRoundTrip | src/pmem.c:74-142 | appending any commands to an empty current buffer and then clearing the current head restores the counter, the live nodes and the other head, and leaves the current slot null |
| BufferInvariant.ReconstructEmpties | src/pmem.c:36-41 | on a pool that satisfies the invariant, the startup drain leaves both slots null, no live log node and a counter of 0 |
| PbCommands.AddPBListCommand | src/t_pmem.c:120-136 | an aborted transaction leaves the pool unchanged and replies with an error; a committed one replies OK and adds one counted node holding a freshly allocated payload, with a null `prev`, in front of the old current head, whose `prev` now names it; every other node, every old payload, the flag and the other head are kept |
| PbCommands.AddCommandKeepsInvariant | src/t_pmem.c:120-136 | a committed add keeps the counter invariant with the new node in front of the current chain; an aborted one leaves the pool as it was |
| PbCommands.SwitchPBListCommand | src/t_pmem.c:138-152 | an aborted switch changes nothing and replies with an error; a committed one negates the flag (leaving it 0 or 1), exchanges the two resolutions and replies OK; nodes, payloads and counter never change |
| PbCommands.SwitchCommandKeepsInvariant | src/t_pmem.c:138-152 | a committed switch keeps the counter invariant with the roles of the two chains exchanged; an aborted one leaves the pool as it was |
| PbCommands.ClearCurrentPBListCommand | src/t_pmem.c:154-168 | an aborted clear changes nothing and replies with an error; a committed one frees exactly the current chain's nodes and their payloads, nulls the current slot, keeps the flag, the other head and the allocator state, lowers the counter by the chain length and replies OK |
| PbCommands.ClearCommandKeepsInvariant | src/t_pmem.c:154-168 | a committed clear-current command, used through its contract alone, keeps the counter invariant with an empty current chain and the other chain unchanged, so further adds stay callable; an aborted one leaves the pool as it was |

## Left out

- PersistentBuffer.ClearPBList: requires the chain from `head` to be acyclic. The loop at `src/pmem.c:122-134` does not check this: it stops only at a null handle, so on a cyclic chain it would free nodes and payloads a second time and never finish. The model does not describe that behaviour. Under `BufferInvariant.Valid` every chain is acyclic, so the clears pb-redis issues are covered.
- PersistentBuffer.ReconstructPB: requires the current and the other chain to be acyclic and to share no node. The code at `src/pmem.c:38-39` does not check this: on shared nodes the second clear would walk nodes the first one freed. The model does not describe that behaviour. `BufferInvariant.Valid` implies both conditions (`BufferInvariant.ReconstructEmpties`).
- `loadAppendOnlyPersistentBuffer` (`src/pmem.c:37`), the command replay at startup, is not part of this model. Its code is not among the files modelled. The pool reaches the two clears unchanged.
- Payload contents (`sdsdupPM` and `sdsfreePM`) are opaque handles. A payload is freed together with its node. If two nodes shared one payload, the C code would free it twice; the set-based model cannot show this.
- The offset-to-pointer arithmetic (`src/pmem.c:82-83`, `src/pmem.c:126-129`) is replaced by direct use of handles. The handle's pool identifier is dropped because there is only one pool.
- Undo logging, `TX_ADD_DIRECT`/`TX_ADD_FIELD_DIRECT` and crash durability are not modelled. Each operation is one atomic state transition. A transaction abort is an input of the `PbCommands` wrappers, and it rolls the whole pool back.
- The width of `num_logs`, of the flag and of the `freed` counter is not modelled: they are unbounded integers. The root structure's declaration is not part of this model.
- The status commands `getDramStatusCommand`, `getPBListStatusCommand` and `getAnotherPBListStatusCommand` (`src/t_pmem.c`) only format replies. The latency emulation (`src/pmem_latency.c`, `src/pmem_latency.h`) only busy-waits on the wall clock. None of them has behaviour to state.
- The persistent key/value entry list, the victim list, eviction and the dictionary rebuild are not part of this model. Their code is not among the files modelled.
