# Round-robin scheduler component (Tock boards), modelled in Dafny

This project models the board-side component that builds Tock's round-robin
scheduler, `boards/components/src/sched/round_robin.rs`. A board creates a
`RoundRobinComponent` from its kernel handle and its process table, then calls
`finalize` with a static buffer of node slots made by `rr_component_helper!(N)`.
`finalize` creates a scheduler and walks the buffer in index order. For each
slot `i` whose process-table entry `processes[i]` is occupied, it constructs a
`RoundRobinProcessNode` in place in `buf[i]`, holding that process's app id.
It then pushes that node onto the scheduler's process list with `push_head`.

Files:

- `wrappers.dfy`: `Option`, used for table entries and buffer slots.
- `kernel_sched.dfy`: the parts of the kernel crate that the component
  touches. App ids and the kernel handle are opaque values. A node carries an
  app id. `RoundRobinSched` is a class whose process list is a `seq` field;
  `PushHead` prepends to it.
- `seeding.dfy`: the reference definitions of the seeding loop
  (`OccupiedIndices`, `CountOccupied`, `PushHeads`) and the lemmas about them.
- `round_robin.dfy`: the component itself. `New`, `RrComponentHelper` and
  `Finalize` are here. `Finalize` is an imperative loop over an
  `array<Option<ProcessNode>>`, where `None` is an uninitialised slot.

Because `push_head` prepends, the table `[A, empty, B, C]` seeds the list
`C, B, A` (`SeededExample`): the highest-indexed occupied slot is at the head,
not the first one in table order.

The buffer still holds its own slots after `Finalize`; the list holds the
nodes in those slots. The ghost result `written` of `Finalize` lists the
slots initialised, in order. Its postcondition ties list position `k` to slot
`written[|written| - 1 - k]`.

On a buffer from `RrComponentHelper`, every slot starts as `None`. For such a
buffer, `Finalize`'s two slot postconditions give the if-and-only-if: slot `i`
is initialised exactly when `processes[i]` is occupied. A slot whose entry is
empty keeps its old content.

## Model

| member | source | states |
|---|---|---|
| `KernelSched.RoundRobinSched.constructor` | boards/components/src/sched/round_robin.rs:57-60 | a new scheduler keeps the kernel it was given and starts with an empty process list |
| `KernelSched.RoundRobinSched.PushHead` | boards/components/src/sched/round_robin.rs:69 | the pushed node becomes the head; the old list follows it unchanged |
| `RoundRobin.RrComponentHelper` | boards/components/src/sched/round_robin.rs:24-32 | the buffer is fresh, has exactly `n` slots, and every slot is uninitialised |
| `RoundRobin.RoundRobinComponent.New` | boards/components/src/sched/round_robin.rs:41-49 | the component's kernel and process table are exactly the arguments |
| `RoundRobin.RoundRobinComponent.Finalize` | boards/components/src/sched/round_robin.rs:56-73 | the table must be at least as long as the buffer; the slots written are exactly the occupied indices below the buffer length, each once and in increasing order (`written == OccupiedIndices(...)`, with `OccupiedIndicesIncreasing`), and the list is built in that order (`PushHeads`); slot `i` gets `Some(node(id))` when `processes[i] == Some(id)` and is unchanged otherwise; the slots written are the occupied indices in order; the fresh scheduler serves the given kernel; its list is `PushHeads([], processes[..buf.Length])`, one node per occupied entry, and each list node is the content of the matching written slot |
| `Seeding.CountOccupied` | boards/components/src/sched/round_robin.rs:62-71 | the number of occupied entries is at most the table length, and is zero exactly when no entry is occupied |
| `Seeding.OccupiedIndices` | boards/components/src/sched/round_robin.rs:62-68 | every index the loop writes is in range and has an occupied entry |
| `Seeding.PushHeads` | boards/components/src/sched/round_robin.rs:62-71 | the list left by visiting the entries in index order and prepending one node per occupied entry; grows by at most one node per entry and never shrinks (characterised exactly by `PushHeadsSuffix`, `PushHeadsOrder` and `PushHeadsOnto`) |
| `Seeding.OccupiedIndicesIncreasing` | boards/components/src/sched/round_robin.rs:62-68 | written indices strictly increase, so no slot is initialised twice |
| `Seeding.OccupiedIndicesComplete` | boards/components/src/sched/round_robin.rs:63-68 | an index is written if and only if its entry is occupied |
| `Seeding.OccupiedIndicesCount` | boards/components/src/sched/round_robin.rs:62-71 | the number of slots written equals the number of occupied entries |
| `Seeding.PushHeadsSuffix` | boards/components/src/sched/round_robin.rs:69 | pushing adds one node per written slot in front of the prior list, which remains unchanged as the suffix |
| `Seeding.PushHeadsOrder` | boards/components/src/sched/round_robin.rs:62-71 | list position `k` holds the node of the `k`-th occupied entry counted from the end of the table: nodes are in decreasing index order |
| `Seeding.PushHeadsOnto` | boards/components/src/sched/round_robin.rs:69 | seeding a list `L` gives the list seeded from empty followed by `L` |
| `Seeding.SeededLength` | boards/components/src/sched/round_robin.rs:62-71 | the seeded list has exactly as many nodes as there are occupied entries, and at most as many as entries |
| `Seeding.SeededSlots` | boards/components/src/sched/round_robin.rs:64-69 | if each occupied entry's slot holds that entry's node, then list position `k` is the content of the slot written `k`-th from last |
| `Seeding.SeededFromTable` | boards/components/src/sched/round_robin.rs:63-69 | every node in the seeded list carries the app id of some occupied entry |
| `Seeding.TableInSeeded` | boards/components/src/sched/round_robin.rs:63-69 | every occupied entry's node is in the seeded list |
| `Seeding.SeededMembers` | boards/components/src/sched/round_robin.rs:63-69 | the node for an app id is in the seeded list if and only if some entry holds that app id |
| `Seeding.SeededHead` | boards/components/src/sched/round_robin.rs:69 | when any entry is occupied, the list's head is the node of the highest-indexed occupied entry |
| `Seeding.SeededExample` | boards/components/src/sched/round_robin.rs:62-71 | the table `[A, empty, B, C]` seeds the list `C, B, A` |

## Left out

- `static_init!`, `static_init_half!`, `static mut` and `MaybeUninit`: this is
  raw-memory plumbing. Initialising a slot in place is modelled as writing
  `Some(node)` into an array cell. Allocating the scheduler is a fresh object.
- Rust lifetimes and the `Component` trait's associated types: they have no
  run-time behaviour.
- The index `processes[i]` panics when the table is shorter than the buffer.
  `RoundRobinComponent.Finalize` requires `buf.Length <= |processes|` instead
  of modelling the panic. A panic at boot is fatal, so there is no error path
  to model.
- `RoundRobinSched` is defined in the kernel crate, which is not part of this
  model. Only `push_head` and the scheduler's creation are modelled. Creation
  is assumed to store the kernel and leave the list empty. Selection, rotation,
  removal, timeslices and `kernel_loop` are left out.
- The list's intrusive links (`ListLink`) are not modelled. The list is a
  sequence of node values. The ghost `written` result of `Finalize` records
  which buffer slot each list node lives in.
- `kernel::Kernel` and the `ProcessType` trait objects are foreign types. The
  kernel is an opaque handle. A process is reduced to the app id that
  `appid()` returns.
- The usage example in the module's doc comment (calling `kernel_loop`, which
  never returns) is board main-loop code, not component logic.
