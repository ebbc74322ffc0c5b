/** The round-robin scheduler component: it is built from the board's kernel
    and the process table, and `Finalize` seeds a fresh scheduler by
    constructing, in a caller-supplied static buffer, one node per occupied
    process slot and pushing each onto the head of the scheduler's list. */
module RoundRobin {
  import opened Wrappers
  import opened KernelSched
  import opened Seeding

  /** The static buffer handed to `Finalize`: one slot per potential
      process, `None` while a slot is uninitialised. */
  type NodeBuffer = array<Option<ProcessNode>>

  /** `rr_component_helper!(n)`: a buffer of exactly `n` slots, all
      uninitialised. */
  method RrComponentHelper(n: nat) returns (buf: NodeBuffer)
    ensures fresh(buf) && buf.Length == n
    ensures forall i :: 0 <= i < n ==> buf[i] == None
  {
    buf := new Option<ProcessNode>[n](_ => None);
  }

  /** The component: the kernel the scheduler will serve and the process
      table at boot. */
  datatype RoundRobinComponent = RoundRobinComponent(boardKernel: Kernel, processes: Table)
  {
    /** `RoundRobinComponent::new`: stores its two arguments and nothing else. */
    static function New(boardKernel: Kernel, processes: Table): (c: RoundRobinComponent)
      ensures c.boardKernel == boardKernel && c.processes == processes
    {
      RoundRobinComponent(boardKernel, processes)
    }

    /** `finalize(buf)`: walks the slots of `buf` in increasing index
        order; initialises slot `i` exactly when
        `processes[i]` is occupied, with a node carrying that process's app
        id, leaving the other slots untouched; and pushes each new node onto
        the head of a fresh scheduler's list. `written` is the sequence of
        slots initialised, in order. Entries of `processes` beyond the
        buffer's length are never read; a table shorter than the buffer
        is an out-of-bounds index, which the caller must rule out. */
    method Finalize(buf: NodeBuffer)
      returns (scheduler: RoundRobinSched, ghost written: seq<nat>)
      requires buf.Length <= |processes|
      modifies buf
      ensures fresh(scheduler) && scheduler.kernel == boardKernel
      ensures forall i :: 0 <= i < buf.Length && processes[i].Some? ==>
        buf[i] == Some(ProcessNode(processes[i].value))
      ensures forall i :: 0 <= i < buf.Length && processes[i].None? ==>
        buf[i] == old(buf[i])
      ensures written == OccupiedIndices(processes[..buf.Length])
      ensures scheduler.processes == PushHeads([], processes[..buf.Length])
      ensures |scheduler.processes| == |written| == CountOccupied(processes[..buf.Length])
      ensures forall k :: 0 <= k < |written| ==>
        buf[written[|written| - 1 - k]] == Some(scheduler.processes[k])
    {
      scheduler := new RoundRobinSched(boardKernel);
      written := [];
      for i := 0 to buf.Length
        invariant forall j :: 0 <= j < i && processes[j].Some? ==>
          buf[j] == Some(ProcessNode(processes[j].value))
        invariant forall j :: 0 <= j < buf.Length && (i <= j || processes[j].None?) ==>
          buf[j] == old(buf[j])
        invariant written == OccupiedIndices(processes[..i])
        invariant scheduler.processes == PushHeads([], processes[..i])
      {
        assert processes[..i + 1][..i] == processes[..i];
        if processes[i].Some? {
          var node := ProcessNode(processes[i].value);
          buf[i] := Some(node);
          written := written + [i];
          scheduler.PushHead(node);
        }
        assert scheduler.processes == PushHeads([], processes[..i + 1]);
      }
      var seeded := processes[..buf.Length];
      OccupiedIndicesCount(seeded);
      SeededSlots(seeded, buf[..]);
    }
  }
}
