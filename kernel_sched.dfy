/** The parts of the kernel crate that the round-robin component touches:
    process identities, scheduling nodes and the scheduler's process list.
    Only what the component uses is modelled; the scheduling policy itself
    (choosing, rotating and removing processes) is not. */
module KernelSched {

  /** Opaque identity of a process, as returned by `appid()`; the component
      only copies it into a node. */
  datatype AppId = AppId(token: nat)

  /** Opaque handle on the board's kernel; the component only passes it on. */
  datatype Kernel = Kernel(token: nat)

  /** A round-robin scheduling record, `RoundRobinProcessNode::new(appid)`.
      Its intrusive list link is represented by its position in the
      scheduler's list rather than by a field. */
  datatype ProcessNode = ProcessNode(appid: AppId)

  /** The round-robin scheduler, reduced to the kernel it serves and its
      process list, head first. */
  class RoundRobinSched {
    const kernel: Kernel
    var processes: seq<ProcessNode>

    /** `RoundRobinSched::new(kernel)`: a scheduler with an empty list. */
    constructor (kernel: Kernel)
      ensures this.kernel == kernel && processes == []
    {
      this.kernel := kernel;
      processes := [];
    }

    /** `processes.push_head(node)`: the node becomes the new head and the
        rest of the list is kept, in order, behind it. */
    method PushHead(node: ProcessNode)
      modifies this
      ensures processes == [node] + old(processes)
    {
      processes := [node] + processes;
    }
  }
}
